/** `print_inline(table)` and `print(array)` of `default_formatter`: the
    printers for values that sit on the right of a `=`, and the text each
    one produces. */
module Inline {
  import opened Nodes
  import opened Printer
  import Columns

  /** The width bias `print(array)` hands to `forces_multiline`. */
  function Bias(c: Config, level: int): nat
  {
    c.indentColumns * Clamp(level)
  }

  /** The indent level of the elements of a multiline array. */
  function ElemLevel(c: Config, level: int): int
  {
    Clamp(level) + (if c.indentArrayElements then 1 else 0)
  }

  // ---------------------------------------------------------------------
  // The printers

  /** The switch both loops use for one child: tables print inline, arrays
      use the array printer, anything else goes to `print_value`. */
  function PrintNested(c: Config, s: State, n: Node): (r: State)
    ensures r.indent == s.indent && r.keyPath == s.keyPath && r.pending == s.pending && r.lines == s.lines
    decreases n, 3, 0
  {
    match n
    case Table(_, _) => PrintInlineTable(c, s, n)
    case Array(_) => PrintArray(c, s, n)
    case _ => Value(c, s, n)
  }

  /** `print_inline(table)`. */
  function PrintInlineTable(c: Config, s: State, t: Node): (r: State)
    requires t.Table?
    ensures r.indent == s.indent && r.keyPath == s.keyPath && r.pending == s.pending && r.lines == s.lines
    decreases t, 2, 0
  {
    if |t.entries| == 0 then ClearNaked(Raw(s, "{}"))
    else ClearNaked(Raw(InlineEntries(c, Raw(s, "{ "), t, 0), " }"))
  }

  /** The entry loop of `print_inline(table)` from entry `i`. */
  function InlineEntries(c: Config, s: State, t: Node, i: nat): (r: State)
    requires t.Table? && i <= |t.entries|
    ensures r.indent == s.indent && r.keyPath == s.keyPath && r.pending == s.pending && r.lines == s.lines
    decreases t, 1, |t.entries| - i
  {
    if i == |t.entries| then s
    else InlineEntries(c, PrintNested(c, EntryLead(c, s, i, t.entries[i].0), t.entries[i].1), t, i + 1)
  }

  /** What precedes the value of entry `i`: `, ` after the first entry,
      then the key and ` = `. */
  function EntryLead(c: Config, s: State, i: nat, k: string): (r: State)
    ensures r.out == s.out + (if i > 0 then ", " else "") + c.keyText(k) + " = "
    ensures r == s.(out := r.out, naked := false)
  {
    var s1 := if i > 0 then Raw(s, ", ") else s;
    Raw(Key(c, s1, k), " = ")
  }

  /** `print(array)`: single-line unless `forces_multiline` says the array
      does not fit after the current indent. */
  function PrintArray(c: Config, s: State, a: Node): (r: State)
    requires a.Array?
    ensures r.indent == s.indent && r.keyPath == s.keyPath && r.pending == s.pending && r.lines == s.lines
    decreases a, 2, 0
  {
    if |a.elems| == 0 then ClearNaked(Raw(s, "[]"))
    else
      var multiline := Columns.ForcesMultiline(a, Bias(c, s.indent));
      CloseArray(c, ArrayElems(c, OpenArray(c, s, multiline), a, 0, multiline), s.indent, multiline)
  }

  /** The opening bracket: a multiline array moves a negative indent up to
      0 and, with `indent_array_elements`, one level in. */
  function OpenArray(c: Config, s: State, multiline: bool): (r: State)
    ensures r.out == s.out + (if multiline then "[" else "[ ")
    ensures r.indent == if multiline then ElemLevel(c, s.indent) else s.indent
    ensures r == s.(out := r.out, indent := r.indent)
  {
    var s1 := Raw(s, "[");
    if multiline then
      var s1' := if s.indent < 0 then s1.(indent := 0) else s1;
      if c.indentArrayElements then s1'.(indent := s1'.indent + 1) else s1'
    else Raw(s1, " ")
  }

  /** The closing bracket: a multiline array restores the indent and puts
      `]` on a line of its own. */
  function CloseArray(c: Config, s: State, level: int, multiline: bool): (r: State)
    ensures r.out == s.out + (if multiline then "\n" + Pad(c, level) else " ") + "]"
    ensures !r.naked
    ensures r == s.(out := r.out, indent := r.indent, naked := false)
    ensures multiline ==> r.indent == level
  {
    var s4 := if multiline then PrintIndent(c, Newline(s.(indent := level), true)) else Raw(s, " ");
    ClearNaked(Raw(s4, "]"))
  }

  /** The element loop of `print(array)` from element `i`. */
  function ArrayElems(c: Config, s: State, a: Node, i: nat, multiline: bool): (r: State)
    requires a.Array? && i <= |a.elems|
    ensures r.indent == s.indent && r.keyPath == s.keyPath && r.pending == s.pending && r.lines == s.lines
    decreases a, 1, |a.elems| - i
  {
    if i == |a.elems| then s
    else ArrayElems(c, PrintNested(c, ElemLead(c, s, i, multiline), a.elems[i]), a, i + 1, multiline)
  }

  /** What precedes element `i`: a comma after the first element (and a
      space on a single line), then a forced line break and the indent on
      a multiline array. */
  function ElemLead(c: Config, s: State, i: nat, multiline: bool): (r: State)
    ensures r.out == s.out + (if i > 0 then Separator(multiline) else "") + (if multiline then "\n" + Pad(c, s.indent) else "")
    ensures r == s.(out := r.out, naked := r.naked)
  {
    var s1 := if i > 0 then (if multiline then Raw(s, ",") else Raw(s, ", ")) else s;
    if multiline then PrintIndent(c, Newline(s1, true)) else s1
  }

  /** The separator between array elements. */
  function Separator(multiline: bool): string
  {
    if multiline then "," else ", "
  }

  // ---------------------------------------------------------------------
  // The text they produce

  /** Whether an array at indent `level` is printed one element per line:
      its exact width plus the indent reaches the wrap limit. */
  predicate Multiline(c: Config, level: int, a: Node)
  {
    Columns.ExactColumns(a) + Bias(c, level) >= Columns.LineWrapCols
  }

  /** The text of a child at indent `level`. */
  function NestedText(c: Config, level: int, n: Node): string
    decreases n, 2
  {
    match n
    case Table(_, _) => InlineTableText(c, level, n)
    case Array(_) => ArrayText(c, level, n)
    case _ => c.valueText(n)
  }

  /** `k = v` for every entry of an inline table. */
  function EntryPieces(c: Config, level: int, t: Node): (ps: seq<string>)
    requires t.Table?
    ensures |ps| == |t.entries|
    decreases t, 0
  {
    seq(|t.entries|, i requires 0 <= i < |t.entries| => c.keyText(t.entries[i].0) + " = " + NestedText(c, level, t.entries[i].1))
  }

  /** Each element's text, on a fresh indented line in a multiline array. */
  function ElemPieces(c: Config, level: int, a: Node, multiline: bool): (ps: seq<string>)
    requires a.Array?
    ensures |ps| == |a.elems|
    decreases a, 0
  {
    seq(|a.elems|, i requires 0 <= i < |a.elems| =>
      (if multiline then "\n" + Pad(c, level) else "") + NestedText(c, level, a.elems[i]))
  }

  /** An inline table: `{}` when empty, otherwise `{ k = v, ... }`. */
  function InlineTableText(c: Config, level: int, t: Node): string
    requires t.Table?
    decreases t, 1
  {
    if |t.entries| == 0 then "{}"
    else "{ " + Join(EntryPieces(c, level, t), ", ") + " }"
  }

  /** An array: `[]` when empty; `[ a, b ]` when it fits; otherwise `[`,
      every element on its own line one level in, commas only between
      elements, and `]` on its own line at the array's indent. */
  function ArrayText(c: Config, level: int, a: Node): string
    requires a.Array?
    decreases a, 1
  {
    if |a.elems| == 0 then "[]"
    else if Multiline(c, level, a) then
      "[" + Join(ElemPieces(c, ElemLevel(c, level), a, true), Separator(true)) + "\n" + Pad(c, level) + "]"
    else "[ " + Join(ElemPieces(c, level, a, false), Separator(false)) + " ]"
  }

  // ---------------------------------------------------------------------
  // The printers write exactly that text

  /** What a child printer does to the output: appends the child's text and
      leaves the line non-naked. The printers' own contracts say that
      nothing else in the state changes. */
  predicate Writes(s: State, r: State, text: string)
  {
    r.out == s.out + text && !r.naked
  }

  lemma Regroup(a: string, b: string, c: string, d: string, e: string)
    ensures a + b + c + d + e == a + b + (c + d + e)
  {
  }

  lemma Regroup4(a: string, b: string, c: string, d: string)
    ensures a + b + c + d == a + b + (c + d)
  {
  }

  lemma Prepend(a: string, b: string, c: string, d: string, e: string)
    ensures a + (b + c + d + e) == a + b + c + d + e
  {
  }

  lemma {:induction false} NestedWritesText(c: Config, s: State, n: Node)
    ensures Writes(s, PrintNested(c, s, n), NestedText(c, s.indent, n))
    decreases n, 3, 0
  {
    match n
    case Table(_, _) => InlineTableWritesText(c, s, n);
    case Array(_) => ArrayWritesText(c, s, n);
    case _ =>
  }

  /** `print_inline(table)` writes `InlineTableText` at the current indent. */
  lemma {:induction false} InlineTableWritesText(c: Config, s: State, t: Node)
    requires t.Table?
    ensures Writes(s, PrintInlineTable(c, s, t), InlineTableText(c, s.indent, t))
    decreases t, 2, 0
  {
    if |t.entries| > 0 {
      var s0 := Raw(s, "{ ");
      var ps := EntryPieces(c, s.indent, t);
      InlineEntriesText(c, s0, t, 0);
      assert ps[0..] == ps;
      Enclose(s.out, "{ ", Join(ps, ", "), " }");
    }
  }

  lemma Enclose(a: string, open: string, body: string, close: string)
    ensures a + open + "" + body + close == a + (open + body + close)
  {
  }

  /** One entry of an inline table adds its `k = v` piece. */
  lemma InlineEntryStep(c: Config, s: State, t: Node, i: nat)
    requires t.Table? && i < |t.entries|
    ensures var r := PrintNested(c, EntryLead(c, s, i, t.entries[i].0), t.entries[i].1);
            r.out == s.out + (if i > 0 then ", " else "") + EntryPieces(c, s.indent, t)[i] && r.indent == s.indent
    decreases t, 0, 0
  {
    var pre := if i > 0 then ", " else "";
    var kt := c.keyText(t.entries[i].0);
    var s2 := EntryLead(c, s, i, t.entries[i].0);
    NestedWritesText(c, s2, t.entries[i].1);
    var nt := NestedText(c, s.indent, t.entries[i].1);
    Regroup(s.out, pre, kt, " = ", nt);
  }

  lemma {:induction false} InlineEntriesText(c: Config, s: State, t: Node, i: nat)
    requires t.Table? && i <= |t.entries|
    ensures InlineEntries(c, s, t, i).out
              == s.out + (if 0 < i < |t.entries| then ", " else "") + Join(EntryPieces(c, s.indent, t)[i..], ", ")
    decreases t, 1, |t.entries| - i
  {
    if i < |t.entries| {
      var ps := EntryPieces(c, s.indent, t);
      var pre := if i > 0 then ", " else "";
      var post := if i + 1 < |t.entries| then ", " else "";
      var s3 := PrintNested(c, EntryLead(c, s, i, t.entries[i].0), t.entries[i].1);
      InlineEntryStep(c, s, t, i);
      InlineEntriesText(c, s3, t, i + 1);
      JoinFrom(ps, ", ", i);
      Regroup(s.out, pre, ps[i], post, Join(ps[i + 1..], ", "));
    }
  }

  /** `print(array)` writes `ArrayText` at the current indent, whichever
      layout it picks; the early exit of the width estimate never changes
      the choice. */
  lemma {:induction false} ArrayWritesText(c: Config, s: State, a: Node)
    requires a.Array?
    ensures Writes(s, PrintArray(c, s, a), ArrayText(c, s.indent, a))
    decreases a, 2, 0
  {
    if |a.elems| > 0 {
      var bias := Bias(c, s.indent);
      Columns.ForcesMultilineExact(a, bias, bias);
      var multiline := Columns.ForcesMultiline(a, bias);
      assert multiline == Multiline(c, s.indent, a);
      if multiline {
        MultilineArrayText(c, s, a);
      } else {
        SingleLineArrayText(c, s, a);
      }
    }
  }

  lemma MultilineArrayText(c: Config, s: State, a: Node)
    requires a.Array? && |a.elems| > 0
    requires Columns.ForcesMultiline(a, Bias(c, s.indent))
    requires Multiline(c, s.indent, a)
    ensures Writes(s, PrintArray(c, s, a), ArrayText(c, s.indent, a))
    decreases a, 1, |a.elems| + 2
  {
    var s2 := OpenArray(c, s, true);
    AllElemsText(c, s2, a, true);
    var ps := ElemPieces(c, ElemLevel(c, s.indent), a, true);
    Prepend(s.out, "[", Join(ps, Separator(true)), "\n" + Pad(c, s.indent), "]");
  }

  lemma SingleLineArrayText(c: Config, s: State, a: Node)
    requires a.Array? && |a.elems| > 0
    requires !Columns.ForcesMultiline(a, Bias(c, s.indent))
    requires !Multiline(c, s.indent, a)
    ensures Writes(s, PrintArray(c, s, a), ArrayText(c, s.indent, a))
    decreases a, 1, |a.elems| + 2
  {
    var s2 := OpenArray(c, s, false);
    AllElemsText(c, s2, a, false);
    var ps := ElemPieces(c, s.indent, a, false);
    Prepend(s.out, "[ ", Join(ps, Separator(false)), " ", "]");
  }

  /** The whole element loop writes the joined pieces. */
  lemma AllElemsText(c: Config, s: State, a: Node, multiline: bool)
    requires a.Array?
    ensures ArrayElems(c, s, a, 0, multiline).out == s.out + Join(ElemPieces(c, s.indent, a, multiline), Separator(multiline))
    decreases a, 1, |a.elems| + 1
  {
    var ps := ElemPieces(c, s.indent, a, multiline);
    ArrayElemsText(c, s, a, 0, multiline);
    assert ps[0..] == ps;
  }

  /** One element of an array adds its piece. */
  lemma ArrayElemStep(c: Config, s: State, a: Node, i: nat, multiline: bool)
    requires a.Array? && i < |a.elems|
    ensures var r := PrintNested(c, ElemLead(c, s, i, multiline), a.elems[i]);
            && r.out == s.out + (if i > 0 then Separator(multiline) else "") + ElemPieces(c, s.indent, a, multiline)[i]
            && r.indent == s.indent
    decreases a, 0, 0
  {
    var pre := if i > 0 then Separator(multiline) else "";
    var lead := if multiline then "\n" + Pad(c, s.indent) else "";
    var s2 := ElemLead(c, s, i, multiline);
    NestedWritesText(c, s2, a.elems[i]);
    var nt := NestedText(c, s.indent, a.elems[i]);
    assert ElemPieces(c, s.indent, a, multiline)[i] == lead + nt;
    Regroup4(s.out, pre, lead, nt);
  }

  lemma {:induction false} ArrayElemsText(c: Config, s: State, a: Node, i: nat, multiline: bool)
    requires a.Array? && i <= |a.elems|
    ensures ArrayElems(c, s, a, i, multiline).out
              == s.out + (if 0 < i < |a.elems| then Separator(multiline) else "")
                 + Join(ElemPieces(c, s.indent, a, multiline)[i..], Separator(multiline))
    decreases a, 1, |a.elems| - i
  {
    if i < |a.elems| {
      var sep := Separator(multiline);
      var ps := ElemPieces(c, s.indent, a, multiline);
      var pre := if i > 0 then sep else "";
      var post := if i + 1 < |a.elems| then sep else "";
      var s3 := PrintNested(c, ElemLead(c, s, i, multiline), a.elems[i]);
      ArrayElemStep(c, s, a, i, multiline);
      ArrayElemsText(c, s3, a, i + 1, multiline);
      JoinFrom(ps, sep, i);
      Regroup(s.out, pre, ps[i], post, Join(ps[i + 1..], sep));
    }
  }

  // ---------------------------------------------------------------------
  // Single-line output

  /** The base formatter writes keys and scalars without line breaks. */
  ghost predicate SingleLineScalars(c: Config)
  {
    && (forall k :: '\n' !in c.keyText(k))
    && (forall n :: '\n' !in c.valueText(n))
  }

  /** A value whose exact width plus the indent stays under the wrap limit
      is printed without a single line break, however deeply nested. */
  lemma {:induction false} FitsOnOneLine(c: Config, level: int, n: Node)
    requires SingleLineScalars(c)
    requires Columns.ExactColumns(n) + Bias(c, level) < Columns.LineWrapCols
    ensures '\n' !in NestedText(c, level, n)
    decreases n
  {
    match n
    case Table(es, _) =>
      if |es| > 0 {
        var ps := EntryPieces(c, level, n);
        forall i | 0 <= i < |ps|
          ensures '\n' !in ps[i]
        {
          Columns.ChildNarrower(n, i);
          FitsOnOneLine(c, level, es[i].1);
          assert ps[i] == c.keyText(es[i].0) + " = " + NestedText(c, level, es[i].1);
        }
        JoinAvoids(ps, ", ", '\n');
      }
    case Array(xs) =>
      if |xs| > 0 {
        var ps := ElemPieces(c, level, n, false);
        forall i | 0 <= i < |ps|
          ensures '\n' !in ps[i]
        {
          Columns.ChildNarrower(n, i);
          FitsOnOneLine(c, level, xs[i]);
          assert ps[i] == "" + NestedText(c, level, xs[i]);
        }
        JoinAvoids(ps, Separator(false), '\n');
      }
    case _ =>
  }
}
