/** `print(table)` of `default_formatter` for tables printed as blocks,
    and the root `print()`.

    A block table is printed in three passes over its entries: first every
    entry that fits after `k = `, then the non-inline sub-tables under
    `[a.b]` headers, then the arrays of non-inline tables under `[[a.b]]`
    headers, one header per element. `key_path_` is a stack of the keys
    leading to the table being printed, and `pending_table_separator_`
    asks for a blank line before the next header. */
module Blocks {
  import opened Nodes
  import opened Printer
  import Arrays
  import Inline

  // ---------------------------------------------------------------------
  // Classifying entries

  /** A table that is not printed inline. */
  predicate IsBlockTable(v: Node)
  {
    v.Table? && !v.inline
  }

  /** Every element of an array of tables is a table. */
  lemma ArrayOfTablesHoldsTables(xs: seq<Node>)
    requires Arrays.IsArrayOfTables(xs)
    ensures forall i :: 0 <= i < |xs| ==> xs[i].Table?
  {
    forall i | 0 <= i < |xs|
      ensures xs[i].Table?
    {
      assert xs[i].Type() == TableType;
    }
  }

  /** `is_non_inline_array_of_tables`: an array of tables whose first
      element is not inline; the other elements' flags are not looked at. */
  predicate IsBlockArrayOfTables(v: Node)
  {
    && v.Array?
    && Arrays.IsArrayOfTables(v.elems)
    && (ArrayOfTablesHoldsTables(v.elems); !v.elems[0].inline)
  }

  /** The pass that prints an entry whose value is `v`. */
  function PassOf(v: Node): (p: nat)
    ensures 1 <= p <= 3
  {
    if IsBlockTable(v) then 2 else if IsBlockArrayOfTables(v) then 3 else 1
  }

  /** The three counters the header-skipping test keeps: value-like
      children (inline tables and other arrays included), non-inline
      tables, and non-inline arrays of tables. */
  datatype ChildCounts = ChildCounts(values: nat, tables: nat, tableArrays: nat)

  /** The counting loop over `es`. */
  function CountChildren(es: seq<(string, Node)>): ChildCounts
  {
    if |es| == 0 then ChildCounts(0, 0, 0)
    else
      var r := CountChildren(es[..|es| - 1]);
      var v := es[|es| - 1].1;
      match v
      case Table(_, inl) => if inl then r.(values := r.values + 1) else r.(tables := r.tables + 1)
      case Array(_) => if IsBlockArrayOfTables(v) then r.(tableArrays := r.tableArrays + 1) else r.(values := r.values + 1)
      case _ => r.(values := r.values + 1)
  }

  /** `skip_self`: no value-like child and at least one table or array of
      tables. */
  predicate SkipsHeader(t: Node)
    requires t.Table?
  {
    var n := CountChildren(t.entries);
    n.values == 0 && (n.tables > 0 || n.tableArrays > 0)
  }

  /** The counters classify every child the way the passes do: they add up
      to the number of entries, and there is no value-like child exactly
      when no entry belongs to the first pass. */
  lemma {:induction false} CountsMatchPasses(es: seq<(string, Node)>)
    ensures var n := CountChildren(es); n.values + n.tables + n.tableArrays == |es|
    ensures CountChildren(es).values == 0 <==> forall i :: 0 <= i < |es| ==> PassOf(es[i].1) != 1
    decreases |es|
  {
    if |es| > 0 {
      var init := es[..|es| - 1];
      CountsMatchPasses(init);
      assert forall i :: 0 <= i < |init| ==> init[i] == es[i];
    }
  }

  /** A sub-table's header is skipped exactly when it has entries and every
      one of them is itself a block table or an array of block tables. */
  lemma SkipsHeaderIff(t: Node)
    requires t.Table?
    ensures SkipsHeader(t) <==> |t.entries| > 0 && forall i :: 0 <= i < |t.entries| ==> PassOf(t.entries[i].1) != 1
  {
    CountsMatchPasses(t.entries);
  }

  // ---------------------------------------------------------------------
  // The pieces each pass writes

  /** Pass 1 for one entry: a line break unless at a fresh line, the
      indent, `k = ` and the value; the separator flag is raised. */
  function KeyValueEntry(c: Config, s: State, k: string, v: Node): (r: State)
    ensures r.keyPath == s.keyPath && r.indent == s.indent && r.pending
    ensures r.lines == s.lines + [KeyValue(s.keyPath + [k])]
  {
    var s0 := s.(pending := true, lines := s.lines + [KeyValue(s.keyPath + [k])]);
    var s1 := PrintIndent(c, Newline(s0, false));
    Inline.PrintNested(c, Raw(Key(c, s1, k), " = "), v)
  }

  /** The text of a pass-1 entry: `k = v` on a line of its own at the
      current indent. */
  lemma KeyValueEntryText(c: Config, s: State, k: string, v: Node)
    ensures KeyValueEntry(c, s, k, v).out
              == s.out + (if s.naked then "" else "\n") + Pad(c, s.indent) + c.keyText(k) + " = " + Inline.NestedText(c, s.indent, v)
    ensures !KeyValueEntry(c, s, k, v).naked
  {
    var s0 := s.(pending := true, lines := s.lines + [KeyValue(s.keyPath + [k])]);
    var s1 := PrintIndent(c, Newline(s0, false));
    Inline.NestedWritesText(c, Raw(Key(c, s1, k), " = "), v);
  }

  /** The `[a.b]` header of a sub-table whose key is already pushed: the
      pending separator, one more indent level with `indent_sub_tables`,
      the indent and the bracketed key path; the flag is raised again. */
  function TableHeaderText(c: Config, s: State): (r: State)
    ensures r.keyPath == s.keyPath && r.pending
    ensures r.indent == s.indent + (if c.indentSubTables then 1 else 0)
    ensures r.lines == s.lines + [TableHeader(s.keyPath)]
    ensures r.out == s.out + (if s.pending then "\n\n" else "") + Pad(c, r.indent) + "[" + KeyPathText(c, s.keyPath) + "]"
  {
    var s1 := PendingSeparator(s);
    var s2 := if c.indentSubTables then s1.(indent := s1.indent + 1) else s1;
    var s3 := PrintIndent(c, s2);
    KeyPathWritesPath(c, Raw(s3, "["));
    var s4 := Raw(PrintKeyPath(c, Raw(s3, "[")), "]");
    s4.(pending := true, lines := s4.lines + [TableHeader(s.keyPath)])
  }

  /** The `[[a.b]]` header of one element of an array of tables. */
  function ArrayHeaderText(c: Config, s: State): (r: State)
    ensures r.keyPath == s.keyPath && r.indent == s.indent && r.pending
    ensures r.lines == s.lines + [ArrayHeader(s.keyPath)]
    ensures r.out == s.out + (if s.pending then "\n\n" else "") + Pad(c, s.indent) + "[[" + KeyPathText(c, s.keyPath) + "]]"
  {
    var s1 := PrintIndent(c, PendingSeparator(s));
    KeyPathWritesPath(c, Raw(s1, "[["));
    var s2 := Raw(PrintKeyPath(c, Raw(s1, "[[")), "]]");
    s2.(pending := true, lines := s2.lines + [ArrayHeader(s.keyPath)])
  }

  /** `key_path_.pop_back()`. */
  function Pop(path: seq<string>): seq<string>
    requires |path| > 0
  {
    path[..|path| - 1]
  }

  // ---------------------------------------------------------------------
  // The printer

  /** `print(table)`: the three passes in order. The key path and the
      indent level come back as they were. */
  function PrintTable(c: Config, s: State, t: Node): (r: State)
    requires t.Table?
    ensures r.keyPath == s.keyPath && r.indent == s.indent
    decreases t, 5, 0
  {
    Pass3(c, Pass2(c, Pass1(c, s, t, 0), t, 0), t, 0)
  }

  /** Pass 1 from entry `i`: every entry that is neither a block table nor
      an array of block tables. */
  function Pass1(c: Config, s: State, t: Node, i: nat): (r: State)
    requires t.Table? && i <= |t.entries|
    ensures r.keyPath == s.keyPath && r.indent == s.indent
    decreases |t.entries| - i
  {
    if i == |t.entries| then s
    else if PassOf(t.entries[i].1) != 1 then Pass1(c, s, t, i + 1)
    else Pass1(c, KeyValueEntry(c, s, t.entries[i].0, t.entries[i].1), t, i + 1)
  }

  /** Pass 2 from entry `i`: the block sub-tables. */
  function Pass2(c: Config, s: State, t: Node, i: nat): (r: State)
    requires t.Table? && i <= |t.entries|
    ensures r.keyPath == s.keyPath && r.indent == s.indent
    decreases t, 3, |t.entries| - i
  {
    if i == |t.entries| then s
    else if PassOf(t.entries[i].1) != 2 then Pass2(c, s, t, i + 1)
    else Pass2(c, SubTable(c, s, t.entries[i].0, t.entries[i].1), t, i + 1)
  }

  /** One block sub-table: push the key, write the header unless it is
      skipped, print the table, pop the key, and undo the extra indent. */
  function SubTable(c: Config, s: State, k: string, v: Node): (r: State)
    requires IsBlockTable(v)
    ensures r.keyPath == s.keyPath && r.indent == s.indent
    decreases v, 6, 0
  {
    var skip := SkipsHeader(v);
    var s1 := s.(keyPath := s.keyPath + [k]);
    var s2 := if skip then s1 else TableHeaderText(c, s1);
    var s3 := PrintTable(c, s2, v);
    var s4 := s3.(keyPath := Pop(s3.keyPath));
    if !skip && c.indentSubTables then s4.(indent := s4.indent - 1) else s4
  }

  /** Pass 3 from entry `i`: the arrays of block tables. */
  function Pass3(c: Config, s: State, t: Node, i: nat): (r: State)
    requires t.Table? && i <= |t.entries|
    ensures r.keyPath == s.keyPath && r.indent == s.indent
    decreases t, 3, |t.entries| - i
  {
    if i == |t.entries| then s
    else if PassOf(t.entries[i].1) != 3 then Pass3(c, s, t, i + 1)
    else Pass3(c, TableArray(c, s, t.entries[i].0, t.entries[i].1), t, i + 1)
  }

  /** One array of block tables: one indent level in with
      `indent_sub_tables`, the key pushed, every element under its own
      `[[a.b]]` header, then both undone. */
  function TableArray(c: Config, s: State, k: string, v: Node): (r: State)
    requires IsBlockArrayOfTables(v)
    ensures r.keyPath == s.keyPath && r.indent == s.indent
    decreases v, 6, 0
  {
    var s1 := if c.indentSubTables then s.(indent := s.indent + 1) else s;
    var s2 := s1.(keyPath := s1.keyPath + [k]);
    var s3 := TableArrayElems(c, s2, v, 0);
    var s4 := s3.(keyPath := Pop(s3.keyPath));
    if c.indentSubTables then s4.(indent := s4.indent - 1) else s4
  }

  /** The elements of an array of block tables from element `j`. */
  function TableArrayElems(c: Config, s: State, v: Node, j: nat): (r: State)
    requires IsBlockArrayOfTables(v) && j <= |v.elems|
    ensures r.keyPath == s.keyPath && r.indent == s.indent
    decreases v, 4, |v.elems| - j
  {
    if j == |v.elems| then s
    else
      ArrayOfTablesHoldsTables(v.elems);
      TableArrayElems(c, PrintTable(c, ArrayHeaderText(c, s), v.elems[j]), v, j + 1)
  }

  /** `print()` of the bound node: an inline root table prints inline; a
      block root table is printed one level out, so that its own entries
      and its sub-tables start at the same indent; arrays and scalars print
      as values. The failed-parse dump is not part of this model. */
  function Print(c: Config, s: State, n: Node): State
  {
    match n
    case Table(_, inl) => if inl then Inline.PrintInlineTable(c, s, n) else PrintTable(c, s.(indent := s.indent - 1), n)
    case Array(_) => Inline.PrintArray(c, s, n)
    case _ => Value(c, s, n)
  }

  /** What `print()` writes for each kind of root: an inline table, an
      array or a scalar writes exactly its one-line or multiline value text
      at the current level; a block table begins the lines of its outline
      and leaves the key path as it was and the indent one level out. */
  lemma PrintRoot(c: Config, s: State, n: Node)
    ensures !IsBlockTable(n) ==> Inline.Writes(s, Print(c, s, n), Inline.NestedText(c, s.indent, n))
    ensures !IsBlockTable(n) ==> Print(c, s, n).indent == s.indent && Print(c, s, n).lines == s.lines
    ensures IsBlockTable(n) ==>
              && Print(c, s, n).lines == s.lines + Outline(s.keyPath, n)
              && Print(c, s, n).keyPath == s.keyPath
              && Print(c, s, n).indent == s.indent - 1
  {
    if IsBlockTable(n) {
      PrintTableOutline(c, s.(indent := s.indent - 1), n);
    } else {
      Inline.NestedWritesText(c, s, n);
    }
  }

  /** The `k = v` line of each entry of a root table, with no indent. */
  function RootLines(c: Config, t: Node): (ls: seq<string>)
    requires t.Table?
    ensures |ls| == |t.entries|
  {
    seq(|t.entries|, i requires 0 <= i < |t.entries| =>
      c.keyText(t.entries[i].0) + " = " + Inline.NestedText(c, -1, t.entries[i].1))
  }

  /** A block root table whose entries are all values, printed from a fresh
      line at level 0 (as `attach` leaves the formatter), is its `k = v`
      lines joined by line breaks with no indent, since the root is printed
      one level out. */
  lemma FlatRootText(c: Config, s: State, t: Node)
    requires IsBlockTable(t) && s.indent == 0 && s.naked
    requires forall i :: 0 <= i < |t.entries| ==> PassOf(t.entries[i].1) == 1
    ensures Print(c, s, t).out == s.out + Join(RootLines(c, t), "\n")
  {
    var s1 := s.(indent := -1);
    var p1 := Pass1(c, s1, t, 0);
    RootPass1Text(c, s1, t, 0);
    assert RootLines(c, t)[0..] == RootLines(c, t);
    NoPass2(c, p1, t, 0);
    NoPass3(c, p1, t, 0);
  }

  /** Pass 1 over entries that all belong to it, at level -1. */
  lemma {:induction false} RootPass1Text(c: Config, s: State, t: Node, i: nat)
    requires t.Table? && i <= |t.entries| && s.indent == -1
    requires forall j :: 0 <= j < |t.entries| ==> PassOf(t.entries[j].1) == 1
    ensures Pass1(c, s, t, i).out
              == s.out + (if i < |t.entries| && !s.naked then "\n" else "") + Join(RootLines(c, t)[i..], "\n")
    decreases |t.entries| - i
  {
    if i < |t.entries| {
      var e := KeyValueEntry(c, s, t.entries[i].0, t.entries[i].1);
      RootEntryLine(c, s, t.entries[i].0, t.entries[i].1);
      RootPass1Text(c, e, t, i + 1);
      assert Pass1(c, s, t, i) == Pass1(c, e, t, i + 1);
      JoinStep(s.out, if s.naked then "" else "\n", RootLines(c, t), i, e.out, Pass1(c, e, t, i + 1).out);
    } else {
      assert RootLines(c, t)[i..] == [];
    }
  }

  /** Putting one more line in front of a line-joined tail. */
  lemma JoinStep(before: string, lead: string, ls: seq<string>, i: nat, mid: string, after: string)
    requires i < |ls|
    requires mid == before + (lead + ls[i])
    requires after == mid + (if i + 1 < |ls| then "\n" else "") + Join(ls[i + 1..], "\n")
    ensures after == before + lead + Join(ls[i..], "\n")
  {
    JoinFrom(ls, "\n", i);
    JoinRegroup(before, lead, ls[i], if i + 1 < |ls| then "\n" else "", Join(ls[i + 1..], "\n"));
  }

  /** One `k = v` line at level -1: no indent, and a line break first
      unless at a fresh line. */
  lemma RootEntryLine(c: Config, s: State, k: string, v: Node)
    requires s.indent == -1
    ensures var e := KeyValueEntry(c, s, k, v);
            && e.out == s.out + ((if s.naked then "" else "\n") + (c.keyText(k) + " = " + Inline.NestedText(c, -1, v)))
            && !e.naked && e.indent == -1
  {
    KeyValueEntryText(c, s, k, v);
    assert Pad(c, s.indent) == "";
    LineRegroup(s.out, if s.naked then "" else "\n", Pad(c, s.indent), c.keyText(k), Inline.NestedText(c, -1, v));
  }

  /** Regrouping an unindented `k = v` line after its lead. */
  lemma LineRegroup(before: string, lead: string, pad: string, k: string, v: string)
    requires pad == ""
    ensures before + lead + pad + k + " = " + v == before + (lead + (k + " = " + v))
  {
  }

  /** Pass 2 writes nothing when no entry from `i` on is a block table. */
  lemma {:induction false} NoPass2(c: Config, s: State, t: Node, i: nat)
    requires t.Table? && i <= |t.entries|
    requires forall j :: i <= j < |t.entries| ==> PassOf(t.entries[j].1) != 2
    ensures Pass2(c, s, t, i) == s
    decreases |t.entries| - i
  {
    if i < |t.entries| {
      NoPass2(c, s, t, i + 1);
    }
  }

  /** Pass 3 writes nothing when no entry from `i` on is an array of block
      tables. */
  lemma {:induction false} NoPass3(c: Config, s: State, t: Node, i: nat)
    requires t.Table? && i <= |t.entries|
    requires forall j :: i <= j < |t.entries| ==> PassOf(t.entries[j].1) != 3
    ensures Pass3(c, s, t, i) == s
    decreases |t.entries| - i
  {
    if i < |t.entries| {
      NoPass3(c, s, t, i + 1);
    }
  }

  // ---------------------------------------------------------------------
  // The outline of a block table

  /** The lines a block table at `path` begins, entry by entry within each
      pass: all pass-1 entries, then all pass-2 entries, then all pass-3
      entries, each in the table's order. */
  function Outline(path: seq<string>, t: Node): seq<Line>
    requires t.Table?
    decreases t, 2, 0
  {
    PassLines(path, t, 1, 0) + PassLines(path, t, 2, 0) + PassLines(path, t, 3, 0)
  }

  /** The lines of the entries from `i` on that belong to pass `p`. */
  function PassLines(path: seq<string>, t: Node, p: nat, i: nat): seq<Line>
    requires t.Table? && i <= |t.entries|
    decreases t, 1, |t.entries| - i
  {
    if i == |t.entries| then []
    else (if PassOf(t.entries[i].1) == p then EntryLines(path + [t.entries[i].0], t.entries[i].1) else [])
         + PassLines(path, t, p, i + 1)
  }

  /** The lines of one entry at key path `path`: one `k = v` line; or the
      sub-table's header (unless skipped) and its outline; or, per element
      of an array of tables, a `[[path]]` header and that element's
      outline. */
  function EntryLines(path: seq<string>, v: Node): seq<Line>
    decreases v, 3, 0
  {
    if IsBlockTable(v) then (if SkipsHeader(v) then [] else [TableHeader(path)]) + Outline(path, v)
    else if IsBlockArrayOfTables(v) then ElementLines(path, v, 0)
    else [KeyValue(path)]
  }

  function ElementLines(path: seq<string>, v: Node, j: nat): seq<Line>
    requires IsBlockArrayOfTables(v) && j <= |v.elems|
    decreases v, 2, |v.elems| - j
  {
    if j == |v.elems| then []
    else
      ArrayOfTablesHoldsTables(v.elems);
      [ArrayHeader(path)] + Outline(path, v.elems[j]) + ElementLines(path, v, j + 1)
  }

  lemma Assoc(a: seq<Line>, b: seq<Line>, c: seq<Line>)
    ensures a + b + c == a + (b + c)
  {
  }

  /** The printer begins exactly the outline's lines, in the outline's
      order: every entry is printed in exactly one pass, each pass keeps
      the table's order, and an array of tables gets one header per
      element, each followed by that element's own lines. */
  lemma {:induction false} PrintTableOutline(c: Config, s: State, t: Node)
    requires t.Table?
    ensures PrintTable(c, s, t).lines == s.lines + Outline(s.keyPath, t)
    decreases t, 5, 0
  {
    var s1 := Pass1(c, s, t, 0);
    var s2 := Pass2(c, s1, t, 0);
    Pass1Lines(c, s, t, 0);
    Pass2Lines(c, s1, t, 0);
    Pass3Lines(c, s2, t, 0);
    var l1, l2, l3 := PassLines(s.keyPath, t, 1, 0), PassLines(s.keyPath, t, 2, 0), PassLines(s.keyPath, t, 3, 0);
    Assoc(s.lines, l1, l2);
    assert s.lines + l1 + l2 + l3 == s.lines + (l1 + l2) + l3;
    Assoc(s.lines, l1 + l2, l3);
  }

  lemma {:induction false} Pass1Lines(c: Config, s: State, t: Node, i: nat)
    requires t.Table? && i <= |t.entries|
    ensures Pass1(c, s, t, i).lines == s.lines + PassLines(s.keyPath, t, 1, i)
    decreases |t.entries| - i
  {
    if i < |t.entries| {
      var k, v := t.entries[i].0, t.entries[i].1;
      var rest := PassLines(s.keyPath, t, 1, i + 1);
      if PassOf(v) != 1 {
        Pass1Lines(c, s, t, i + 1);
      } else {
        var s1 := KeyValueEntry(c, s, k, v);
        Pass1Lines(c, s1, t, i + 1);
        Assoc(s.lines, [KeyValue(s.keyPath + [k])], rest);
      }
    }
  }

  lemma {:induction false} Pass2Lines(c: Config, s: State, t: Node, i: nat)
    requires t.Table? && i <= |t.entries|
    ensures Pass2(c, s, t, i).lines == s.lines + PassLines(s.keyPath, t, 2, i)
    decreases t, 3, |t.entries| - i
  {
    if i < |t.entries| {
      var k, v := t.entries[i].0, t.entries[i].1;
      var rest := PassLines(s.keyPath, t, 2, i + 1);
      if PassOf(v) != 2 {
        Pass2Lines(c, s, t, i + 1);
      } else {
        var s1 := SubTable(c, s, k, v);
        SubTableLines(c, s, k, v);
        Pass2Lines(c, s1, t, i + 1);
        Assoc(s.lines, EntryLines(s.keyPath + [k], v), rest);
      }
    }
  }

  lemma {:induction false} SubTableLines(c: Config, s: State, k: string, v: Node)
    requires IsBlockTable(v)
    ensures SubTable(c, s, k, v).lines == s.lines + EntryLines(s.keyPath + [k], v)
    decreases v, 6, 0
  {
    var skip := SkipsHeader(v);
    var s1 := s.(keyPath := s.keyPath + [k]);
    var s2 := if skip then s1 else TableHeaderText(c, s1);
    PrintTableOutline(c, s2, v);
    var head: seq<Line> := if skip then [] else [TableHeader(s.keyPath + [k])];
    assert s2.lines == s.lines + head;
    Assoc(s.lines, head, Outline(s.keyPath + [k], v));
  }

  lemma {:induction false} Pass3Lines(c: Config, s: State, t: Node, i: nat)
    requires t.Table? && i <= |t.entries|
    ensures Pass3(c, s, t, i).lines == s.lines + PassLines(s.keyPath, t, 3, i)
    decreases t, 3, |t.entries| - i
  {
    if i < |t.entries| {
      var k, v := t.entries[i].0, t.entries[i].1;
      var rest := PassLines(s.keyPath, t, 3, i + 1);
      if PassOf(v) != 3 {
        Pass3Lines(c, s, t, i + 1);
      } else {
        var s1 := TableArray(c, s, k, v);
        TableArrayLines(c, s, k, v);
        Pass3Lines(c, s1, t, i + 1);
        Assoc(s.lines, EntryLines(s.keyPath + [k], v), rest);
      }
    }
  }

  lemma {:induction false} TableArrayLines(c: Config, s: State, k: string, v: Node)
    requires IsBlockArrayOfTables(v)
    ensures TableArray(c, s, k, v).lines == s.lines + EntryLines(s.keyPath + [k], v)
    decreases v, 6, 0
  {
    var s1 := if c.indentSubTables then s.(indent := s.indent + 1) else s;
    var s2 := s1.(keyPath := s1.keyPath + [k]);
    TableArrayElemsLines(c, s2, v, 0);
  }

  lemma {:induction false} TableArrayElemsLines(c: Config, s: State, v: Node, j: nat)
    requires IsBlockArrayOfTables(v) && j <= |v.elems|
    ensures TableArrayElems(c, s, v, j).lines == s.lines + ElementLines(s.keyPath, v, j)
    decreases v, 4, |v.elems| - j
  {
    if j < |v.elems| {
      ArrayOfTablesHoldsTables(v.elems);
      var s1 := ArrayHeaderText(c, s);
      var s2 := PrintTable(c, s1, v.elems[j]);
      PrintTableOutline(c, s1, v.elems[j]);
      TableArrayElemsLines(c, s2, v, j + 1);
      var head := [ArrayHeader(s.keyPath)];
      var body := Outline(s.keyPath, v.elems[j]);
      var rest := ElementLines(s.keyPath, v, j + 1);
      Assoc(s.lines, head, body);
      Assoc(s.lines, head + body, rest);
    }
  }
}
