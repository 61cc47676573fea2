/** The inline-width heuristic of `default_formatter`: `count_inline_columns`
    with its early exit at the line-wrap limit, an exact reference that never
    exits early, and `forces_multiline`. */
module Columns {
  import opened Nodes
  import Encoders

  /** `default_formatter::line_wrap_cols`. */
  const LineWrapCols: nat := 120

  /** The number of bytes UTF-8 uses for a character: the source measures
      keys and strings with `length()` on their UTF-8 storage. */
  function Utf8Size(c: char): nat
  {
    if c as int < 0x80 then 1
    else if c as int < 0x800 then 2
    else if c as int < 0x1_0000 then 3
    else 4
  }

  /** The UTF-8 length of a string: one to four bytes per character, and
      exactly one per character for ASCII text. */
  function Utf8Length(s: string): (n: nat)
    ensures |s| <= n <= 4 * |s|
    ensures (forall i :: 0 <= i < |s| ==> s[i] as int < 0x80) ==> n == |s|
  {
    if |s| == 0 then 0 else Utf8Size(s[0]) + Utf8Length(s[1..])
  }

  /** The width of a float is kept abstract apart from its fixed parts:
      `0.0` counts 3, any other value counts 2 for `.0`, 1 more for a minus
      sign, and the `log10`-derived digit estimate carried by the value. */
  function FloatColumns(f: Float): nat
  {
    if f.cls == Finite && f.value == 0.0 then 3
    else 2 + (if (f.cls == Finite && f.value < 0.0) || f.cls == NegInf then 1 else 0) + f.columns
  }

  /** The decimal digit count of a non-zero integer, plus one for a minus
      sign; the `log10` of the source is taken as exact. */
  function IntegerColumns(v: int): nat
  {
    if v == 0 then 1
    else if v < 0 then 1 + |Encoders.Decimal(-v)|
    else |Encoders.Decimal(v)|
  }

  /** `count_inline_columns`: the estimated width of a node printed on one
      line. A non-empty table or array starts at 3 and stops adding entries
      once the running total reaches `LineWrapCols`. */
  function Columns(n: Node): nat
    decreases n, 1, 0
  {
    match n
    case Table(es, _) => if |es| == 0 then 2 else EntryColumns(n, 0, 3)
    case Array(xs) => if |xs| == 0 then 2 else ElemColumns(n, 0, 3)
    case Str(s) => Utf8Length(s) + 2
    case Int(v, _) => IntegerColumns(v)
    case Flt(f, _) => FloatColumns(f)
    case Bool(_) => 5
    case DateNode(_) => 10
    case TimeNode(_) => 10
    case DateTimeNode(_, _, _) => 30
  }

  /** The table loop from entry `i` with running total `weight`. */
  function EntryColumns(t: Node, i: nat, weight: nat): nat
    requires t.Table? && i <= |t.entries|
    decreases t, 0, |t.entries| - i
  {
    if i == |t.entries| then weight
    else
      var w := weight + Utf8Length(t.entries[i].0) + Columns(t.entries[i].1) + 2;
      if w >= LineWrapCols then w else EntryColumns(t, i + 1, w)
  }

  /** The array loop from element `i` with running total `weight`. */
  function ElemColumns(a: Node, i: nat, weight: nat): nat
    requires a.Array? && i <= |a.elems|
    decreases a, 0, |a.elems| - i
  {
    if i == |a.elems| then weight
    else
      var w := weight + Columns(a.elems[i]) + 2;
      if w >= LineWrapCols then w else ElemColumns(a, i + 1, w)
  }

  /** The same sums with no early exit. */
  function ExactColumns(n: Node): nat
    decreases n, 1, 0
  {
    match n
    case Table(es, _) => if |es| == 0 then 2 else ExactEntryColumns(n, 0, 3)
    case Array(xs) => if |xs| == 0 then 2 else ExactElemColumns(n, 0, 3)
    case _ => Columns(n)
  }

  function ExactEntryColumns(t: Node, i: nat, weight: nat): nat
    requires t.Table? && i <= |t.entries|
    decreases t, 0, |t.entries| - i
  {
    if i == |t.entries| then weight
    else ExactEntryColumns(t, i + 1, weight + Utf8Length(t.entries[i].0) + ExactColumns(t.entries[i].1) + 2)
  }

  function ExactElemColumns(a: Node, i: nat, weight: nat): nat
    requires a.Array? && i <= |a.elems|
    decreases a, 0, |a.elems| - i
  {
    if i == |a.elems| then weight
    else ExactElemColumns(a, i + 1, weight + ExactColumns(a.elems[i]) + 2)
  }

  /** What the early exit preserves: the estimate never exceeds the exact
      width, equals it below the limit, and reaches the limit exactly when
      the exact width does. */
  predicate Agrees(estimate: nat, exact: nat)
  {
    && estimate <= exact
    && (exact < LineWrapCols ==> estimate == exact)
    && (estimate >= LineWrapCols <==> exact >= LineWrapCols)
  }

  lemma {:induction false} ExactEntryGrows(t: Node, i: nat, weight: nat)
    requires t.Table? && i <= |t.entries|
    ensures ExactEntryColumns(t, i, weight) >= weight
    decreases |t.entries| - i
  {
    if i < |t.entries| {
      ExactEntryGrows(t, i + 1, weight + Utf8Length(t.entries[i].0) + ExactColumns(t.entries[i].1) + 2);
    }
  }

  lemma {:induction false} ExactElemGrows(a: Node, i: nat, weight: nat)
    requires a.Array? && i <= |a.elems|
    ensures ExactElemColumns(a, i, weight) >= weight
    decreases |a.elems| - i
  {
    if i < |a.elems| {
      ExactElemGrows(a, i + 1, weight + ExactColumns(a.elems[i]) + 2);
    }
  }

  /** The early exit never changes the answer to "does it reach the limit",
      and below the limit it changes nothing at all. */
  lemma {:induction false} EarlyExitAgrees(n: Node)
    ensures Agrees(Columns(n), ExactColumns(n))
    decreases n, 1, 0
  {
    match n
    case Table(es, _) =>
      if |es| > 0 {
        EntryAgrees(n, 0, 3);
      }
    case Array(xs) =>
      if |xs| > 0 {
        ElemAgrees(n, 0, 3);
      }
    case _ =>
  }

  lemma {:induction false} EntryAgrees(t: Node, i: nat, weight: nat)
    requires t.Table? && i <= |t.entries|
    ensures Agrees(EntryColumns(t, i, weight), ExactEntryColumns(t, i, weight))
    decreases t, 0, |t.entries| - i
  {
    if i < |t.entries| {
      var child := t.entries[i].1;
      EarlyExitAgrees(child);
      var w := weight + Utf8Length(t.entries[i].0) + Columns(child) + 2;
      var x := weight + Utf8Length(t.entries[i].0) + ExactColumns(child) + 2;
      ExactEntryGrows(t, i + 1, x);
      if w < LineWrapCols {
        assert w == x;
        EntryAgrees(t, i + 1, w);
      }
    }
  }

  lemma {:induction false} ElemAgrees(a: Node, i: nat, weight: nat)
    requires a.Array? && i <= |a.elems|
    ensures Agrees(ElemColumns(a, i, weight), ExactElemColumns(a, i, weight))
    decreases a, 0, |a.elems| - i
  {
    if i < |a.elems| {
      var child := a.elems[i];
      EarlyExitAgrees(child);
      var w := weight + Columns(child) + 2;
      var x := weight + ExactColumns(child) + 2;
      ExactElemGrows(a, i + 1, x);
      if w < LineWrapCols {
        assert w == x;
        ElemAgrees(a, i + 1, w);
      }
    }
  }

  /** `forces_multiline(node, bias)`. */
  predicate ForcesMultiline(n: Node, bias: nat)
  {
    Columns(n) + bias >= LineWrapCols
  }

  /** The multiline decision is the exact width plus the bias reaching the
      limit, so the early exit never changes it; and a larger bias can only
      turn a single-line node into a multiline one. */
  lemma ForcesMultilineExact(n: Node, bias: nat, bias': nat)
    requires bias <= bias'
    ensures ForcesMultiline(n, bias) <==> ExactColumns(n) + bias >= LineWrapCols
    ensures ForcesMultiline(n, bias) ==> ForcesMultiline(n, bias')
  {
    EarlyExitAgrees(n);
  }

  /** Each child of a table or array is strictly narrower than its parent,
      so a parent that fits on a line has children that fit too. */
  lemma {:induction false} ChildNarrower(n: Node, k: nat)
    requires n.Table? ==> k < |n.entries|
    requires n.Array? ==> k < |n.elems|
    requires n.Table? || n.Array?
    ensures n.Table? ==> ExactColumns(n.entries[k].1) + 5 <= ExactColumns(n)
    ensures n.Array? ==> ExactColumns(n.elems[k]) + 5 <= ExactColumns(n)
  {
    if n.Table? {
      EntryContains(n, 0, 3, k);
    } else {
      ElemContains(n, 0, 3, k);
    }
  }

  lemma {:induction false} EntryContains(t: Node, i: nat, weight: nat, k: nat)
    requires t.Table? && i <= k < |t.entries|
    ensures ExactEntryColumns(t, i, weight) >= weight + ExactColumns(t.entries[k].1) + 2
    decreases |t.entries| - i
  {
    var x := weight + Utf8Length(t.entries[i].0) + ExactColumns(t.entries[i].1) + 2;
    if i == k {
      ExactEntryGrows(t, i + 1, x);
    } else {
      EntryContains(t, i + 1, x, k);
    }
  }

  lemma {:induction false} ElemContains(a: Node, i: nat, weight: nat, k: nat)
    requires a.Array? && i <= k < |a.elems|
    ensures ExactElemColumns(a, i, weight) >= weight + ExactColumns(a.elems[k]) + 2
    decreases |a.elems| - i
  {
    var x := weight + ExactColumns(a.elems[i]) + 2;
    if i == k {
      ExactElemGrows(a, i + 1, x);
    } else {
      ElemContains(a, i + 1, x, k);
    }
  }

  /** The fixed widths: 2 for an empty table or array, length plus two for
      a string, 5 for a boolean, 10 for a date or time, 30 for a date-time,
      and for an integer exactly the length of its decimal text. */
  lemma FixedWidths(n: Node)
    ensures (n.Table? && |n.entries| == 0) || (n.Array? && |n.elems| == 0) ==> Columns(n) == 2
    ensures n.Str? ==> Columns(n) == Utf8Length(n.text) + 2
    ensures n.Bool? ==> Columns(n) == 5
    ensures n.DateNode? || n.TimeNode? ==> Columns(n) == 10
    ensures n.DateTimeNode? ==> Columns(n) == 30
    ensures n.Int? ==> Columns(n) == |Encoders.IntegerText(n.value, 0)|
  {
  }
}
