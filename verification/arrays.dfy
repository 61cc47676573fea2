/** `toml::array` queries: homogeneity (with and without reporting the first
    mismatching element), recursive leaf counting, element-wise equality and
    deep copy. The in-place flatten lives in module `Flatten`. */
module Arrays {
  import opened Options
  import opened Nodes

  /** The type every element is compared against: the requested one, or the
      first element's when the request is `NoneType`. */
  function ExpectedType(elems: seq<Node>, ntype: NodeType): NodeType
    requires |elems| > 0
  {
    if ntype == NoneType then elems[0].Type() else ntype
  }

  /** What homogeneity means: a non-empty array whose elements all carry the
      expected type. */
  predicate Homogeneous(elems: seq<Node>, ntype: NodeType)
  {
    |elems| > 0 && forall i :: 0 <= i < |elems| ==> elems[i].Type() == ExpectedType(elems, ntype)
  }

  /** `array::is_homogeneous(node_type)`. */
  method IsHomogeneous(elems: seq<Node>, ntype: NodeType) returns (r: bool)
    ensures |elems| == 0 ==> !r
    ensures r <==> Homogeneous(elems, ntype)
  {
    if |elems| == 0 {
      return false;
    }
    var t := ntype;
    if t == NoneType {
      t := elems[0].Type();
    }
    var i := 0;
    while i < |elems|
      invariant 0 <= i <= |elems|
      invariant forall j :: 0 <= j < i ==> elems[j].Type() == t
    {
      if elems[i].Type() != t {
        return false;
      }
      i := i + 1;
    }
    return true;
  }

  /** `array_is_homogeneous(elements, ntype, first_nonmatch)`: the out-pointer
      is modelled as the index of the element it points at. It is cleared on
      an empty array, set to the first mismatching element on failure, and
      left as the caller passed it on success. */
  method IsHomogeneousReporting(elems: seq<Node>, ntype: NodeType, firstNonmatch: Option<nat>)
    returns (r: bool, nonmatch: Option<nat>)
    ensures |elems| == 0 ==> !r && nonmatch == None
    ensures r <==> Homogeneous(elems, ntype)
    ensures r ==> nonmatch == firstNonmatch
    ensures !r && |elems| > 0 ==>
              && nonmatch.Some?
              && nonmatch.value < |elems|
              && elems[nonmatch.value].Type() != ExpectedType(elems, ntype)
              && forall j :: 0 <= j < nonmatch.value ==> elems[j].Type() == ExpectedType(elems, ntype)
  {
    if |elems| == 0 {
      return false, None;
    }
    var t := ntype;
    if t == NoneType {
      t := elems[0].Type();
    }
    var i := 0;
    while i < |elems|
      invariant 0 <= i <= |elems|
      invariant forall j :: 0 <= j < i ==> elems[j].Type() == t
    {
      if elems[i].Type() != t {
        return false, Some(i);
      }
      i := i + 1;
    }
    return true, firstNonmatch;
  }

  /** `array::is_array_of_tables`: a homogeneous array of tables. */
  predicate IsArrayOfTables(elems: seq<Node>)
  {
    Homogeneous(elems, TableType)
  }

  // ---------------------------------------------------------------------
  // Leaves

  /** The leaves of a sequence of nodes: every non-array node, nested arrays
      replaced by their own leaves, depth-first and left to right. */
  function Leaves(elems: seq<Node>): seq<Node>
    decreases elems
  {
    if |elems| == 0 then []
    else (if elems[0].Array? then Leaves(elems[0].elems) else [elems[0]]) + Leaves(elems[1..])
  }

  /** `array::total_leaf_count`: one per non-array element plus the leaf
      count of every nested array; it is the length the array has once
      flattened. */
  method TotalLeafCount(elems: seq<Node>) returns (leaves: nat)
    ensures leaves == |Leaves(elems)|
    decreases elems
  {
    leaves := 0;
    var i := 0;
    while i < |elems|
      invariant 0 <= i <= |elems|
      invariant leaves == |Leaves(elems[..i])|
    {
      LeavesAppend(elems[..i], [elems[i]]);
      assert elems[..i + 1] == elems[..i] + [elems[i]];
      if elems[i].Array? {
        var sub := TotalLeafCount(elems[i].elems);
        leaves := leaves + sub;
      } else {
        leaves := leaves + 1;
      }
      i := i + 1;
    }
    assert elems[..|elems|] == elems;
  }

  /** The leaves of one node. */
  lemma {:induction false} LeavesSingle(n: Node)
    ensures Leaves([n]) == if n.Array? then Leaves(n.elems) else [n]
  {
    assert [n][1..] == [];
  }

  /** Flattening distributes over concatenation. */
  lemma {:induction false} LeavesAppend(a: seq<Node>, b: seq<Node>)
    ensures Leaves(a + b) == Leaves(a) + Leaves(b)
    decreases a
  {
    if |a| == 0 {
      assert a + b == b;
    } else {
      assert (a + b)[0] == a[0];
      assert (a + b)[1..] == a[1..] + b;
      LeavesAppend(a[1..], b);
      var head := if a[0].Array? then Leaves(a[0].elems) else [a[0]];
      NodesAssoc(head, Leaves(a[1..]), Leaves(b));
    }
  }

  lemma NodesAssoc(x: seq<Node>, y: seq<Node>, z: seq<Node>)
    ensures x + (y + z) == x + y + z
  {
  }

  /** No leaf is an array. */
  lemma {:induction false} LeavesAreNotArrays(a: seq<Node>)
    ensures forall i :: 0 <= i < |Leaves(a)| ==> !Leaves(a)[i].Array?
    decreases a
  {
    if |a| > 0 {
      if a[0].Array? {
        LeavesAreNotArrays(a[0].elems);
      }
      LeavesAreNotArrays(a[1..]);
    }
  }

  /** A sequence without nested arrays is its own list of leaves. */
  lemma {:induction false} LeavesOfFlat(a: seq<Node>)
    requires forall i :: 0 <= i < |a| ==> !a[i].Array?
    ensures Leaves(a) == a
    decreases a
  {
    if |a| > 0 {
      LeavesOfFlat(a[1..]);
      assert a == [a[0]] + a[1..];
    }
  }

  /** Taking the leaves twice gives the leaves: flatten is idempotent. */
  lemma LeavesIdempotent(a: seq<Node>)
    ensures Leaves(Leaves(a)) == Leaves(a)
  {
    LeavesAreNotArrays(a);
    LeavesOfFlat(Leaves(a));
  }

  // ---------------------------------------------------------------------
  // Equality and copying

  /** `value<double>::operator==`: two NaNs compare equal to each other and
      to nothing else, infinities equal themselves, and finite values
      compare numerically (so `0.0 == -0.0`). */
  predicate FloatEqual(x: Float, y: Float)
  {
    x.cls == y.cls && (x.cls == Finite ==> x.value == y.value)
  }

  /** `==` between two nodes: the same type and equal payloads. Tables compare
      key by key in iteration order; value nodes compare their values and
      ignore their format flags. */
  predicate NodeEqual(x: Node, y: Node)
    decreases x
  {
    match x
    case Table(es, _) =>
      && y.Table?
      && |es| == |y.entries|
      && forall i :: 0 <= i < |es| ==> es[i].0 == y.entries[i].0 && NodeEqual(es[i].1, y.entries[i].1)
    case Array(xs) =>
      && y.Array?
      && |xs| == |y.elems|
      && forall i :: 0 <= i < |xs| ==> NodeEqual(xs[i], y.elems[i])
    case Str(s) => y.Str? && s == y.text
    case Int(v, _) => y.Int? && v == y.value
    case Flt(f, _) => y.Flt? && FloatEqual(f, y.fp)
    case Bool(b) => y.Bool? && b == y.truth
    case DateNode(d) => y.DateNode? && d == y.date
    case TimeNode(t) => y.TimeNode? && t == y.time
    case DateTimeNode(d, t, o) => y.DateTimeNode? && d == y.date && t == y.time && o == y.offset
  }

  /** Equal nodes have equal types. */
  lemma NodeEqualSameType(x: Node, y: Node)
    requires NodeEqual(x, y)
    ensures x.Type() == y.Type()
  {
  }

  /** Position-by-position equality of two element sequences. */
  predicate ElemsEqual(xs: seq<Node>, ys: seq<Node>)
  {
    |xs| == |ys| && forall i :: 0 <= i < |xs| ==> NodeEqual(xs[i], ys[i])
  }

  /** Node equality is reflexive. */
  lemma {:induction false} NodeEqualReflexive(n: Node)
    ensures NodeEqual(n, n)
    decreases n
  {
    match n
    case Table(es, _) =>
      forall i | 0 <= i < |es| {
        NodeEqualReflexive(es[i].1);
      }
    case Array(xs) =>
      forall i | 0 <= i < |xs| {
        NodeEqualReflexive(xs[i]);
      }
    case _ =>
  }

  /** Every array is `equal` to itself, element by element. */
  lemma ElemsEqualReflexive(xs: seq<Node>)
    ensures ElemsEqual(xs, xs)
  {
    forall i | 0 <= i < |xs| {
      NodeEqualReflexive(xs[i]);
    }
  }

  /** Node equality is symmetric. */
  lemma {:induction false} NodeEqualSymmetric(x: Node, y: Node)
    requires NodeEqual(x, y)
    ensures NodeEqual(y, x)
    decreases x
  {
    match x
    case Table(es, _) =>
      forall i | 0 <= i < |es| {
        NodeEqualSymmetric(es[i].1, y.entries[i].1);
      }
    case Array(xs) =>
      forall i | 0 <= i < |xs| {
        NodeEqualSymmetric(xs[i], y.elems[i]);
      }
    case _ =>
  }

  /** `array::equal`: `aliased` says the two operands are the same object,
      which the source answers by pointer identity before looking at any
      element. */
  method Equal(lhs: seq<Node>, rhs: seq<Node>, aliased: bool) returns (r: bool)
    requires aliased ==> lhs == rhs
    ensures r <==> aliased || ElemsEqual(lhs, rhs)
  {
    if aliased {
      return true;
    }
    if |lhs| != |rhs| {
      return false;
    }
    var i := 0;
    while i < |lhs|
      invariant 0 <= i <= |lhs|
      invariant forall j :: 0 <= j < i ==> NodeEqual(lhs[j], rhs[j])
    {
      if lhs[i].Type() != rhs[i].Type() {
        if NodeEqual(lhs[i], rhs[i]) {
          NodeEqualSameType(lhs[i], rhs[i]);
        }
        return false;
      }
      if !NodeEqual(lhs[i], rhs[i]) {
        return false;
      }
      i := i + 1;
    }
    return true;
  }

  /** `impl::make_node` applied to an existing node: a recursive deep copy,
      which under value semantics reproduces the node exactly. */
  function DeepCopy(n: Node): (r: Node)
    ensures r == n
    decreases n
  {
    match n
    case Table(es, inl) =>
      var copies := seq(|es|, i requires 0 <= i < |es| => (es[i].0, DeepCopy(es[i].1)));
      assert copies == es;
      Table(copies, inl)
    case Array(xs) =>
      var ys := seq(|xs|, i requires 0 <= i < |xs| => DeepCopy(xs[i]));
      assert ys == xs;
      Array(ys)
    case _ => n
  }

  /** The copy constructor: every element deep-copied in order. The copy is
      `equal` to its source. */
  method CopyArray(src: seq<Node>) returns (r: seq<Node>)
    ensures r == src
    ensures ElemsEqual(r, src) && ElemsEqual(src, r)
  {
    r := [];
    var i := 0;
    while i < |src|
      invariant 0 <= i <= |src|
      invariant r == src[..i]
    {
      r := r + [DeepCopy(src[i])];
      i := i + 1;
    }
    assert src[..|src|] == src;
    ElemsEqualReflexive(src);
  }

  /** Copy assignment: replaces the elements with copies of `rhs`, and is a
      no-op when `rhs` is the array itself. */
  method Assign(lhs: seq<Node>, rhs: seq<Node>, aliased: bool) returns (r: seq<Node>)
    requires aliased ==> lhs == rhs
    ensures r == rhs
    ensures aliased ==> r == lhs
    ensures ElemsEqual(r, rhs)
  {
    if aliased {
      ElemsEqualReflexive(lhs);
      return lhs;
    }
    r := CopyArray(rhs);
  }
}
