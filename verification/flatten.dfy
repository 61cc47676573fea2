/** `array::flatten` and its helpers, modelled over the array's storage: a
    sequence of owning pointers, where `None` is a pointer that `resize`
    default-constructed or that has been moved from. */
module Flatten {
  import opened Options
  import opened Nodes
  import opened Arrays

  /** The storage holding exactly the given nodes. */
  function Wrap(s: seq<Node>): (r: seq<Option<Node>>)
    ensures |r| == |s|
    ensures forall i :: 0 <= i < |s| ==> r[i] == Some(s[i])
  {
    seq(|s|, i requires 0 <= i < |s| => Some(s[i]))
  }

  /** Storage read back as nodes; every slot must be occupied. */
  function Unwrap(s: seq<Option<Node>>): (r: seq<Node>)
    requires forall i :: 0 <= i < |s| ==> s[i].Some?
    ensures Wrap(r) == s
  {
    seq(|s|, i requires 0 <= i < |s| => s[i].value)
  }

  lemma WrapAppend(a: seq<Node>, b: seq<Node>)
    ensures Wrap(a + b) == Wrap(a) + Wrap(b)
  {
  }

  lemma WrapInjective(a: seq<Node>, b: seq<Node>)
    requires Wrap(a) == Wrap(b)
    ensures a == b
  {
    assert |a| == |b|;
    forall i | 0 <= i < |a|
      ensures a[i] == b[i]
    {
      assert Wrap(a)[i] == Wrap(b)[i];
    }
  }

  /** `array::preinsertion_resize(idx, count)`: grows the storage by `count`
      slots and shifts the elements at `idx..` right by `count`, moving them
      back to front so that no element is overwritten before it is read.
      The `count` slots at `idx` are left empty. */
  method PreinsertionResize<T>(s: seq<Option<T>>, idx: nat, count: nat) returns (r: seq<Option<T>>)
    requires idx <= |s|
    requires count >= 1
    ensures |r| == |s| + count
    ensures r[..idx] == s[..idx]
    ensures r[idx + count..] == s[idx..]
    ensures forall k :: idx <= k < idx + count ==> r[k] == None
  {
    var oldSize := |s|;
    var newSize := oldSize + count;
    r := s + seq(count, _ => None);
    if idx != oldSize {
      var left := oldSize;
      var right: int := newSize - 1;
      while left > idx
        invariant idx <= left <= oldSize
        invariant right == left + count - 1
        invariant |r| == newSize
        invariant forall k :: 0 <= k < left ==> r[k] == s[k]
        invariant forall k :: left <= k <= right ==> r[k] == None
        invariant forall k :: right < k < newSize ==> r[k] == s[k - count]
      {
        left := left - 1;
        r := r[right := r[left]];
        r := r[left := None];
        right := right - 1;
      }
    }
  }

  /** `array::flatten_child(child, dest_index)`: writes the leaves of `child`
      into the storage starting at `dest`, descending into non-empty nested
      arrays, and returns the index after the last slot written. */
  method FlattenChild(storage: seq<Option<Node>>, child: seq<Node>, dest: nat)
    returns (r: seq<Option<Node>>, next: nat)
    requires dest + |Leaves(child)| <= |storage|
    ensures next == dest + |Leaves(child)|
    ensures |r| == |storage|
    ensures r[..dest] == storage[..dest]
    ensures r[dest..next] == Wrap(Leaves(child))
    ensures r[next..] == storage[next..]
    decreases child, 1
  {
    r, next := storage, dest;
    var i := 0;
    while i < |child|
      invariant 0 <= i <= |child|
      invariant next == dest + |Leaves(child[..i])|
      invariant |r| == |storage|
      invariant next <= |r|
      invariant r[..dest] == storage[..dest]
      invariant r[dest..next] == Wrap(Leaves(child[..i]))
      invariant r[next..] == storage[next..]
    {
      r, next := FlattenChildStep(storage, child, dest, i, r, next);
      i := i + 1;
    }
    assert child[..|child|] == child;
  }

  /** Leaves of the first `i + 1` children, and a bound from the whole. */
  lemma ChildPrefixStep(child: seq<Node>, i: nat)
    requires i < |child|
    ensures Leaves(child[..i + 1]) == Leaves(child[..i]) + Leaves([child[i]])
    ensures Leaves([child[i]]) == if child[i].Array? then Leaves(child[i].elems) else [child[i]]
    ensures |Leaves(child[..i + 1])| <= |Leaves(child)|
  {
    assert child[..i + 1] == child[..i] + [child[i]];
    LeavesAppend(child[..i], [child[i]]);
    LeavesSingle(child[i]);
    assert child == child[..i + 1] + child[i + 1..];
    LeavesAppend(child[..i + 1], child[i + 1..]);
  }

  /** A run of written slots grows by the slots written after it. */
  lemma ExtendRun(before: seq<Option<Node>>, r: seq<Option<Node>>, dest: nat, from: nat, next: nat, done: seq<Node>, more: seq<Node>)
    requires dest <= from <= next <= |r| == |before|
    requires before[dest..from] == Wrap(done)
    requires r[..from] == before[..from]
    requires r[from..next] == Wrap(more)
    ensures r[dest..next] == Wrap(done + more)
  {
    assert r[dest..next] == r[dest..from] + r[from..next];
    assert r[dest..from] == before[dest..from];
    WrapAppend(done, more);
  }

  /** One iteration of `flatten_child`'s loop: child `i` is written at
      `next`, a leaf directly and a non-empty nested array recursively. */
  method FlattenChildStep(ghost storage: seq<Option<Node>>, child: seq<Node>, dest: nat, i: nat,
                          cur: seq<Option<Node>>, from: nat)
    returns (r: seq<Option<Node>>, next: nat)
    requires i < |child|
    requires dest + |Leaves(child)| <= |storage|
    requires from == dest + |Leaves(child[..i])|
    requires |cur| == |storage| && from <= |cur|
    requires cur[..dest] == storage[..dest]
    requires cur[dest..from] == Wrap(Leaves(child[..i]))
    requires cur[from..] == storage[from..]
    ensures next == dest + |Leaves(child[..i + 1])|
    ensures |r| == |storage| && next <= |r|
    ensures r[..dest] == storage[..dest]
    ensures r[dest..next] == Wrap(Leaves(child[..i + 1]))
    ensures r[next..] == storage[next..]
    decreases child, 0
  {
    ChildPrefixStep(child, i);
    if child[i].Array? {
      if |child[i].elems| > 0 {
        r, next := FlattenChild(cur, child[i].elems, from);
      } else {
        r, next := cur, from;
        assert Leaves(child[i].elems) == [];
      }
    } else {
      r, next := cur[from := Some(child[i])], from + 1;
      LeafSlot(cur, from, child[i]);
    }
    ExtendRun(cur, r, dest, from, next, Leaves(child[..i]), Leaves([child[i]]));
    FrameRuns(storage, cur, r, dest, from, next);
  }

  /** Writing one leaf into slot `at` changes that slot only. */
  lemma LeafSlot(cur: seq<Option<Node>>, at: nat, x: Node)
    requires at < |cur|
    ensures cur[at := Some(x)][..at] == cur[..at]
    ensures cur[at := Some(x)][at..at + 1] == Wrap([x])
    ensures cur[at := Some(x)][at + 1..] == cur[at + 1..]
  {
  }

  /** The slots outside `from..next` keep what the storage held before the
      loop began. */
  lemma FrameRuns(storage: seq<Option<Node>>, cur: seq<Option<Node>>, r: seq<Option<Node>>, dest: nat, from: nat, next: nat)
    requires dest <= from <= next <= |r| && |r| == |cur| == |storage|
    requires cur[..dest] == storage[..dest] && cur[from..] == storage[from..]
    requires r[..from] == cur[..from] && r[next..] == cur[next..]
    ensures r[..dest] == storage[..dest]
    ensures r[next..] == storage[next..]
  {
    assert r[..dest] == r[..from][..dest];
    assert cur[..dest] == cur[..from][..dest];
    assert cur[next..] == cur[from..][next - from..];
    assert storage[next..] == storage[from..][next - from..];
  }

  /** The array with every nested array that has no leaves removed. */
  function Prune(a: seq<Node>): seq<Node>
  {
    if |a| == 0 then []
    else (if a[0].Array? && |Leaves(a[0].elems)| == 0 then [] else [a[0]]) + Prune(a[1..])
  }

  /** Pruning keeps the leaves. */
  lemma {:induction false} PruneKeepsLeaves(a: seq<Node>)
    ensures Leaves(Prune(a)) == Leaves(a)
  {
    if |a| > 0 {
      PruneKeepsLeaves(a[1..]);
      var head := if a[0].Array? && |Leaves(a[0].elems)| == 0 then [] else [a[0]];
      LeavesAppend(head, Prune(a[1..]));
      if head != [] {
        LeavesSingle(a[0]);
      }
    }
  }

  /** Every nested array that survives pruning has at least one leaf. */
  lemma {:induction false} PruneLeavesNonEmptyArrays(a: seq<Node>)
    ensures forall k :: 0 <= k < |Prune(a)| && Prune(a)[k].Array? ==> |Leaves(Prune(a)[k].elems)| > 0
  {
    if |a| > 0 {
      PruneLeavesNonEmptyArrays(a[1..]);
    }
  }

  /** Some element at index `i` or later is a nested array. */
  predicate HasArrayFrom(e: seq<Node>, i: nat)
  {
    exists k :: i <= k < |e| && e[k].Array?
  }

  lemma HasArrayFromCons(e: seq<Node>, i: nat)
    requires i < |e|
    ensures HasArrayFrom(e, i) <==> e[i].Array? || HasArrayFrom(e, i + 1)
  {
    if HasArrayFrom(e, i) && !e[i].Array? {
      var k :| i <= k < |e| && e[k].Array?;
      assert k != i;
    }
  }

  lemma HasArrayFromErase(e: seq<Node>, i: nat)
    requires i < |e|
    ensures HasArrayFrom(e[..i] + e[i + 1..], i) <==> HasArrayFrom(e, i + 1)
  {
    var f := e[..i] + e[i + 1..];
    assert forall k :: i <= k < |f| ==> f[k] == e[k + 1];
    if HasArrayFrom(e, i + 1) {
      var k :| i + 1 <= k < |e| && e[k].Array?;
      assert f[k - 1].Array?;
    }
  }

  /** Peeling element `i` off the pruned and flattened suffixes. */
  lemma SuffixStep(a: seq<Node>, i: nat)
    requires i < |a|
    ensures Prune(a[i..]) == (if a[i].Array? && |Leaves(a[i].elems)| == 0 then [] else [a[i]]) + Prune(a[i + 1..])
    ensures |Leaves(a[i..])| == (if a[i].Array? then |Leaves(a[i].elems)| else 1) + |Leaves(a[i + 1..])|
    ensures a[..i + 1] == a[..i] + [a[i]]
  {
    assert a[i..][1..] == a[i + 1..];
  }

  /** One iteration of the first pass, at index `i`. */
  method FirstPassStep(ghost a: seq<Node>, e: seq<Node>, remaining: int, requiresFlattening: bool, i: nat)
    returns (e': seq<Node>, remaining': int, requiresFlattening': bool)
    requires i < |a|
    requires e == a[..i + 1] + Prune(a[i + 1..])
    requires remaining == i + 1 + |Leaves(a[i + 1..])|
    requires requiresFlattening <==> HasArrayFrom(e, i + 1)
    ensures e' == a[..i] + Prune(a[i..])
    ensures remaining' == i + |Leaves(a[i..])|
    ensures requiresFlattening' <==> HasArrayFrom(e', i)
  {
    SuffixStep(a, i);
    KeepOrErase(a, e, i);
    HasArrayFromCons(e, i);
    e', remaining', requiresFlattening' := e, remaining, requiresFlattening;
    if e[i].Array? {
      remaining' := remaining' - 1;
      var leafCount := TotalLeafCount(e[i].elems);
      if leafCount > 0 {
        requiresFlattening' := true;
        remaining' := remaining' + leafCount;
      } else {
        e' := e[..i] + e[i + 1..];
        HasArrayFromErase(e, i);
      }
    }
  }

  /** The working array at step `i`, kept whole or with element `i`
      erased, in terms of the original array. */
  lemma KeepOrErase(a: seq<Node>, e: seq<Node>, i: nat)
    requires i < |a|
    requires e == a[..i + 1] + Prune(a[i + 1..])
    ensures i < |e| && e[i] == a[i]
    ensures e == a[..i] + ([a[i]] + Prune(a[i + 1..]))
    ensures e[..i] + e[i + 1..] == a[..i] + Prune(a[i + 1..])
  {
    assert a[..i + 1] == a[..i] + [a[i]];
    assert e[..i] == a[..i];
    assert e[i + 1..] == Prune(a[i + 1..]);
  }

  /** The first pass of `flatten`: walking from the back, it erases every
      nested array with no leaves, computes the size after flattening and
      notes whether any nested array is left. */
  method FirstPass(a: seq<Node>) returns (e: seq<Node>, size: nat, requiresFlattening: bool)
    ensures e == Prune(a)
    ensures size == |Leaves(a)|
    ensures requiresFlattening <==> exists k :: 0 <= k < |e| && e[k].Array?
  {
    e := a;
    var remaining: int := |a|;
    requiresFlattening := false;
    var i := |a|;
    assert a[|a|..] == [];
    assert a[..|a|] == a;
    while i > 0
      invariant 0 <= i <= |a|
      invariant e == a[..i] + Prune(a[i..])
      invariant remaining == i + |Leaves(a[i..])|
      invariant requiresFlattening <==> HasArrayFrom(e, i)
    {
      i := i - 1;
      e, remaining, requiresFlattening := FirstPassStep(a, e, remaining, requiresFlattening, i);
    }
    assert a[0..] == a;
    size := remaining;
  }

  /** Storage made of three consecutive runs of occupied slots. */
  lemma Assemble(r: seq<Option<Node>>, p: seq<Node>, l: seq<Node>, t: seq<Node>)
    requires |r| == |p| + |l| + |t|
    requires r[..|p|] == Wrap(p)
    requires r[|p|..|p| + |l|] == Wrap(l)
    requires r[|p| + |l|..] == Wrap(t)
    ensures r == Wrap(p + l + t)
  {
    forall k | 0 <= k < |r|
      ensures r[k] == Wrap(p + l + t)[k]
    {
      if k < |p| {
        assert r[k] == r[..|p|][k];
      } else if k < |p| + |l| {
        assert r[k] == r[|p|..|p| + |l|][k - |p|];
      } else {
        assert r[k] == r[|p| + |l|..][k - |p| - |l|];
      }
    }
  }

  /** Moving the array out of slot `|prefix|` leaves the runs around it intact. */
  lemma VacateSlot(storage: seq<Option<Node>>, prefix: seq<Node>, arr: Node, rest: seq<Node>)
    requires storage == Wrap(prefix + [arr] + rest)
    ensures |storage[|prefix| := None]| == |prefix| + 1 + |rest|
    ensures storage[|prefix| := None][..|prefix|] == Wrap(prefix)
    ensures storage[|prefix| := None][|prefix| + 1..] == Wrap(rest)
  {
    var r := storage[|prefix| := None];
    var i := |prefix|;
    forall k | 0 <= k < i
      ensures r[..i][k] == Wrap(prefix)[k]
    {
      assert storage[k] == Wrap(prefix + [arr] + rest)[k];
    }
    forall k | 0 <= k < |rest|
      ensures r[i + 1..][k] == Wrap(rest)[k]
    {
      assert storage[i + 1 + k] == Wrap(prefix + [arr] + rest)[i + 1 + k];
    }
  }

  /** Opening a gap after slot `i` keeps the runs before and after it. */
  lemma GapKeepsRuns(before: seq<Option<Node>>, r: seq<Option<Node>>, i: nat, count: nat, prefix: seq<Node>, rest: seq<Node>)
    requires i == |prefix| && i + 1 <= |before|
    requires before[..i] == Wrap(prefix) && before[i + 1..] == Wrap(rest)
    requires |r| == |before| + count
    requires r[..i + 1] == before[..i + 1] && r[i + 1 + count..] == before[i + 1..]
    ensures r[..i] == Wrap(prefix)
    ensures r[i + 1 + count..] == Wrap(rest)
  {
    assert r[..i] == r[..i + 1][..i];
    assert before[..i] == before[..i + 1][..i];
  }

  /** Moving one nested array out of its slot and writing its leaves in its
      place, after opening `leaf count - 1` slots behind it: the storage
      ends up holding the leaves where the array was. */
  method RelocateOne(storage: seq<Option<Node>>, ghost prefix: seq<Node>, arr: Node, ghost rest: seq<Node>, i: nat)
    returns (r: seq<Option<Node>>, next: nat)
    requires arr.Array? && |Leaves(arr.elems)| > 0
    requires i == |prefix|
    requires storage == Wrap(prefix + [arr] + rest)
    ensures next == i + |Leaves(arr.elems)|
    ensures r == Wrap(prefix + Leaves(arr.elems) + rest)
  {
    var gap := OpenGap(storage, prefix, arr, rest, i);
    r, next := FlattenChild(gap, arr.elems, i);
    FillGap(gap, r, prefix, Leaves(arr.elems), rest);
  }

  /** Vacating slot `i` and opening `leaf count - 1` more slots behind it:
      a gap as wide as the leaves between the runs before and after. */
  method OpenGap(storage: seq<Option<Node>>, ghost prefix: seq<Node>, arr: Node, ghost rest: seq<Node>, i: nat)
    returns (r: seq<Option<Node>>)
    requires arr.Array? && |Leaves(arr.elems)| > 0
    requires i == |prefix|
    requires storage == Wrap(prefix + [arr] + rest)
    ensures |r| == i + |Leaves(arr.elems)| + |rest|
    ensures r[..i] == Wrap(prefix)
    ensures r[i + |Leaves(arr.elems)|..] == Wrap(rest)
  {
    VacateSlot(storage, prefix, arr, rest);
    r := storage[i := None];
    var leafCount := TotalLeafCount(arr.elems);
    if leafCount > 1 {
      ghost var before := r;
      r := PreinsertionResize(r, i + 1, leafCount - 1);
      GapKeepsRuns(before, r, i, leafCount - 1, prefix, rest);
    }
  }

  /** Filling the gap with the leaves gives the storage of the flattened
      array. */
  lemma FillGap(gap: seq<Option<Node>>, r: seq<Option<Node>>, p: seq<Node>, l: seq<Node>, t: seq<Node>)
    requires |gap| == |p| + |l| + |t| && |r| == |gap|
    requires gap[..|p|] == Wrap(p) && gap[|p| + |l|..] == Wrap(t)
    requires r[..|p|] == gap[..|p|]
    requires r[|p|..|p| + |l|] == Wrap(l)
    requires r[|p| + |l|..] == gap[|p| + |l|..]
    ensures r == Wrap(p + l + t)
  {
    Assemble(r, p, l, t);
  }

  /** How the storage image of the relocation pass advances by one element:
      the elements before `j` have become leaves, the rest are untouched. */
  lemma RelocationImage(e: seq<Node>, j: nat, storage: seq<Option<Node>>)
    requires j < |e|
    requires storage == Wrap(Leaves(e[..j]) + e[j..])
    ensures storage == Wrap(Leaves(e[..j]) + [e[j]] + e[j + 1..])
    ensures |Leaves(e[..j])| < |storage| && storage[|Leaves(e[..j])|] == Some(e[j])
    ensures !e[j].Array? ==> storage == Wrap(Leaves(e[..j + 1]) + e[j + 1..])
    ensures Leaves(e[..j + 1]) + e[j + 1..]
            == Leaves(e[..j]) + (if e[j].Array? then Leaves(e[j].elems) else [e[j]]) + e[j + 1..]
  {
    SplitAt(e, j);
    LeavesAppend(e[..j], [e[j]]);
    LeavesSingle(e[j]);
    ConcatAssoc(Leaves(e[..j]), [e[j]], e[j + 1..]);
  }

  lemma SplitAt<T>(e: seq<T>, j: nat)
    requires j < |e|
    ensures e[..j + 1] == e[..j] + [e[j]]
    ensures e[j..] == [e[j]] + e[j + 1..]
  {
  }

  lemma ConcatAssoc<T>(a: seq<T>, b: seq<T>, c: seq<T>)
    ensures a + (b + c) == a + b + c
  {
  }

  /** One step of the relocation pass: the element at storage slot `i` is
      left alone when it is a leaf and replaced by its leaves otherwise. */
  method RelocateStep(ghost e: seq<Node>, ghost j: nat, storage: seq<Option<Node>>, i: nat)
    returns (r: seq<Option<Node>>, next: nat)
    requires forall k :: 0 <= k < |e| && e[k].Array? ==> |Leaves(e[k].elems)| > 0
    requires j < |e|
    requires i == |Leaves(e[..j])|
    requires storage == Wrap(Leaves(e[..j]) + e[j..])
    ensures next == |Leaves(e[..j + 1])|
    ensures r == Wrap(Leaves(e[..j + 1]) + e[j + 1..])
  {
    RelocationImage(e, j, storage);
    if storage[i].value.Array? {
      r, next := RelocateOne(storage, Leaves(e[..j]), storage[i].value, e[j + 1..], i);
    } else {
      r, next := storage, i + 1;
    }
  }

  /** Once the relocation pass has walked past the last element, the storage
      holds exactly the leaves. */
  lemma RelocationDone(e: seq<Node>, j: nat, storage: seq<Option<Node>>)
    requires j <= |e|
    requires storage == Wrap(Leaves(e[..j]) + e[j..])
    requires |storage| == |Leaves(e[..j])| + |e| - j
    requires |Leaves(e[..j])| >= |storage|
    ensures storage == Wrap(Leaves(e))
  {
    assert e[..j] == e;
    assert e[j..] == [];
    assert Leaves(e[..j]) + e[j..] == Leaves(e);
  }

  /** The relocation pass of `flatten`: walks the storage from the front,
      skipping leaves and replacing each nested array by its leaves. */
  method Relocate(e: seq<Node>) returns (r: seq<Node>)
    requires forall k :: 0 <= k < |e| && e[k].Array? ==> |Leaves(e[k].elems)| > 0
    ensures r == Leaves(e)
  {
    var storage := Wrap(e);
    var i := 0;
    ghost var j := 0;
    assert e[..0] == [];
    assert e[0..] == e;
    while i < |storage|
      invariant 0 <= j <= |e|
      invariant i == |Leaves(e[..j])|
      invariant storage == Wrap(Leaves(e[..j]) + e[j..])
      invariant |storage| == i + |e| - j
      decreases |e| - j
    {
      storage, i := RelocateStep(e, j, storage, i);
      j := j + 1;
    }
    RelocationDone(e, j, storage);
    r := Unwrap(storage);
    WrapInjective(r, Leaves(e));
  }

  /** `array::flatten`: replaces every nested array by its leaves, in place.
      The result holds no arrays, has the original total leaf count as its
      length, and lists the leaves depth-first and left to right; an array
      with nothing to flatten comes back unchanged. */
  method Flatten(a: seq<Node>) returns (r: seq<Node>)
    ensures r == Leaves(a)
    ensures forall k :: 0 <= k < |r| ==> !r[k].Array?
    ensures (forall k :: 0 <= k < |a| ==> !a[k].Array?) ==> r == a
  {
    LeavesAreNotArrays(a);
    if forall k :: 0 <= k < |a| ==> !a[k].Array? {
      LeavesOfFlat(a);
    }
    if |a| == 0 {
      return a;
    }
    var e, size, requiresFlattening := FirstPass(a);
    PruneKeepsLeaves(a);
    if !requiresFlattening {
      LeavesOfFlat(e);
      return e;
    }
    PruneLeavesNonEmptyArrays(a);
    r := Relocate(e);
  }
}
