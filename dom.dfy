/**
  The part of the DOM that handleDrop relies on: the ordered children of one
  parent node, `nextSibling`, and `insertBefore` with its pre-insertion
  rules (a node inserted before itself goes before its own next sibling; a
  missing reference child means "append").
 */
module Dom {
  import opened Wrappers

  /** No node occurs twice among the children of a parent. */
  predicate Distinct<T(==)>(s: seq<T>) {
    forall i, j :: 0 <= i < j < |s| ==> s[i] != s[j]
  }

  /** Position of the first occurrence of `x`. */
  function IndexOf<T(==)>(s: seq<T>, x: T): (i: nat)
    requires x in s
    ensures i < |s| && s[i] == x && x !in s[..i]
  {
    if s[0] == x then 0
    else
      var k := IndexOf(s[1..], x);
      assert s[..k + 1] == [s[0]] + s[1..][..k];
      k + 1
  }

  /** node.nextSibling: the following child, or None for the last one. */
  function NextSibling<T(==)>(s: seq<T>, node: T): (r: Option<T>)
    requires node in s
  {
    var i := IndexOf(s, node);
    if i + 1 < |s| then Some(s[i + 1]) else None
  }

  /** nextSibling, when there is one, is a child of the same parent. */
  lemma NextSiblingIsChild<T>(s: seq<T>, node: T)
    requires node in s
    ensures NextSibling(s, node).Some? ==> NextSibling(s, node).value in s
  {
  }

  /** The children once `node` is taken out. */
  function RemoveChild<T(==)>(s: seq<T>, node: T): (r: seq<T>)
    requires node in s
    ensures |r| == |s| - 1
  {
    var i := IndexOf(s, node);
    s[..i] + s[i + 1..]
  }

  /** Taking `node` out removes one copy of it and nothing else. */
  lemma RemoveChildMultiset<T>(s: seq<T>, node: T)
    requires node in s
    ensures multiset(RemoveChild(s, node)) + multiset{node} == multiset(s)
  {
    var i := IndexOf(s, node);
    assert s == s[..i] + [node] + s[i + 1..];
  }

  /**
    parent.insertBefore(node, child) for a node that is already a child of
    the parent: the reference is moved past `node` when it is `node` itself,
    `node` is removed, and it is put back right before the reference, or at
    the end when there is none.
   */
  function InsertBefore<T(==)>(s: seq<T>, node: T, child: Option<T>): (r: seq<T>)
    requires node in s && (child.Some? ==> child.value in s)
  {
    var ref := if child == Some(node) then NextSibling(s, node) else child;
    var rest := RemoveChild(s, node);
    match ref
    case None => rest + [node]
    case Some(c) =>
      assert c in rest by {
        if child == Some(node) {
          NextSiblingStays(s, node);
        } else {
          OtherChildStays(s, node, c);
        }
      }
      var k := IndexOf(rest, c);
      rest[..k] + [node] + rest[k..]
  }

  /** The next sibling of `node` is still a child once `node` is taken out. */
  lemma NextSiblingStays<T>(s: seq<T>, node: T)
    requires node in s && NextSibling(s, node).Some?
    ensures NextSibling(s, node).value in RemoveChild(s, node)
  {
    var i := IndexOf(s, node);
    assert RemoveChild(s, node)[i] == s[i + 1];
  }

  /** Any other child is still a child once `node` is taken out. */
  lemma OtherChildStays<T>(s: seq<T>, node: T, c: T)
    requires node in s && c in s && c != node
    ensures c in RemoveChild(s, node)
  {
    var i := IndexOf(s, node);
    var j := IndexOf(s, c);
    if j < i {
      assert RemoveChild(s, node)[j] == c;
    } else {
      assert RemoveChild(s, node)[j - 1] == c;
    }
  }

  /** insertBefore of a node that is already a child only moves it: the children stay the same. */
  lemma InsertBeforePermutes<T>(s: seq<T>, node: T, child: Option<T>)
    requires node in s && (child.Some? ==> child.value in s)
    ensures multiset(InsertBefore(s, node, child)) == multiset(s)
  {
    var ref := if child == Some(node) then NextSibling(s, node) else child;
    var rest := RemoveChild(s, node);
    RemoveChildMultiset(s, node);
    if ref.None? {
      assert InsertBefore(s, node, child) == rest + [node];
    } else {
      var c := ref.value;
      if child == Some(node) {
        NextSiblingStays(s, node);
      } else {
        OtherChildStays(s, node, c);
      }
      var k := IndexOf(rest, c);
      assert InsertBefore(s, node, child) == rest[..k] + [node] + rest[k..];
      assert rest == rest[..k] + rest[k..];
    }
  }

  /** Exchanges the children at positions i and j. */
  function Swap<T>(s: seq<T>, i: nat, j: nat): (r: seq<T>)
    requires i < |s| && j < |s|
    ensures |r| == |s| && r[i] == s[j] && r[j] == s[i]
    ensures forall k :: 0 <= k < |s| && k != i && k != j ==> r[k] == s[k]
  {
    s[i := s[j]][j := s[i]]
  }

  /** Exchanging two children keeps the same children. */
  lemma SwapPermutes<T>(s: seq<T>, i: nat, j: nat)
    requires i < |s| && j < |s|
    ensures multiset(Swap(s, i, j)) == multiset(s)
  {
  }

  /** In a list without repeats, the position of s[i] is i. */
  lemma IndexOfDistinct<T>(s: seq<T>, i: nat)
    requires Distinct(s) && i < |s|
    ensures IndexOf(s, s[i]) == i
  {
    var k := IndexOf(s, s[i]);
    assert s[k] == s[i];
  }

  /** In a list without repeats, nextSibling of s[i] is s[i + 1], if any. */
  lemma NextSiblingAt<T>(s: seq<T>, i: nat)
    requires Distinct(s) && i < |s|
    ensures NextSibling(s, s[i]) == if i + 1 < |s| then Some(s[i + 1]) else None
  {
    IndexOfDistinct(s, i);
  }

  /** The head of a non-empty list, or None. */
  function Head<T>(z: seq<T>): Option<T> {
    if |z| > 0 then Some(z[0]) else None
  }

  /**
    Moving a node forward: it is taken out and put back right before the
    head of z, or at the end when z is empty. It suffices that `n` and the
    head of z are first found where the decomposition puts them.
   */
  lemma MoveForward<T>(s: seq<T>, x: seq<T>, n: T, y: seq<T>, z: seq<T>)
    requires s == x + [n] + y + z && n !in x
    requires |z| > 0 ==> z[0] != n && z[0] !in x + y
    ensures n in s && (Head(z).Some? ==> Head(z).value in s)
    ensures InsertBefore(s, n, Head(z)) == x + y + [n] + z
  {
    assert s[|x|] == n && s[..|x|] == x;
    IndexOfUnique(s, n, |x|);
    var rest := RemoveChild(s, n);
    assert rest == x + y + z by {
      assert s[|x| + 1..] == y + z;
    }
    if |z| > 0 {
      var k := |x| + |y|;
      assert s[k + 1] == z[0];
      assert rest[k] == z[0] && rest[..k] == x + y;
      IndexOfUnique(rest, z[0], k);
      assert rest[k..] == z;
    }
  }

  /** Moving a node backward: it is taken out and put back right before the head of z. */
  lemma MoveBackward<T>(s: seq<T>, x: seq<T>, z: seq<T>, n: T, y: seq<T>)
    requires s == x + z + [n] + y && |z| > 0
    requires n !in x + z && z[0] !in x
    ensures n in s && z[0] in s
    ensures InsertBefore(s, n, Some(z[0])) == x + [n] + z + y
  {
    var i := |x| + |z|;
    assert s[i] == n && s[..i] == x + z;
    IndexOfUnique(s, n, i);
    assert s[|x|] == z[0];
    assert z[0] != n by {
      assert z[0] in x + z;
    }
    var rest := RemoveChild(s, n);
    assert rest == x + z + y by {
      assert s[i + 1..] == y;
    }
    assert rest[|x|] == z[0] && rest[..|x|] == x;
    IndexOfUnique(rest, z[0], |x|);
    assert rest[|x|..] == z + y;
  }

  /** Inserting a node before itself leaves the children as they are. */
  lemma MoveBeforeItself<T>(s: seq<T>, x: seq<T>, n: T, z: seq<T>)
    requires s == x + [n] + z && n !in x
    requires |z| > 0 ==> z[0] != n && z[0] !in x
    ensures n in s
    ensures InsertBefore(s, n, Some(n)) == s
  {
    assert s[|x|] == n && s[..|x|] == x;
    IndexOfUnique(s, n, |x|);
    if |z| > 0 {
      assert s[|x| + 1] == z[0];
    }
    assert NextSibling(s, n) == Head(z);
    assert x + [] == x;
    MoveForward(s, x, n, [], z);
    assert InsertBefore(s, n, Some(n)) == InsertBefore(s, n, Head(z));
  }

  /** In a list without repeats, s[k] is not found in a slice that leaves out position k. */
  lemma NotInSlice<T>(s: seq<T>, k: nat, lo: nat, hi: nat)
    requires Distinct(s) && k < |s| && lo <= hi <= |s| && (k < lo || hi <= k)
    ensures s[k] !in s[lo..hi]
  {
    forall m | lo <= m < hi ensures s[m] != s[k] {
      if m < k {
        assert s[m] != s[k];
      } else {
        assert s[k] != s[m];
      }
    }
    assert forall m :: 0 <= m < hi - lo ==> s[lo..hi][m] == s[lo + m];
  }

  lemma IndexOfUnique<T>(s: seq<T>, x: T, i: nat)
    requires i < |s| && s[i] == x && x !in s[..i]
    ensures IndexOf(s, x) == i
  {
    var k := IndexOf(s, x);
    assert forall m :: 0 <= m < i ==> s[..i][m] == s[m];
    assert forall m :: 0 <= m < k ==> s[..k][m] == s[m];
  }

  /** The children in the order handleDrop leaves them, dragging `dragged` onto `target`. */
  predicate DropReorderIs<T(==)>(s: seq<T>, dragged: T, target: T, r: seq<T>)
    requires dragged in s && target in s
  {
    var next1 := NextSibling(s, dragged);
    var next2 := NextSibling(s, target);
    var s1 := InsertBefore(s, dragged, next2);
    target in s1 && (next1.Some? ==> next1.value in s1) && InsertBefore(s1, target, next1) == r
  }

  lemma Assoc<T>(a: seq<T>, b: seq<T>, c: seq<T>)
    ensures a + (b + c) == a + b + c
  {
  }

  /** Swap written with slices, for i < j. */
  lemma SwapSlices<T>(s: seq<T>, i: nat, j: nat)
    requires i < j < |s|
    ensures Swap(s, i, j) == s[..i] + [s[j]] + s[i + 1..j] + [s[i]] + s[j + 1..]
    ensures Swap(s, j, i) == Swap(s, i, j)
  {
  }

  /** Dragging a child onto the one right after it exchanges the two. */
  lemma DropOnNext<T>(s: seq<T>, p: nat)
    requires Distinct(s) && p + 1 < |s|
    ensures DropReorderIs(s, s[p], s[p + 1], Swap(s, p, p + 1))
  {
    var q := p + 1;
    var d, t := s[p], s[q];
    var a, c := s[..p], s[q + 1..];
    NextSiblingAt(s, p);
    NextSiblingAt(s, q);
    var next1, next2 := NextSibling(s, d), NextSibling(s, t);
    assert next1 == Some(t) && next2 == Head(c);
    NotInSlice(s, p, 0, p);
    NotInSlice(s, q, 0, p);
    if |c| > 0 {
      assert c[0] == s[q + 1];
      NotInSlice(s, q + 1, 0, q + 1);
      assert s[..q + 1] == a + [d] + [t];
    }
    assert s == a + [d] + [t] + c by {
      assert s == s[..p] + [s[p]] + s[p + 1..];
    }
    MoveForward(s, a, d, [t], c);
    var s1 := InsertBefore(s, d, next2);
    assert s1 == a + [t] + [d] + c;
    Assoc(a + [t], [d], c);
    MoveBeforeItself(s1, a, t, [d] + c);
    SwapSlices(s, p, q);
    assert s[p + 1..q] == [];
    assert a + [t] + [] == a + [t];
  }

  /** Dragging a child onto a later, not adjacent one exchanges the two. */
  lemma DropOnLater<T>(s: seq<T>, p: nat, q: nat)
    requires Distinct(s) && p + 1 < q < |s|
    ensures DropReorderIs(s, s[p], s[q], Swap(s, p, q))
  {
    var d, t := s[p], s[q];
    var a, b, c := s[..p], s[p + 1..q], s[q + 1..];
    NextSiblingAt(s, p);
    NextSiblingAt(s, q);
    var next1, next2 := NextSibling(s, d), NextSibling(s, t);
    assert b[0] == s[p + 1];
    assert next1 == Some(b[0]) && next2 == Head(c);
    NotInSlice(s, p, 0, p);
    if |c| > 0 {
      assert c[0] == s[q + 1];
      NotInSlice(s, q + 1, 0, q + 1);
      assert s[..q + 1] == a + [d] + (b + [t]);
    }
    var y := b + [t];
    assert s == a + [d] + y + c;
    MoveForward(s, a, d, y, c);
    var s1 := InsertBefore(s, d, next2);
    Assoc(a, b, [t]);
    Assoc(a + b + [t], [d], c);
    assert s1 == a + b + [t] + ([d] + c);
    NotInSlice(s, q, 0, p);
    NotInSlice(s, q, p + 1, q);
    NotInSlice(s, p + 1, 0, p);
    MoveBackward(s1, a, b, t, [d] + c);
    SwapSlices(s, p, q);
    Assoc(a + [t] + b, [d], c);
  }

  /** Dragging a child onto the one right before it exchanges the two. */
  lemma DropOnPrevious<T>(s: seq<T>, q: nat)
    requires Distinct(s) && q + 1 < |s|
    ensures DropReorderIs(s, s[q + 1], s[q], Swap(s, q + 1, q))
  {
    var p := q + 1;
    var d, t := s[p], s[q];
    var a, c := s[..q], s[p + 1..];
    NextSiblingAt(s, p);
    NextSiblingAt(s, q);
    var next1, next2 := NextSibling(s, d), NextSibling(s, t);
    assert next1 == Head(c) && next2 == Some(d);
    NotInSlice(s, q, 0, q);
    NotInSlice(s, p, 0, q);
    if |c| > 0 {
      assert c[0] == s[p + 1];
      NotInSlice(s, p + 1, 0, p + 1);
      assert s[..p + 1] == a + [t] + [d];
    }
    assert s == a + [t] + [d] + c;
    MoveBeforeItself(s, a + [t], d, c);
    var s1 := InsertBefore(s, d, next2);
    assert s1 == s;
    MoveForward(s, a, t, [d], c);
    SwapSlices(s, q, p);
    assert s[q + 1..p] == [];
    assert a + [d] + [] == a + [d];
  }

  /** Dragging a child onto an earlier, not adjacent one exchanges the two. */
  lemma DropOnEarlier<T>(s: seq<T>, p: nat, q: nat)
    requires Distinct(s) && q + 1 < p < |s|
    ensures DropReorderIs(s, s[p], s[q], Swap(s, p, q))
  {
    var d, t := s[p], s[q];
    var a, b, c := s[..q], s[q + 1..p], s[p + 1..];
    NextSiblingAt(s, p);
    NextSiblingAt(s, q);
    var next1, next2 := NextSibling(s, d), NextSibling(s, t);
    assert b[0] == s[q + 1];
    assert next1 == Head(c) && next2 == Some(b[0]);
    NotInSlice(s, p, 0, p);
    NotInSlice(s, q + 1, 0, q + 1);
    assert s[..p] == (a + [t]) + b;
    assert s[..q + 1] == a + [t];
    assert s == (a + [t]) + b + [d] + c;
    MoveBackward(s, a + [t], b, d, c);
    var s1 := InsertBefore(s, d, next2);
    var y := [d] + b;
    Assoc(a + [t], [d], b);
    assert s1 == a + [t] + y + c;
    NotInSlice(s, q, 0, q);
    if |c| > 0 {
      assert c[0] == s[p + 1];
      NotInSlice(s, p + 1, 0, q);
      NotInSlice(s, p + 1, q + 1, p);
    }
    MoveForward(s1, a, t, y, c);
    SwapSlices(s, q, p);
    Assoc(a, [d], b);
  }

  /**
    handleDrop's two insertBefore calls, with both next siblings taken
    first, exchange the dragged and the target child and leave every other
    child where it was; a drop on the dragged child itself changes nothing.
   */
  lemma DropReorderSwaps<T>(s: seq<T>, p: nat, q: nat)
    requires Distinct(s) && p < |s| && q < |s|
    ensures DropReorderIs(s, s[p], s[q], Swap(s, p, q))
  {
    if p + 1 == q {
      DropOnNext(s, p);
    } else if p + 1 < q {
      DropOnLater(s, p, q);
    } else if q + 1 == p {
      DropOnPrevious(s, q);
    } else if q + 1 < p {
      DropOnEarlier(s, p, q);
    } else {
      DropOnItself(s, p);
    }
  }

  /** Inserting a child before its own next sibling leaves the order as it is. */
  lemma InsertBeforeNextSibling<T>(s: seq<T>, p: nat)
    requires Distinct(s) && p < |s|
    ensures NextSibling(s, s[p]).Some? ==> NextSibling(s, s[p]).value in s
    ensures InsertBefore(s, s[p], NextSibling(s, s[p])) == s
  {
    var x, d, c := s[..p], s[p], s[p + 1..];
    NextSiblingAt(s, p);
    NotInSlice(s, p, 0, p);
    var e: seq<T> := [];
    assert x + e == x && x + [d] + e == x + [d];
    assert s == x + [d] + c;
    if |c| > 0 {
      assert c[0] == s[p + 1];
      NotInSlice(s, p + 1, 0, p);
    }
    MoveForward(s, x, d, e, c);
  }

  /** Dropping a child on itself leaves the order as it is. */
  lemma DropOnItself<T>(s: seq<T>, p: nat)
    requires Distinct(s) && p < |s|
    ensures DropReorderIs(s, s[p], s[p], Swap(s, p, p))
  {
    InsertBeforeNextSibling(s, p);
    assert Swap(s, p, p) == s;
  }
}
