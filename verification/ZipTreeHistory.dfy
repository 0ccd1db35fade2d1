/**
 What the operations of a zip tree promise to its user, across whole runs:
 the shape never depends on history, remove and insert undo each other, find
 returns the topmost entry of its key, and iteration calls back bottom-up.
 */
module ZipTreeHistory {
  import opened ZipTree

  // ---------- Remove ----------

  ghost function Cut<Id>(s: seq<Item<Id>>, p: nat): seq<Item<Id>>
    requires p < |s|
  {
    s[..p] + s[p + 1..]
  }

  lemma CutKeeps<Id>(s: seq<Item<Id>>, p: nat)
    requires p < |s| && Sorted(s) && DistinctIds(s)
    ensures Sorted(Cut(s, p)) && DistinctIds(Cut(s, p)) && !HasId(Cut(s, p), s[p].id)
  {
    var w := Cut(s, p);
    forall i | 0 <= i < |w| ensures w[i] == s[if i < p then i else i + 1] {}
  }

  lemma WithoutIsPart<Id>(s: seq<Item<Id>>, id: Id)
    requires Sorted(s) && DistinctIds(s)
    ensures Sorted(Without(s, id)) && DistinctIds(Without(s, id)) && !HasId(Without(s, id), id)
  {
    if HasId(s, id) {
      var p :| 0 <= p < |s| && s[p].id == id;
      WithoutAt(s, p);
      CutKeeps(s, p);
    } else {
      WithoutAbsent(s, id);
    }
  }

  /** Removal, down to the exact tree; removing an absent element is a no-op. */
  lemma RemoveIsCanonical<Id>(t: Tree<Id>, e: Item<Id>)
    requires t.Node? && ValidTree(t) && DistinctIds(InOrder(t)) && Agrees(InOrder(t), e)
    ensures Remove(t, e) == Canonical(Without(InOrder(t), e.id))
    ensures ValidTree(Remove(t, e)) && DistinctIds(InOrder(Remove(t, e)))
    ensures !HasId(InOrder(t), e.id) ==> Remove(t, e) == t
  {
    RemoveTakesOut(t, e);
    WithoutIsPart(InOrder(t), e.id);
    CanonicalForm(Remove(t, e));
    if !HasId(InOrder(t), e.id) {
      WithoutAbsent(InOrder(t), e.id);
      CanonicalForm(t);
    }
  }

  // ---------- Insert and remove undo each other ----------

  lemma PlaceKeepsDistinct<Id>(s: seq<Item<Id>>, e: Item<Id>)
    requires DistinctIds(s) && !HasId(s, e.id)
    ensures DistinctIds(Place(s, e))
  {
    var p, s' := Slot(s, e.key), Place(s, e);
    forall i | 0 <= i < |s'| ensures s'[i] == if i < p then s[i] else if i == p then e else s[i - 1] {}
  }

  lemma PlaceAgrees<Id>(s: seq<Item<Id>>, e: Item<Id>)
    requires !HasId(s, e.id)
    ensures Agrees(Place(s, e), e)
    ensures HasId(Place(s, e), e.id)
  {
    var p, s' := Slot(s, e.key), Place(s, e);
    forall i | 0 <= i < |s'| ensures s'[i] == if i < p then s[i] else if i == p then e else s[i - 1] {}
    assert s'[p].id == e.id;
  }

  lemma WithoutPut<Id>(s: seq<Item<Id>>, p: nat, e: Item<Id>)
    requires p <= |s| && !HasId(s, e.id)
    ensures Without(Put(s, p, e), e.id) == s
  {
    var a, b := s[..p], s[p..];
    assert s == a + b;
    WithoutAppend(a + [e], b, e.id);
    WithoutAppend(a, [e], e.id);
    assert !HasId(a, e.id);
    assert (a + [e])[|a|].id == e.id;
    WithoutCons(e, [], e.id);
    assert [e] + [] == [e];
  }

  /** Remove undoes insert, whatever the new element's rank and however many elements share its key. */
  lemma RemoveUndoesInsert<Id>(t: Tree<Id>, e: Item<Id>)
    requires ValidTree(t) && DistinctIds(InOrder(t)) && !HasId(InOrder(t), e.id)
    ensures Remove(Insert(t, e), e) == t
  {
    InsertPlaces(t, e);
    InsertIsCanonical(t, e);
    PlaceKeepsDistinct(InOrder(t), e);
    PlaceAgrees(InOrder(t), e);
    RemoveIsCanonical(Insert(t, e), e);
    WithoutPut(InOrder(t), Slot(InOrder(t), e.key), e);
    CanonicalForm(t);
  }

  /** Putting `e` back after everything not greater finds its old slot unless an equal key follows. */
  lemma PlaceBack<Id>(a: seq<Item<Id>>, e: Item<Id>, b: seq<Item<Id>>)
    requires Sorted(a + [e] + b) && DistinctIds(a + [e] + b)
    ensures Place(a + b, e) == a + [e] + b <==> b == [] || b[0].key != e.key
  {
    var w := a + b;
    SidesOrdered(a, e, b);
    assert w[..|a|] == a && w[|a|..] == b;
    if b == [] || b[0].key != e.key {
      forall i | 0 <= i < |b| ensures b[i].key > e.key { assert b[0].key <= b[i].key; }
      SlotIs(w, e.key, |a|);
    } else {
      SlotSplits(w, e.key);
      assert w[|a|] == b[0];
      assert (a + [e] + b)[|a|] == e && (a + [e] + b)[|a| + 1] == b[0];
      assert Place(w, e)[|a|] == b[0];
    }
  }

  /** Insert undoes remove exactly when no later element has the removed element's key. */
  lemma InsertUndoesRemove<Id>(t: Tree<Id>, p: nat)
    requires ValidTree(t) && DistinctIds(InOrder(t)) && p < |InOrder(t)|
    ensures var s := InOrder(t);
      Insert(Remove(t, s[p]), s[p]) == t <==> p + 1 == |s| || s[p + 1].key != s[p].key
  {
    var s := InOrder(t);
    var a, e, b := s[..p], s[p], s[p + 1..];
    SplitAt(s, p);
    PlaceBack(a, e, b);
    RemoveThenInsert(t, p);
    SameShape(Insert(Remove(t, e), e), t);
  }

  lemma RemoveThenInsert<Id>(t: Tree<Id>, p: nat)
    requires ValidTree(t) && DistinctIds(InOrder(t)) && p < |InOrder(t)|
    ensures var s := InOrder(t);
      var u := Insert(Remove(t, s[p]), s[p]);
      ValidTree(u) && InOrder(u) == Place(s[..p] + s[p + 1..], s[p])
  {
    var s := InOrder(t);
    var u := Remove(t, s[p]);
    RemoveTakesOut(t, s[p]);
    RemoveIsCanonical(t, s[p]);
    WithoutAt(s, p);
    WithoutIsPart(s, s[p].id);
    InsertPlaces(u, s[p]);
    InsertIsCanonical(u, s[p]);
  }

  lemma SameShape<Id>(t: Tree<Id>, u: Tree<Id>)
    requires RankOrdered(t) && RankOrdered(u)
    ensures t == u <==> InOrder(t) == InOrder(u)
  {
    CanonicalForm(t);
    CanonicalForm(u);
  }

  // ---------- History independence ----------

  datatype Op<Id> = Add(item: Item<Id>) | Take(item: Item<Id>)

  /** The contents after a run, by the two sequence operations alone. */
  ghost function Contents<Id>(ops: seq<Op<Id>>): seq<Item<Id>> {
    if ops == [] then []
    else
      var s := Contents(ops[..|ops| - 1]);
      match ops[|ops| - 1]
      case Add(e) => Place(s, e)
      case Take(e) => Without(s, e.id)
  }

  /**
   What the header asks of its callers: an inserted element is not linked, and
   a removal, of a linked element or not, finds a non-empty tree.
   */
  ghost predicate Legal<Id>(ops: seq<Op<Id>>) {
    ops == [] ||
    var s := Contents(ops[..|ops| - 1]);
    && Legal(ops[..|ops| - 1])
    && match ops[|ops| - 1]
       case Add(e) => !HasId(s, e.id)
       case Take(e) => s != [] && Agrees(s, e)
  }

  /** The tree after a run from the empty head. Every reachable tree is a zip tree over the contents. */
  ghost function Run<Id>(ops: seq<Op<Id>>): (t: Tree<Id>)
    requires Legal(ops)
    ensures ValidTree(t) && InOrder(t) == Contents(ops) && DistinctIds(Contents(ops))
  {
    if ops == [] then Nil
    else
      var t := Run(ops[..|ops| - 1]);
      match ops[|ops| - 1]
      case Add(e) =>
        InsertIsCanonical(t, e);
        InsertPlaces(t, e);
        PlaceKeepsDistinct(InOrder(t), e);
        Insert(t, e)
      case Take(e) =>
        RemoveIsCanonical(t, e);
        RemoveTakesOut(t, e);
        Remove(t, e)
  }

  /** The tree after any run is the canonical tree of its contents: nothing else of the past survives. */
  lemma RunIsCanonical<Id>(ops: seq<Op<Id>>)
    requires Legal(ops)
    ensures Run(ops) == Canonical(Contents(ops))
  {
    CanonicalForm(Run(ops));
  }

  ghost predicate DistinctKeys<Id>(s: seq<Item<Id>>) {
    forall i, j :: 0 <= i < j < |s| ==> s[i].key != s[j].key
  }

  lemma SameLeast<Id>(s: seq<Item<Id>>, u: seq<Item<Id>>)
    requires Sorted(s) && Sorted(u) && DistinctKeys(s) && s != [] && u != []
    requires multiset(s) == multiset(u)
    ensures s[0] == u[0]
  {
    assert s[0] in multiset(u) && u[0] in multiset(s);
    var i :| 0 <= i < |u| && u[i] == s[0];
    var j :| 0 <= j < |s| && s[j] == u[0];
    assert s[0].key <= s[j].key && u[0].key <= u[i].key;
  }

  lemma TailMultiset<T>(s: seq<T>)
    requires s != []
    ensures multiset(s[1..]) == multiset(s) - multiset{s[0]}
  {
    assert s == [s[0]] + s[1..];
  }

  lemma SameHeadAndTail<T>(s: seq<T>, u: seq<T>)
    requires s != [] && u != [] && s[0] == u[0] && s[1..] == u[1..]
    ensures s == u
  {
    assert s == [s[0]] + s[1..] && u == [u[0]] + u[1..];
  }

  lemma TailSorted<Id>(s: seq<Item<Id>>)
    requires s != [] && Sorted(s)
    ensures Sorted(s[1..]) && (DistinctKeys(s) ==> DistinctKeys(s[1..]))
  {}

  lemma {:induction false} SortedIsDetermined<Id>(s: seq<Item<Id>>, u: seq<Item<Id>>)
    requires Sorted(s) && Sorted(u) && DistinctKeys(s)
    requires multiset(s) == multiset(u)
    ensures s == u
  {
    assert |s| == |multiset(s)| == |multiset(u)| == |u|;
    if s != [] {
      SameLeast(s, u);
      TailMultiset(s);
      TailMultiset(u);
      TailSorted(s);
      TailSorted(u);
      SortedIsDetermined(s[1..], u[1..]);
      SameHeadAndTail(s, u);
    }
  }

  /** With pairwise distinct keys, the set of entries fixes the tree. */
  lemma EntriesFixTree<Id>(t: Tree<Id>, u: Tree<Id>)
    requires ValidTree(t) && ValidTree(u)
    requires multiset(InOrder(t)) == multiset(InOrder(u)) && DistinctKeys(InOrder(t))
    ensures t == u
  {
    SortedIsDetermined(InOrder(t), InOrder(u));
    CanonicalForm(t);
    CanonicalForm(u);
  }

  /**
   Two runs that end with the same entries, with pairwise distinct keys, build
   the same tree, in whatever order entries came and went.
   */
  lemma HistoryIndependence<Id>(p: seq<Op<Id>>, q: seq<Op<Id>>)
    requires Legal(p) && Legal(q)
    requires multiset(Contents(p)) == multiset(Contents(q)) && DistinctKeys(Contents(p))
    ensures Run(p) == Run(q)
  {
    EntriesFixTree(Run(p), Run(q));
  }

  /** The run that adds the items of `s` one after the other. */
  ghost function Adds<Id>(s: seq<Item<Id>>): seq<Op<Id>> {
    if s == [] then [] else Adds(s[..|s| - 1]) + [Add(s[|s| - 1])]
  }

  /** Added in order, the items end up in that order: stable insertion puts each one last. */
  lemma {:induction false} AddsBuild<Id>(s: seq<Item<Id>>)
    requires Sorted(s) && DistinctIds(s)
    ensures Legal(Adds(s)) && Contents(Adds(s)) == s
  {
    if s != [] {
      var a, e := s[..|s| - 1], s[|s| - 1];
      assert s == a + [e] && Adds(s)[..|Adds(s)| - 1] == Adds(a);
      AddsBuild(a);
      SlotIs(a, e.key, |a|);
      assert Put(a, |a|, e) == s;
    }
  }

  ghost predicate Builds<Id>(p: seq<Op<Id>>, t: Tree<Id>) {
    Legal(p) && Run(p) == t
  }

  /** The trees that legal runs build are exactly the zip trees. */
  lemma ReachableIff<Id(!new)>(t: Tree<Id>)
    ensures (exists p: seq<Op<Id>> :: Builds(p, t)) <==> ValidTree(t) && DistinctIds(InOrder(t))
  {
    if ValidTree(t) && DistinctIds(InOrder(t)) {
      AddsBuild(InOrder(t));
      SameShape(Run(Adds(InOrder(t))), t);
      assert Builds(Adds(InOrder(t)), t);
    }
  }

  /** All runs that end with the entries of `s` build one tree. */
  ghost predicate OneTree<Id(!new)>(s: seq<Item<Id>>) {
    forall p: seq<Op<Id>>, q: seq<Op<Id>> ::
      Legal(p) && Legal(q) && multiset(Contents(p)) == multiset(s) == multiset(Contents(q)) ==> Run(p) == Run(q)
  }

  /** Two neighbours of one key can change places. */
  lemma NeighboursSwap<Id>(s: seq<Item<Id>>, i: nat) returns (u: seq<Item<Id>>)
    requires Sorted(s) && DistinctIds(s) && i + 1 < |s| && s[i].key == s[i + 1].key
    ensures Sorted(u) && DistinctIds(u) && multiset(u) == multiset(s) && u != s
  {
    u := s[i := s[i + 1]][i + 1 := s[i]];
    assert u[i].id != s[i].id;
  }

  /**
   The shape is independent of history exactly when no key repeats: with a
   repeated key, whatever the ranks, the order of arrival shows.
   */
  lemma OneTreeIff<Id(!new)>(s: seq<Item<Id>>)
    requires Sorted(s) && DistinctIds(s)
    ensures OneTree(s) <==> DistinctKeys(s)
  {
    if DistinctKeys(s) {
      forall p: seq<Op<Id>>, q: seq<Op<Id>>
        | Legal(p) && Legal(q) && multiset(Contents(p)) == multiset(s) == multiset(Contents(q))
        ensures Run(p) == Run(q)
      {
        SortedIsDetermined(s, InOrder(Run(p)));
        HistoryIndependence(p, q);
      }
    } else {
      var i, j :| 0 <= i < j < |s| && s[i].key == s[j].key;
      assert s[i].key <= s[i + 1].key <= s[j].key;
      var u := NeighboursSwap(s, i);
      AddsBuild(s);
      AddsBuild(u);
      assert InOrder(Run(Adds(s))) != InOrder(Run(Adds(u)));
    }
  }

  // ---------- Find ----------

  ghost predicate Subtree<Id>(u: Tree<Id>, t: Tree<Id>) {
    u == t || (t.Node? && (Subtree(u, t.left) || Subtree(u, t.right)))
  }

  /** The entries with the given key, in order. */
  function WithKey<Id>(s: seq<Item<Id>>, key: int): seq<Item<Id>> {
    if s == [] then []
    else if s[0].key == key then [s[0]] + WithKey(s[1..], key)
    else WithKey(s[1..], key)
  }

  lemma {:induction false} WithKeyAppend<Id>(a: seq<Item<Id>>, b: seq<Item<Id>>, key: int)
    ensures WithKey(a + b, key) == WithKey(a, key) + WithKey(b, key)
  {
    if a == [] {
      assert a + b == b;
    } else {
      assert (a + b)[1..] == a[1..] + b;
      WithKeyAppend(a[1..], b, key);
    }
  }

  lemma {:induction false} WithKeyNone<Id>(s: seq<Item<Id>>, key: int)
    requires forall i :: 0 <= i < |s| ==> s[i].key != key
    ensures WithKey(s, key) == []
  {
    if s != [] { WithKeyNone(s[1..], key); }
  }

  lemma {:induction false} WithKeyOutranked<Id>(s: seq<Item<Id>>, key: int, bound: int)
    requires Outranked(s, bound)
    ensures Outranked(WithKey(s, key), bound)
  {
    if s != [] { WithKeyOutranked(s[1..], key, bound); }
  }

  /** `WithKey` keeps exactly the entries with the key. */
  lemma {:induction false} WithKeyHas<Id>(s: seq<Item<Id>>, key: int, i: nat)
    requires i < |s| && s[i].key == key
    ensures HasId(WithKey(s, key), s[i].id)
  {
    var w := WithKey(s, key);
    if i == 0 {
      assert w[0].id == s[0].id;
    } else {
      WithKeyHas(s[1..], key, i - 1);
      var j :| 0 <= j < |WithKey(s[1..], key)| && WithKey(s[1..], key)[j].id == s[i].id;
      assert w[if s[0].key == key then j + 1 else j].id == s[i].id;
    }
  }

  lemma {:induction false} WithKeyIsPart<Id>(s: seq<Item<Id>>, key: int, id: Id)
    requires HasId(WithKey(s, key), id)
    ensures HasId(s, id)
  {
    if s != [] {
      HasIdTail(s, id);
      if s[0].key == key { HasIdTail(WithKey(s, key), id); }
      if HasId(WithKey(s[1..], key), id) { WithKeyIsPart(s[1..], key, id); }
    }
  }

  lemma SummitBetween<Id>(a: seq<Item<Id>>, x: Item<Id>, b: seq<Item<Id>>)
    requires Outranked(a, x.rank - 1) && Outranked(b, x.rank)
    ensures var s := a + [x] + b; Summit(s) == |a| && s[Summit(s)] == x
  {
    SummitIs(a + [x] + b, |a|);
  }

  /** At a key, the entries with that key are split by the comparison with the root. */
  lemma WithKeyAt<Id>(a: seq<Item<Id>>, x: Item<Id>, b: seq<Item<Id>>, key: int)
    requires Sorted(a + [x] + b)
    ensures WithKey(a + [x] + b, key) ==
            if key < x.key then WithKey(a, key)
            else if key > x.key then WithKey(b, key)
            else WithKey(a, key) + [x] + WithKey(b, key)
  {
    SidesOrdered(a, x, b);
    WithKeyAppend(a + [x], b, key);
    WithKeyAppend(a, [x], key);
    if key < x.key { WithKeyNone(b, key); }
    if key > x.key { WithKeyNone(a, key); }
  }

  /**
   FIND answers NULL exactly when no entry has the key; otherwise it answers the
   leftmost entry of highest rank among those with the key, and all of them lie
   in the subtree of the answer.
   */
  lemma {:induction false} FindTopmost<Id>(t: Tree<Id>, key: int)
    requires ValidTree(t)
    ensures var f, w := Find(t, key), WithKey(InOrder(t), key);
      && (f.Nil? <==> w == [])
      && (f.Node? ==> f.item == w[Summit(w)] && Subtree(f, t) && WithKey(InOrder(f), key) == w)
  {
    if t.Node? {
      var a, x, b := InOrder(t.left), t.item, InOrder(t.right);
      SidesOrdered(a, x, b);
      WithKeyAt(a, x, b, key);
      if key == x.key {
        RootOutranks(t);
        WithKeyOutranked(a, key, x.rank - 1);
        WithKeyOutranked(b, key, x.rank);
        SummitBetween(WithKey(a, key), x, WithKey(b, key));
      } else if key < x.key {
        FindTopmost(t.left, key);
      } else {
        FindTopmost(t.right, key);
      }
    }
  }

  // ---------- Iteration, minimum and maximum ----------

  /** The order in which ITER calls back. */
  function PostOrder<Id>(t: Tree<Id>): seq<Item<Id>> {
    match t
    case Nil => []
    case Node(l, x, r) => PostOrder(l) + PostOrder(r) + [x]
  }

  /** ITER calls back once for every entry. */
  lemma {:induction false} IterVisitsAll<Id>(t: Tree<Id>)
    ensures multiset(PostOrder(t)) == multiset(InOrder(t))
  {
    if t.Node? {
      IterVisitsAll(t.left);
      IterVisitsAll(t.right);
    }
  }

  /** `u` occurs in `s` as the block that starts at `k`. */
  ghost predicate BlockAt<T>(s: seq<T>, u: seq<T>, k: int) {
    0 <= k <= |s| - |u| && s[k..k + |u|] == u
  }

  lemma BlockShifts<T>(a: seq<T>, s: seq<T>, c: seq<T>, u: seq<T>, k: int)
    requires BlockAt(s, u, k)
    ensures BlockAt(a + s + c, u, |a| + k)
  {}

  lemma {:induction false} BlockOf<Id>(t: Tree<Id>, u: Tree<Id>) returns (k: nat)
    requires Subtree(u, t) && u.Node?
    ensures BlockAt(PostOrder(t), PostOrder(u), k)
  {
    if u == t {
      k := 0;
    } else {
      var l, r, x := PostOrder(t.left), PostOrder(t.right), [t.item];
      assert PostOrder(t) == l + r + x == [] + l + (r + x);
      if Subtree(u, t.left) {
        k := BlockOf(t.left, u);
        BlockShifts([], l, r + x, PostOrder(u), k);
      } else {
        k := BlockOf(t.right, u);
        BlockShifts(l, r, x, PostOrder(u), k);
        k := |l| + k;
      }
    }
  }

  /** The callbacks for a subtree form one block, which its root ends: descendants come first. */
  lemma IterIsBottomUp<Id>(t: Tree<Id>, u: Tree<Id>)
    requires Subtree(u, t) && u.Node?
    ensures exists k :: BlockAt(PostOrder(t), PostOrder(u), k)
    ensures PostOrder(u)[|PostOrder(u)| - 1] == u.item
    ensures multiset(PostOrder(u)) == multiset(InOrder(u))
  {
    var k := BlockOf(t, u);
    IterVisitsAll(u);
  }
}
