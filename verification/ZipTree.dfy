/**
 The zip tree of ziptree.h on values: the tree that a heap of linked entries
 represents, the four operations the header performs on it, and the reference
 definitions they are proved against. Module ZipTreeHeap has the destructive code.
 */
module ZipTree {

  /** `unsigned char rank`. */
  type Rank = r: int | 0 <= r < 256

  /** An entry: its identity (its address), its key and its rank. */
  datatype Item<Id> = Item(id: Id, key: int, rank: Rank)

  datatype Tree<Id> = Nil | Node(left: Tree<Id>, item: Item<Id>, right: Tree<Id>)

  // ---------- What a tree holds, and when it is a zip tree ----------

  function InOrder<Id>(t: Tree<Id>): seq<Item<Id>> {
    match t
    case Nil => []
    case Node(l, x, r) => InOrder(l) + [x] + InOrder(r)
  }

  ghost predicate Sorted<Id>(s: seq<Item<Id>>) {
    forall i, j :: 0 <= i < j < |s| ==> s[i].key <= s[j].key
  }

  ghost predicate HasId<Id>(s: seq<Item<Id>>, id: Id) {
    exists i :: 0 <= i < |s| && s[i].id == id
  }

  ghost predicate DistinctIds<Id>(s: seq<Item<Id>>) {
    forall i, j :: 0 <= i < j < |s| ==> s[i].id != s[j].id
  }

  /** Ranks are strictly smaller in left children and no larger in right children. */
  ghost predicate RankOrdered<Id>(t: Tree<Id>) {
    match t
    case Nil => true
    case Node(l, x, r) =>
      && RankOrdered(l) && RankOrdered(r)
      && (l.Node? ==> l.item.rank < x.rank)
      && (r.Node? ==> r.item.rank <= x.rank)
  }

  ghost predicate ValidTree<Id>(t: Tree<Id>) {
    Sorted(InOrder(t)) && RankOrdered(t)
  }

  // ---------- The operations ----------

  /** The recursion of `__ZIP_INSERT`: `e` bubbles up until an ancestor outranks it. */
  function Insert<Id(==)>(t: Tree<Id>, e: Item<Id>): (t': Tree<Id>)
    ensures t'.Node?
  {
    match t
    case Nil => Node(Nil, e, Nil)
    case Node(l, x, r) =>
      if e.key < x.key then
        var l' := Insert(l, e);
        if l'.item.id == e.id && !(e.rank < x.rank) then Node(l'.left, e, Node(l'.right, x, r))
        else Node(l', x, r)
      else
        var r' := Insert(r, e);
        if r'.item.id == e.id && !(e.rank <= x.rank) then Node(Node(l, x, r'.left), e, r'.right)
        else Node(l, x, r')
  }

  /** `__ZIP`: merges two subtrees along the right spine of `x` and the left spine of `y`. */
  function Zip<Id>(x: Tree<Id>, y: Tree<Id>): Tree<Id>
    decreases x, y
  {
    if x.Nil? then y
    else if y.Nil? then x
    else if x.item.rank < y.item.rank then Node(Zip(x, y.left), y.item, y.right)
    else Node(x.left, x.item, Zip(x.right, y))
  }

  /** The recursion of `__ZIP_REMOVE`; an equal key probes both sides. */
  function Remove<Id(==)>(t: Tree<Id>, e: Item<Id>): Tree<Id>
    requires t.Node?
  {
    var Node(l, x, r) := t;
    if x.id == e.id then Zip(l, r)
    else if e.key < x.key then (if l.Node? then Node(Remove(l, e), x, r) else t)
    else if e.key > x.key then (if r.Node? then Node(l, x, Remove(r, e)) else t)
    else Node(if l.Node? then Remove(l, e) else l, x, if r.Node? then Remove(r, e) else r)
  }

  /** `__ZIP_FIND`, returning the subtree whose root the header returns. */
  function Find<Id>(t: Tree<Id>, key: int): Tree<Id> {
    match t
    case Nil => Nil
    case Node(l, x, r) =>
      if key == x.key then t else if key < x.key then Find(l, key) else Find(r, key)
  }

  // ---------- Reference definitions on sequences ----------

  /** The slot right after the last element whose key is not greater than `key`. */
  ghost function Slot<Id>(s: seq<Item<Id>>, key: int): (p: nat)
    ensures p <= |s|
  {
    if s == [] || s[|s| - 1].key <= key then |s| else Slot(s[..|s| - 1], key)
  }

  /** Stable sorted insertion. */
  ghost function Place<Id>(s: seq<Item<Id>>, e: Item<Id>): seq<Item<Id>> {
    Put(s, Slot(s, e.key), e)
  }

  function Put<Id>(s: seq<Item<Id>>, p: nat, e: Item<Id>): seq<Item<Id>>
    requires p <= |s|
  {
    s[..p] + [e] + s[p..]
  }

  /** The sequence without the first element called `id`. */
  function Without<Id(==)>(s: seq<Item<Id>>, id: Id): seq<Item<Id>> {
    if s == [] then [] else if s[0].id == id then s[1..] else [s[0]] + Without(s[1..], id)
  }

  /** The leftmost position of largest rank. */
  ghost function Summit<Id>(s: seq<Item<Id>>): (p: nat)
    requires s != []
    ensures p < |s|
  {
    if |s| == 1 then 0
    else
      var q := Summit(s[..|s| - 1]);
      if s[q].rank < s[|s| - 1].rank then |s| - 1 else q
  }

  /** The one shape that a sequence of ranked items may take: split at the summit. */
  ghost function Canonical<Id>(s: seq<Item<Id>>): Tree<Id>
    decreases |s|
  {
    if s == [] then Nil
    else
      var p := Summit(s);
      Node(Canonical(s[..p]), s[p], Canonical(s[p + 1..]))
  }

  // ---------- Canonical form ----------

  ghost predicate Outranked<Id>(s: seq<Item<Id>>, bound: int) {
    forall i :: 0 <= i < |s| ==> s[i].rank <= bound
  }

  /** In a rank-ordered tree the root outranks everything below it. */
  lemma {:induction false} RootOutranks<Id>(t: Tree<Id>)
    requires RankOrdered(t) && t.Node?
    ensures Outranked(InOrder(t.left), t.item.rank - 1)
    ensures Outranked(InOrder(t.right), t.item.rank)
    ensures Outranked(InOrder(t), t.item.rank)
  {
    if t.left.Node? { RootOutranks(t.left); }
    if t.right.Node? { RootOutranks(t.right); }
  }

  lemma {:induction false} SummitIsHighest<Id>(s: seq<Item<Id>>)
    requires s != []
    ensures var p := Summit(s);
      && (forall i :: 0 <= i < p ==> s[i].rank < s[p].rank)
      && (forall i :: p <= i < |s| ==> s[i].rank <= s[p].rank)
  {
    if |s| > 1 { SummitIsHighest(s[..|s| - 1]); }
  }

  lemma SummitIs<Id>(s: seq<Item<Id>>, p: nat)
    requires p < |s|
    requires forall i :: 0 <= i < p ==> s[i].rank < s[p].rank
    requires forall i :: p <= i < |s| ==> s[i].rank <= s[p].rank
    ensures Summit(s) == p
  {
    SummitIsHighest(s);
    var q := Summit(s);
    assert s[q].rank <= s[p].rank <= s[q].rank;
  }

  /** Every rank-ordered tree is the canonical tree of its in-order sequence. */
  lemma {:induction false} RankOrderedIsCanonical<Id>(t: Tree<Id>)
    requires RankOrdered(t)
    ensures t == Canonical(InOrder(t))
  {
    if t.Node? {
      var s, p := InOrder(t), |InOrder(t.left)|;
      RootOutranks(t);
      assert s[..p] == InOrder(t.left) && s[p] == t.item && s[p + 1..] == InOrder(t.right);
      forall i | 0 <= i < p ensures s[i].rank < s[p].rank { assert s[i] == InOrder(t.left)[i]; }
      SummitIs(s, p);
      RankOrderedIsCanonical(t.left);
      RankOrderedIsCanonical(t.right);
    }
  }

  lemma {:induction false} CanonicalIsRankOrdered<Id>(s: seq<Item<Id>>)
    ensures InOrder(Canonical(s)) == s && RankOrdered(Canonical(s))
    decreases |s|
  {
    if s != [] {
      var p := Summit(s);
      var a, b := s[..p], s[p + 1..];
      CanonicalIsRankOrdered(a);
      CanonicalIsRankOrdered(b);
      SummitOutranks(s);
      CanonicalOutranked(a, s[p].rank - 1);
      CanonicalOutranked(b, s[p].rank);
      SplitAt(s, p);
    }
  }

  lemma SplitAt<T>(s: seq<T>, p: nat)
    requires p < |s|
    ensures s[..p] + [s[p]] + s[p + 1..] == s
  {}

  lemma SummitOutranks<Id>(s: seq<Item<Id>>)
    requires s != []
    ensures var p := Summit(s); Outranked(s[..p], s[p].rank - 1) && Outranked(s[p + 1..], s[p].rank)
  {
    SummitIsHighest(s);
  }

  lemma CanonicalOutranked<Id>(s: seq<Item<Id>>, bound: int)
    requires Outranked(s, bound)
    ensures Canonical(s).Node? ==> Canonical(s).item.rank <= bound
  {}

  /** A tree is rank-ordered exactly when it is the canonical tree of its in-order sequence. */
  lemma CanonicalForm<Id>(t: Tree<Id>)
    ensures RankOrdered(t) <==> t == Canonical(InOrder(t))
  {
    CanonicalIsRankOrdered(InOrder(t));
    if RankOrdered(t) { RankOrderedIsCanonical(t); }
  }

  // ---------- Insert ----------

  /** `Slot` is the only place that keeps the order and follows every equal key. */
  lemma {:induction false} SlotIs<Id>(s: seq<Item<Id>>, key: int, p: nat)
    requires p <= |s|
    requires forall i :: p <= i < |s| ==> s[i].key > key
    requires p == 0 || s[p - 1].key <= key
    ensures Slot(s, key) == p
  {
    if p < |s| { SlotIs(s[..|s| - 1], key, p); }
  }

  lemma {:induction false} SlotSplits<Id>(s: seq<Item<Id>>, key: int)
    ensures var p := Slot(s, key);
      && (forall i :: p <= i < |s| ==> s[i].key > key)
      && (p == 0 || s[p - 1].key <= key)
  {
    if s != [] && s[|s| - 1].key > key {
      SlotSplits(s[..|s| - 1], key);
    }
  }

  lemma PlaceKeepsSorted<Id>(s: seq<Item<Id>>, e: Item<Id>)
    requires Sorted(s)
    ensures Sorted(Place(s, e))
    ensures multiset(Place(s, e)) == multiset(s) + multiset{e}
  {
    SlotSplits(s, e.key);
    var p := Slot(s, e.key);
    PutKeepsSorted(s, p, e);
    PutAdds(s, p, e);
  }

  lemma PutAdds<Id>(s: seq<Item<Id>>, p: nat, e: Item<Id>)
    requires p <= |s|
    ensures multiset(Put(s, p, e)) == multiset(s) + multiset{e}
  {
    assert s == s[..p] + s[p..];
  }

  lemma PutKeepsSorted<Id>(s: seq<Item<Id>>, p: nat, e: Item<Id>)
    requires Sorted(s) && p <= |s|
    requires p == 0 || s[p - 1].key <= e.key
    requires p == |s| || e.key <= s[p].key
    ensures Sorted(Put(s, p, e))
  {
    var s' := Put(s, p, e);
    forall i, j | 0 <= i < j < |s'| ensures s'[i].key <= s'[j].key {
      var i' := if i < p then i else i - 1;
      var j' := if j < p then j else j - 1;
      assert i < p ==> s'[i] == s[i] && s[i].key <= s[p - 1].key;
      assert i > p ==> s'[i] == s[i - 1];
      assert j < p ==> s'[j] == s[j];
      assert j > p ==> s'[j] == s[j - 1] && s[p].key <= s[j - 1].key;
    }
  }

  /** Both sides of an in-order sequence are sorted, and its middle stands between them. */
  lemma SidesOrdered<Id>(a: seq<Item<Id>>, x: Item<Id>, b: seq<Item<Id>>)
    requires Sorted(a + [x] + b)
    ensures Sorted(a) && Sorted(b)
    ensures forall i :: 0 <= i < |a| ==> a[i].key <= x.key
    ensures forall i :: 0 <= i < |b| ==> x.key <= b[i].key
  {
    var s := a + [x] + b;
    assert s[|a|] == x;
    forall i, j | 0 <= i < j < |a| ensures a[i].key <= a[j].key { assert s[i].key <= s[j].key; }
    forall i, j | 0 <= i < j < |b| ensures b[i].key <= b[j].key {
      assert s[|a| + 1 + i].key <= s[|a| + 1 + j].key;
    }
    forall i | 0 <= i < |a| ensures a[i].key <= x.key { assert s[i].key <= s[|a|].key; }
    forall i | 0 <= i < |b| ensures x.key <= b[i].key { assert s[|a|].key <= s[|a| + 1 + i].key; }
  }

  /** The slot in a tree's sequence is on the side that the comparison with the root selects. */
  lemma SlotInside<Id>(a: seq<Item<Id>>, x: Item<Id>, b: seq<Item<Id>>, key: int)
    requires Sorted(a + [x] + b)
    ensures Slot(a + [x] + b, key) == if key < x.key then Slot(a, key) else |a| + 1 + Slot(b, key)
  {
    var s := a + [x] + b;
    assert s[|a|] == x;
    SlotSplits(a, key);
    SlotSplits(b, key);
    SlotIs(s, key, if key < x.key then Slot(a, key) else |a| + 1 + Slot(b, key));
  }

  /** Whether the new element surfaces or not, the in-order sequence only changes inside the chosen side. */
  lemma InsertInside<Id>(l: Tree<Id>, x: Item<Id>, r: Tree<Id>, e: Item<Id>)
    requires !HasId(InOrder(l), e.id) && !HasId(InOrder(r), e.id)
    ensures InOrder(Insert(Node(l, x, r), e)) ==
            if e.key < x.key then InOrder(Insert(l, e)) + [x] + InOrder(r)
            else InOrder(l) + [x] + InOrder(Insert(r, e))
  {
    if e.key < x.key {
      InsertRoot(l, e);
      RotateSameOrder(Insert(l, e).left, Insert(l, e).item, Insert(l, e).right, x, r);
    } else {
      InsertRoot(r, e);
      RotateSameOrder(l, x, Insert(r, e).left, Insert(r, e).item, Insert(r, e).right);
    }
  }

  lemma Regroup<T>(a: seq<T>, x: T, b: seq<T>, y: T, c: seq<T>)
    ensures (a + [x] + b) + [y] + c == a + [x] + (b + [y] + c)
  {}

  /** Handing a subtree across a link leaves the in-order sequence alone. */
  lemma RotateSameOrder<Id>(a: Tree<Id>, x: Item<Id>, b: Tree<Id>, y: Item<Id>, c: Tree<Id>)
    ensures InOrder(Node(Node(a, x, b), y, c)) == InOrder(Node(a, x, Node(b, y, c)))
  {
    Regroup(InOrder(a), x, InOrder(b), y, InOrder(c));
  }

  /** Insertion refines stable sorted insertion of the in-order sequence. */
  lemma {:induction false} InsertPlaces<Id>(t: Tree<Id>, e: Item<Id>)
    requires Sorted(InOrder(t)) && !HasId(InOrder(t), e.id)
    ensures InOrder(Insert(t, e)) == Place(InOrder(t), e)
  {
    if t.Node? {
      var a, x, b := InOrder(t.left), t.item, InOrder(t.right);
      SidesLack(a, x, b, e.id);
      SidesOrdered(a, x, b);
      SlotInside(a, x, b, e.key);
      InsertInside(t.left, x, t.right, e);
      if e.key < x.key {
        InsertPlaces(t.left, e);
        PutLeft(a, x, b, Slot(a, e.key), e);
      } else {
        InsertPlaces(t.right, e);
        PutRight(a, x, b, Slot(b, e.key), e);
      }
    }
  }

  lemma PutLeft<Id>(a: seq<Item<Id>>, x: Item<Id>, b: seq<Item<Id>>, p: nat, e: Item<Id>)
    requires p <= |a|
    ensures Put(a + [x] + b, p, e) == Put(a, p, e) + [x] + b
  {}

  lemma PutRight<Id>(a: seq<Item<Id>>, x: Item<Id>, b: seq<Item<Id>>, q: nat, e: Item<Id>)
    requires q <= |b|
    ensures Put(a + [x] + b, |a| + 1 + q, e) == a + [x] + Put(b, q, e)
  {}

  /** A name that the whole does not have, no part has. */
  lemma SidesLack<Id>(a: seq<Item<Id>>, x: Item<Id>, b: seq<Item<Id>>, id: Id)
    requires !HasId(a + [x] + b, id)
    ensures !HasId(a, id) && x.id != id && !HasId(b, id)
  {
    var s := a + [x] + b;
    assert s[|a|] == x;
    forall i | 0 <= i < |a| ensures a[i].id != id { assert s[i] == a[i]; }
    forall i | 0 <= i < |b| ensures s[|a| + 1 + i] == b[i] && b[i].id != id {}
  }

  /** The root after an insertion is the old root or the new element; nothing else surfaces. */
  lemma {:induction false} InsertRoot<Id>(t: Tree<Id>, e: Item<Id>)
    requires !HasId(InOrder(t), e.id)
    ensures Insert(t, e).item.id == e.id ==> Insert(t, e).item == e
    ensures t.Node? && Insert(t, e).item.id != e.id ==> Insert(t, e).item == t.item
  {
    if t.Node? {
      assert InOrder(t)[|InOrder(t.left)|] == t.item;
      assert t.item.id != e.id;
    }
  }

  lemma {:induction false} InsertKeepsRankOrder<Id>(t: Tree<Id>, e: Item<Id>)
    requires RankOrdered(t) && !HasId(InOrder(t), e.id)
    ensures RankOrdered(Insert(t, e))
    ensures var t' := Insert(t, e);
      t'.item == e ==>
        && (t'.left.Node? ==> t.Node? && t'.left.item.rank <= t.item.rank)
        && (t'.right.Node? ==> t.Node? && t'.right.item.rank <= t.item.rank)
  {
    if t.Node? {
      SidesLack(InOrder(t.left), t.item, InOrder(t.right), e.id);
      var c := if e.key < t.item.key then t.left else t.right;
      InsertKeepsRankOrder(c, e);
      InsertRoot(c, e);
    }
  }

  /** Insertion, down to the exact tree. */
  lemma InsertIsCanonical<Id>(t: Tree<Id>, e: Item<Id>)
    requires ValidTree(t) && !HasId(InOrder(t), e.id)
    ensures Insert(t, e) == Canonical(Place(InOrder(t), e))
    ensures ValidTree(Insert(t, e))
  {
    InsertPlaces(t, e);
    InsertKeepsRankOrder(t, e);
    PlaceKeepsSorted(InOrder(t), e);
    CanonicalForm(Insert(t, e));
  }

  // ---------- Zip and remove ----------

  /** Zipping concatenates, keeps the rank order, and surfaces the higher root, the left one on a tie. */
  lemma {:induction false} ZipConcatenates<Id>(x: Tree<Id>, y: Tree<Id>)
    requires RankOrdered(x) && RankOrdered(y)
    ensures InOrder(Zip(x, y)) == InOrder(x) + InOrder(y)
    ensures RankOrdered(Zip(x, y))
    ensures x.Node? && y.Node? ==>
      Zip(x, y).Node? && Zip(x, y).item == if x.item.rank < y.item.rank then y.item else x.item
    decreases x, y
  {
    if x.Node? && y.Node? {
      if x.item.rank < y.item.rank {
        ZipConcatenates(x, y.left);
        RegroupLeft(InOrder(x), InOrder(y.left), y.item, InOrder(y.right));
      } else {
        ZipConcatenates(x.right, y);
        RegroupRight(InOrder(x.left), x.item, InOrder(x.right), InOrder(y));
      }
    }
  }

  lemma RegroupLeft<T>(a: seq<T>, b: seq<T>, x: T, c: seq<T>)
    ensures a + (b + [x] + c) == (a + b) + [x] + c
  {}

  lemma RegroupRight<T>(a: seq<T>, x: T, b: seq<T>, c: seq<T>)
    ensures (a + [x] + b) + c == a + [x] + (b + c)
  {}

  /** Zipping two zip trees whose keys do not interleave gives a zip tree. */
  lemma ZipIsCanonical<Id>(x: Tree<Id>, y: Tree<Id>)
    requires ValidTree(x) && ValidTree(y)
    requires forall i, j :: 0 <= i < |InOrder(x)| && 0 <= j < |InOrder(y)| ==> InOrder(x)[i].key <= InOrder(y)[j].key
    ensures Zip(x, y) == Canonical(InOrder(x) + InOrder(y))
    ensures ValidTree(Zip(x, y))
  {
    ZipConcatenates(x, y);
    CanonicalForm(Zip(x, y));
  }

  lemma {:induction false} WithoutAbsent<Id>(s: seq<Item<Id>>, id: Id)
    requires !HasId(s, id)
    ensures Without(s, id) == s
  {
    if s != [] {
      assert s[0].id != id;
      forall i | 0 <= i < |s| - 1 ensures s[1..][i].id != id { assert s[1..][i] == s[i + 1]; }
      WithoutAbsent(s[1..], id);
    }
  }

  /** Exactly the element at `p` goes; every other element keeps its place in the order. */
  lemma {:induction false} WithoutAt<Id>(s: seq<Item<Id>>, p: nat)
    requires p < |s| && DistinctIds(s)
    ensures Without(s, s[p].id) == s[..p] + s[p + 1..]
  {
    if p > 0 {
      assert s[0].id != s[p].id;
      assert s[1..][p - 1] == s[p];
      WithoutAt(s[1..], p - 1);
      assert s[..p] + s[p + 1..] == [s[0]] + (s[1..][..p - 1] + s[1..][p..]);
    }
  }

  lemma {:induction false} WithoutAppend<Id>(a: seq<Item<Id>>, b: seq<Item<Id>>, id: Id)
    ensures HasId(a, id) ==> Without(a + b, id) == Without(a, id) + b
    ensures !HasId(a, id) ==> Without(a + b, id) == a + Without(b, id)
  {
    if a == [] {
      assert a + b == b;
    } else {
      assert (a + b)[1..] == a[1..] + b;
      HasIdTail(a, id);
      WithoutAppend(a[1..], b, id);
    }
  }

  lemma HasIdTail<Id>(a: seq<Item<Id>>, id: Id)
    requires a != []
    ensures HasId(a, id) <==> a[0].id == id || HasId(a[1..], id)
  {
    if HasId(a[1..], id) {
      var i :| 0 <= i < |a[1..]| && a[1..][i].id == id;
      assert a[i + 1].id == id;
    }
    if HasId(a, id) && a[0].id != id {
      var i :| 0 <= i < |a| && a[i].id == id;
      assert a[1..][i - 1].id == id;
    }
  }

  /** `e` is the entry called `e.id` wherever it occurs: it is read from the same memory. */
  ghost predicate Agrees<Id>(s: seq<Item<Id>>, e: Item<Id>) {
    forall i :: 0 <= i < |s| && s[i].id == e.id ==> s[i].key == e.key
  }

  /** Parts of a sequence inherit its distinct names and its agreement with `e`. */
  lemma PartInherits<Id>(s: seq<Item<Id>>, lo: nat, c: seq<Item<Id>>, e: Item<Id>)
    requires lo + |c| <= |s| && c == s[lo..lo + |c|]
    requires DistinctIds(s) && Agrees(s, e)
    ensures DistinctIds(c) && Agrees(c, e)
  {
    forall i | 0 <= i < |c| ensures c[i] == s[lo + i] {}
  }

  /** Where an element can be: not beside its own place, nor on the side that the comparison with the root skips. */
  lemma SidesOf<Id>(a: seq<Item<Id>>, x: Item<Id>, b: seq<Item<Id>>, e: Item<Id>)
    requires var s := a + [x] + b; Sorted(s) && DistinctIds(s) && Agrees(s, e)
    ensures Sorted(a) && DistinctIds(a) && Agrees(a, e) && Sorted(b) && DistinctIds(b) && Agrees(b, e)
    ensures e.id == x.id ==> !HasId(a, e.id) && !HasId(b, e.id)
    ensures e.key < x.key ==> !HasId(b, e.id)
    ensures e.key > x.key ==> !HasId(a, e.id)
    ensures HasId(a, e.id) ==> !HasId(b, e.id)
  {
    var s := a + [x] + b;
    SidesOrdered(a, x, b);
    PartInherits(s, 0, a, e);
    PartInherits(s, |a| + 1, b, e);
    assert s[|a|] == x;
    forall i | 0 <= i < |a| ensures a[i] == s[i] {}
    forall i | 0 <= i < |b| ensures b[i] == s[|a| + 1 + i] {}
  }

  lemma WithoutCons<Id>(x: Item<Id>, b: seq<Item<Id>>, id: Id)
    ensures Without([x] + b, id) == if x.id == id then b else [x] + Without(b, id)
  {
    assert ([x] + b)[1..] == b;
  }

  /** `Without` goes to the side that holds the element, if any. */
  lemma WithoutInside<Id>(a: seq<Item<Id>>, x: Item<Id>, b: seq<Item<Id>>, id: Id)
    requires HasId(a, id) ==> !HasId(b, id)
    requires x.id == id ==> !HasId(a, id) && !HasId(b, id)
    ensures Without(a + [x] + b, id) ==
            if x.id == id then a + b else Without(a, id) + [x] + Without(b, id)
  {
    var c := [x] + b;
    assert a + [x] + b == a + c;
    WithoutAppend(a, c, id);
    WithoutCons(x, b, id);
    if HasId(a, id) {
      WithoutAbsent(b, id);
      assert Without(a, id) + c == Without(a, id) + [x] + b;
    } else {
      WithoutAbsent(a, id);
      assert x.id != id ==> a + ([x] + Without(b, id)) == a + [x] + Without(b, id);
    }
  }

  /** Removal takes out exactly the given element, under duplicate keys too. */
  lemma {:induction false} RemoveTakesOut<Id>(t: Tree<Id>, e: Item<Id>)
    requires t.Node? && ValidTree(t) && DistinctIds(InOrder(t)) && Agrees(InOrder(t), e)
    ensures InOrder(Remove(t, e)) == Without(InOrder(t), e.id)
    ensures RankOrdered(Remove(t, e))
    ensures Remove(t, e).Node? ==> Remove(t, e).item.rank <= t.item.rank
  {
    var a, x, b := InOrder(t.left), t.item, InOrder(t.right);
    SidesOf(a, x, b, e);
    WithoutInside(a, x, b, e.id);
    if x.id == e.id {
      ZipConcatenates(t.left, t.right);
    } else {
      if t.left.Node? { RemoveTakesOut(t.left, e); }
      if t.right.Node? { RemoveTakesOut(t.right, e); }
      RemoveInside(t.left, x, t.right, e);
      RemoveShape(t.left, x, t.right, e);
    }
  }

  /** Skipping a side, as the LESS and MORE branches do, is the same as searching it in vain. */
  lemma RemoveInside<Id>(l: Tree<Id>, x: Item<Id>, r: Tree<Id>, e: Item<Id>)
    requires x.id != e.id
    requires e.key < x.key ==> !HasId(InOrder(r), e.id)
    requires e.key > x.key ==> !HasId(InOrder(l), e.id)
    requires l.Node? ==> InOrder(Remove(l, e)) == Without(InOrder(l), e.id)
    requires r.Node? ==> InOrder(Remove(r, e)) == Without(InOrder(r), e.id)
    ensures InOrder(Remove(Node(l, x, r), e)) == Without(InOrder(l), e.id) + [x] + Without(InOrder(r), e.id)
  {
    RemoveShape(l, x, r, e);
    if e.key < x.key { WithoutAbsent(InOrder(r), e.id); }
    if e.key > x.key { WithoutAbsent(InOrder(l), e.id); }
  }

  lemma RemoveShape<Id>(l: Tree<Id>, x: Item<Id>, r: Tree<Id>, e: Item<Id>)
    requires x.id != e.id
    ensures Remove(Node(l, x, r), e) ==
            Node(if e.key > x.key || l.Nil? then l else Remove(l, e), x,
                 if e.key < x.key || r.Nil? then r else Remove(r, e))
  {}
}
