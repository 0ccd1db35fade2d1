/**
 A pushed batch, from the parsed message to the values of the server's nodes:
 `ParseNorthMsgItemVal` and `WriteItemValToOpcUaServerNode`.
 */
module PushedData {
  import opened NodeAddress

  /** A member value of a pushed item: a JSON scalar with the text that the JSON library gives for it. */
  datatype Scalar = Text(text: string) | Boolean(b: bool) | Null | Real(text: string) | Number(text: string)

  /** A pushed item: a JSON object from item ids to values. */
  type Item = map<string, Scalar>

  function TextOf(v: Scalar): string {
    match v
    case Boolean(b) => if b then "1" else "0"
    case Null => "0"
    case _ => v.text
  }

  function TextsOf(item: Item): (texts: map<string, string>)
    ensures texts.Keys == item.Keys
  {
    map k | k in item :: TextOf(item[k])
  }

  // ---------- The order in which std::map visits its keys ----------

  predicate Less(a: string, b: string) {
    b != [] && (a == [] || a[0] < b[0] || (a[0] == b[0] && Less(a[1..], b[1..])))
  }

  lemma {:induction false} LessTotal(a: string, b: string)
    ensures a == b || Less(a, b) || Less(b, a)
    ensures !(Less(a, b) && Less(b, a)) && !Less(a, a)
  {
    if a != [] && b != [] && a[0] == b[0] {
      LessTotal(a[1..], b[1..]);
      assert a == [a[0]] + a[1..] && b == [b[0]] + b[1..];
    }
    if a != [] { LessTotal(a[1..], a[1..]); }
  }

  lemma {:induction false} LessTransitive(a: string, b: string, c: string)
    requires Less(a, b) && Less(b, c)
    ensures Less(a, c)
  {
    if a != [] && a[0] == b[0] && b[0] == c[0] { LessTransitive(a[1..], b[1..], c[1..]); }
  }

  /** The first difference decides. */
  lemma {:induction false} LessAtDifference(p: string, c: char, s: string, d: char, t: string)
    requires c < d
    ensures Less(p + [c] + s, p + [d] + t)
  {
    var a, b := p + [c] + s, p + [d] + t;
    if p != [] {
      assert a[1..] == p[1..] + [c] + s && b[1..] == p[1..] + [d] + t;
      LessAtDifference(p[1..], c, s, d, t);
    }
  }

  /** A proper prefix comes first. */
  lemma {:induction false} LessThanExtension(p: string, s: string)
    requires s != []
    ensures Less(p, p + s)
  {
    if p != [] {
      assert (p + s)[1..] == p[1..] + s;
      LessThanExtension(p[1..], s);
    }
  }

  ghost predicate IsLeast(k: string, keys: set<string>) {
    k in keys && forall x :: x in keys && x != k ==> Less(k, x)
  }

  lemma {:induction false} LeastExists(keys: set<string>) returns (k: string)
    requires keys != {}
    ensures IsLeast(k, keys)
    decreases |keys|
  {
    var x :| x in keys;
    if keys == {x} {
      k := x;
    } else {
      var rest := keys - {x};
      var y := LeastExists(rest);
      LessTotal(x, y);
      k := if Less(x, y) then x else y;
      forall z | z in keys && z != k ensures Less(k, z) {
        if k == x && z != y { LessTransitive(x, y, z); }
      }
    }
  }

  // ---------- What a batch means ----------

  /** The values of a batch: items later in the message override earlier ones. */
  function Batch(items: seq<Item>): map<string, string> {
    if items == [] then map[] else Batch(items[..|items| - 1]) + TextsOf(items[|items| - 1])
  }

  ghost predicate LastMention(items: seq<Item>, k: string, i: int) {
    0 <= i < |items| && k in items[i] && forall j :: i < j < |items| ==> k !in items[j]
  }

  /** An item id is in the batch exactly when some item mentions it, with the text of its last mention. */
  lemma {:induction false} LastMentionWins(items: seq<Item>, k: string)
    ensures k in Batch(items) <==> exists i :: LastMention(items, k, i)
    ensures forall i :: LastMention(items, k, i) ==> k in Batch(items) && Batch(items)[k] == TextOf(items[i][k])
  {
    if items != [] {
      var n := |items| - 1;
      LastMentionWins(items[..n], k);
      if k in items[n] {
        assert LastMention(items, k, n);
      } else {
        forall i ensures LastMention(items, k, i) <==> LastMention(items[..n], k, i) {
          assert forall j :: 0 <= j < n ==> items[..n][j] == items[j];
        }
      }
    }
  }

  lemma {:induction false} BatchHas(items: seq<Item>, k: string)
    ensures k in Batch(items) <==> exists i :: 0 <= i < |items| && k in items[i]
  {
    if items != [] {
      var n := |items| - 1;
      BatchHas(items[..n], k);
      assert forall i :: 0 <= i < n ==> items[..n][i] == items[i];
    }
  }

  /** Id `k` has a value when some item mentions it, and the value is what the kind of its last mention reads as. */
  ghost predicate ReadsLast(values: map<string, string>, items: seq<Item>, k: string) {
    && (k in values <==> exists i :: 0 <= i < |items| && k in items[i])
    && forall i :: 0 <= i < |items| && k in items[i] && (forall j :: i < j < |items| ==> k !in items[j]) ==>
         && k in values
         && (items[i][k] == Boolean(true) ==> values[k] == "1")
         && (items[i][k] == Boolean(false) || items[i][k] == Null ==> values[k] == "0")
         && (items[i][k].Text? || items[i][k].Real? || items[i][k].Number? ==> values[k] == items[i][k].text)
  }

  lemma BatchReads(items: seq<Item>, k: string)
    ensures ReadsLast(Batch(items), items, k)
  {
    BatchHas(items, k);
    LastMentionWins(items, k);
    var values := Batch(items);
    forall i | LastMention(items, k, i) ensures k in values && values[k] == TextOf(items[i][k]) {}
  }

  /** `m[k]` on a std::map of strings: a missing key reads as the empty string, and is inserted with it. */
  function Lookup(m: map<string, string>, k: string): string {
    if k in m then m[k] else ""
  }

  function Touched(m: map<string, string>, k: string): map<string, string> {
    if k in m then m else m[k := ""]
  }

  /** The library's conversions: to a double, and of texts that are no numerals. */
  datatype Library<V> = Library(toDouble: string -> V, leftover: Leftover)

  datatype Target = NoNode | Node(ns: nat, id: nat)

  /** The node that an item id writes: only links whose text is typed "Double" count. */
  function TargetOf(links: map<string, string>, types: map<string, string>, leftover: Leftover, k: string): Target {
    var text := Lookup(links, k);
    if Lookup(types, text) == "Double" then var (ns, id) := Address(text, leftover); Node(ns, id) else NoNode
  }

  /** Item id `k` is linked to a text that is typed "Double" and names the node with address `a`. */
  ghost predicate LinkedTo(links: map<string, string>, types: map<string, string>, leftover: Leftover,
                           k: string, a: (nat, nat)) {
    var text := if k in links then links[k] else "";
    text in types && types[text] == "Double" && Address(text, leftover) == a
  }

  lemma TargetIs(links: map<string, string>, types: map<string, string>, leftover: Leftover, k: string, a: (nat, nat))
    ensures TargetOf(links, types, leftover, k) == Node(a.0, a.1) <==> LinkedTo(links, types, leftover, k, a)
  {}

  /** Typed links are links to the node of their text, others to none; a link to an id without one reads as empty. */
  lemma DoubleLinks(links: map<string, string>, types: map<string, string>, leftover: Leftover, k: string)
    ensures k in links && links[k] in types && types[links[k]] == "Double" ==>
              var (ns, id) := Address(links[k], leftover);
              TargetOf(links, types, leftover, k) == Node(ns, id) && LinkedTo(links, types, leftover, k, (ns, id))
    ensures k in links && (links[k] !in types || types[links[k]] != "Double") ==>
              TargetOf(links, types, leftover, k) == NoNode && forall a :: !LinkedTo(links, types, leftover, k, a)
    ensures k !in links && "" !in types ==>
              TargetOf(links, types, leftover, k) == NoNode && forall a :: !LinkedTo(links, types, leftover, k, a)
  {}

  /** The first link of the repository's own table. */
  lemma FirstLink(leftover: Leftover)
    ensures TargetOf(map["0x80000000" := "2:6005"], map["2:6005" := "Double"], leftover, "0x80000000") == Node(2, 6005)
  {
    LinkedAddress(leftover);
  }

  /** Of the item ids that write node `a`, `k` is the largest. */
  ghost predicate Wins(keys: set<string>, target: string -> Target, a: Target, k: string) {
    k in keys && target(k) == a && forall x :: x in keys && target(x) == a && x != k ==> Less(x, k)
  }

  /** Some id wins every node that is written at all. */
  lemma {:induction false} WinnerExists(keys: set<string>, target: string -> Target, a: Target, k: string)
    returns (w: string)
    requires k in keys && target(k) == a
    ensures Wins(keys, target, a, w)
    decreases |keys|
  {
    var least := LeastExists(keys);
    var rest := keys - {least};
    if exists x :: x in rest && target(x) == a {
      var x :| x in rest && target(x) == a;
      w := WinnerExists(rest, target, a, x);
      assert Less(least, w);
    } else {
      w := k;
    }
  }

  /** After the writes of `keys`: every written node has its winner's value, every other node is as it was. */
  ghost predicate Written<V>(nodes: map<Target, V>, before: map<Target, V>, values: map<string, string>,
                             keys: set<string>, target: string -> Target, toDouble: string -> V)
    requires keys <= values.Keys
  {
    && (forall a: Target, k: string :: a != NoNode && Wins(keys, target, a, k) ==>
          a in nodes && nodes[a] == toDouble(values[k]))
    && (forall a: Target :: a == NoNode || (forall k: string :: k in keys ==> target(k) != a) ==>
          (a in nodes <==> a in before) && (a in nodes ==> nodes[a] == before[a]))
  }

  /** Writing the next larger item id makes it the winner of its node. */
  lemma WrittenStep<V>(nodes: map<Target, V>, before: map<Target, V>, values: map<string, string>,
                       keys: set<string>, target: string -> Target, toDouble: string -> V, k: string)
    requires keys <= values.Keys && k in values && k !in keys && forall x :: x in keys ==> Less(x, k)
    requires Written(nodes, before, values, keys, target, toDouble)
    ensures var nodes' := if target(k) == NoNode then nodes else nodes[target(k) := toDouble(values[k])];
      Written(nodes', before, values, keys + {k}, target, toDouble)
  {
    var nodes' := if target(k) == NoNode then nodes else nodes[target(k) := toDouble(values[k])];
    forall a: Target, w: string | a != NoNode && Wins(keys + {k}, target, a, w)
      ensures a in nodes' && nodes'[a] == toDouble(values[w])
    {
      LessTotal(w, k);
      if a != target(k) { assert Wins(keys, target, a, w); }
    }
  }

  /** Every id that is written comes before every id that is not yet written. */
  ghost predicate InTurn(written: set<string>, rest: set<string>) {
    forall x, y :: x in written && y in rest ==> Less(x, y)
  }

  /** Writing the least of the ids that remain. */
  lemma LeastWritten<V>(nodes: map<Target, V>, before: map<Target, V>, values: map<string, string>, rest: set<string>,
                        target: string -> Target, toDouble: string -> V, k: string)
    requires rest <= values.Keys && IsLeast(k, rest) && InTurn(values.Keys - rest, rest)
    requires Written(nodes, before, values, values.Keys - rest, target, toDouble)
    ensures InTurn(values.Keys - (rest - {k}), rest - {k})
    ensures var nodes' := if target(k) == NoNode then nodes else nodes[target(k) := toDouble(values[k])];
      Written(nodes', before, values, values.Keys - (rest - {k}), target, toDouble)
  {
    WrittenStep(nodes, before, values, values.Keys - rest, target, toDouble, k);
    assert values.Keys - rest + {k} == values.Keys - (rest - {k});
  }

  /** The writes have a result for all batches. */
  lemma WrittenExists<V>(before: map<Target, V>, values: map<string, string>,
                         target: string -> Target, toDouble: string -> V) returns (nodes: map<Target, V>)
    ensures Written(nodes, before, values, values.Keys, target, toDouble)
  {
    nodes := before;
    var rest := values.Keys;
    while rest != {}
      invariant rest <= values.Keys && InTurn(values.Keys - rest, rest)
      invariant Written(nodes, before, values, values.Keys - rest, target, toDouble)
      decreases |rest|
    {
      var k := LeastExists(rest);
      LeastWritten(nodes, before, values, rest, target, toDouble, k);
      nodes := if target(k) == NoNode then nodes else nodes[target(k) := toDouble(values[k])];
      rest := rest - {k};
    }
    assert values.Keys - {} == values.Keys;
  }

  /** A handled push, in terms of the message: the last mention of the largest id that writes a node sets it. */
  lemma PushMeaning<V>(nodes: map<Target, V>, before: map<Target, V>, items: seq<Item>,
                       target: string -> Target, toDouble: string -> V, a: Target, k: string, i: nat)
    requires Written(nodes, before, Batch(items), Batch(items).Keys, target, toDouble)
    requires LastMention(items, k, i) && a != NoNode && target(k) == a
    ensures exists w :: Wins(Batch(items).Keys, target, a, w)
    ensures Wins(Batch(items).Keys, target, a, k) ==>
              var v := items[i][k];
              && a in nodes
              && (v == Boolean(true) ==> nodes[a] == toDouble("1"))
              && (v == Boolean(false) || v == Null ==> nodes[a] == toDouble("0"))
              && (v.Text? || v.Real? || v.Number? ==> nodes[a] == toDouble(v.text))
  {
    LastMentionWins(items, k);
    var w := WinnerExists(Batch(items).Keys, target, a, k);
  }

  /** Of the ids linked to the node with address `a`, `k` is the largest. */
  ghost predicate LargestLink(keys: set<string>, links: map<string, string>, types: map<string, string>,
                              leftover: Leftover, a: (nat, nat), k: string) {
    && k in keys && LinkedTo(links, types, leftover, k, a)
    && forall x :: x in keys && LinkedTo(links, types, leftover, x, a) && x != k ==> Less(x, k)
  }

  /** The node has the double of what `v` reads as. */
  ghost predicate Shows<V>(nodes: map<Target, V>, a: (nat, nat), v: Scalar, toDouble: string -> V) {
    var node := Node(a.0, a.1);
    && node in nodes
    && (v == Boolean(true) ==> nodes[node] == toDouble("1"))
    && (v == Boolean(false) || v == Null ==> nodes[node] == toDouble("0"))
    && (v.Text? || v.Real? || v.Number? ==> nodes[node] == toDouble(v.text))
  }

  ghost predicate Kept<V>(nodes: map<Target, V>, before: map<Target, V>, a: (nat, nat)) {
    var node := Node(a.0, a.1);
    (node in nodes <==> node in before) && (node in nodes ==> nodes[node] == before[node])
  }

  /**
   A handled push, at the node with address `a`: of the mentioned ids linked to it,
   the largest sets it to what its last mention reads as; without one it is kept.
   */
  ghost predicate PushedAt<V>(nodes: map<Target, V>, before: map<Target, V>, items: seq<Item>,
                              links: map<string, string>, types: map<string, string>, library: Library<V>,
                              a: (nat, nat)) {
    && (forall k, i ::
          LastMention(items, k, i) && LargestLink(Batch(items).Keys, links, types, library.leftover, a, k) ==>
          Shows(nodes, a, items[i][k], library.toDouble))
    && ((forall k, i :: LastMention(items, k, i) ==> !LinkedTo(links, types, library.leftover, k, a)) ==>
          Kept(nodes, before, a))
  }

  lemma PushOnMaps<V>(nodes: map<Target, V>, before: map<Target, V>, items: seq<Item>, target: string -> Target,
                      links: map<string, string>, types: map<string, string>, library: Library<V>)
    requires Written(nodes, before, Batch(items), Batch(items).Keys, target, library.toDouble)
    requires forall k :: target(k) == TargetOf(links, types, library.leftover, k)
    ensures forall a :: PushedAt(nodes, before, items, links, types, library, a)
  {
    var keys := Batch(items).Keys;
    forall a ensures PushedAt(nodes, before, items, links, types, library, a) {
      var node := Node(a.0, a.1);
      forall k ensures target(k) == node <==> LinkedTo(links, types, library.leftover, k, a) {
        TargetIs(links, types, library.leftover, k, a);
      }
      forall k, i | LastMention(items, k, i) && LargestLink(keys, links, types, library.leftover, a, k)
        ensures Shows(nodes, a, items[i][k], library.toDouble)
      {
        assert Wins(keys, target, node, k);
        PushMeaning(nodes, before, items, target, library.toDouble, node, k, i);
      }
      forall k ensures k in keys <==> exists i :: LastMention(items, k, i) { LastMentionWins(items, k); }
    }
  }

  /** The members of `item` named in `names` have been stored over `before`. */
  ghost predicate Stored(values: map<string, string>, before: map<string, string>, item: Item, names: set<string>) {
    && values.Keys == before.Keys + names && names <= item.Keys
    && forall k :: k in values ==> values[k] == if k in names then TextOf(item[k]) else before[k]
  }

  lemma StoredStep(values: map<string, string>, before: map<string, string>, item: Item,
                   names: set<string>, name: string)
    requires Stored(values, before, item, names) && name in item
    ensures Stored(values[name := TextOf(item[name])], before, item, names + {name})
  {}

  lemma StoredAll(values: map<string, string>, before: map<string, string>, item: Item)
    requires Stored(values, before, item, item.Keys)
    ensures values == before + TextsOf(item)
  {}

  ghost predicate SameLookups(m: map<string, string>, m': map<string, string>) {
    forall x :: Lookup(m, x) == Lookup(m', x)
  }

  lemma SameTarget(links: map<string, string>, links': map<string, string>,
                   types: map<string, string>, types': map<string, string>, leftover: Leftover, k: string)
    requires SameLookups(links, links') && SameLookups(types, types')
    ensures TargetOf(links, types, leftover, k) == TargetOf(links', types', leftover, k)
  {}

  // ---------- The code ----------

  class DataShare<V> {
    const library: Library<V>
    var nodeTypes: map<string, string>
    var itemLinks: map<string, string>
    var itemValues: map<string, string>
    /** The values of the OPC UA server's nodes. */
    var nodes: map<Target, V>

    constructor (library: Library<V>, nodeTypes: map<string, string>, itemLinks: map<string, string>,
                 nodes: map<Target, V>)
      ensures this.library == library && this.nodes == nodes
      ensures this.nodeTypes == nodeTypes && this.itemLinks == itemLinks
    {
      this.library, this.nodeTypes, this.itemLinks, this.nodes := library, nodeTypes, itemLinks, nodes;
      itemValues := map[];
    }

    /** The inner loop over the members of one object; their names are distinct, so their order does not matter. */
    method StoreMembers(item: Item)
      modifies `itemValues
      ensures itemValues == old(itemValues) + TextsOf(item)
      ensures forall k :: k in item ==>
                && k in itemValues
                && (item[k] == Boolean(true) ==> itemValues[k] == "1")
                && (item[k] == Boolean(false) || item[k] == Null ==> itemValues[k] == "0")
                && (item[k].Text? || item[k].Real? || item[k].Number? ==> itemValues[k] == item[k].text)
      ensures forall k :: k !in item ==>
                && (k in itemValues <==> k in old(itemValues))
                && (k in itemValues ==> itemValues[k] == old(itemValues)[k])
    {
      var members := item.Keys;
      ghost var before := itemValues;
      while members != {}
        invariant members <= item.Keys && Stored(itemValues, before, item, item.Keys - members)
        decreases |members|
      {
        var name :| name in members;
        StoredStep(itemValues, before, item, item.Keys - members, name);
        match item[name] {
          case Text(s) => itemValues := itemValues[name := s];
          case Boolean(b) =>
            if b {
              itemValues := itemValues[name := "1"];
            } else {
              itemValues := itemValues[name := "0"];
            }
          case Null => itemValues := itemValues[name := "0"];
          case Real(s) => itemValues := itemValues[name := s];
          case Number(s) => itemValues := itemValues[name := s];
        }
        assert item.Keys - members + {name} == item.Keys - (members - {name});
        members := members - {name};
      }
      assert item.Keys - {} == item.Keys;
      StoredAll(itemValues, before, item);
    }

    /** `ParseNorthMsgItemVal`. */
    method ParseNorthMsgItemVal(items: seq<Item>)
      modifies `itemValues
      ensures itemValues == Batch(items)
      ensures forall k :: ReadsLast(itemValues, items, k)
    {
      itemValues := map[];
      var i := 0;
      while i < |items|
        invariant i <= |items| && itemValues == Batch(items[..i])
      {
        StoreMembers(items[i]);
        assert items[..i + 1][..i] == items[..i];
        i := i + 1;
      }
      assert items[..i] == items;
      forall k ensures ReadsLast(itemValues, items, k) { BatchReads(items, k); }
    }

    ghost function Targets(): string -> Target
      reads this
    {
      var links, types, leftover := itemLinks, nodeTypes, library.leftover;
      k => TargetOf(links, types, leftover, k)
    }

    /** The loop body for one item id: lookups may insert empty defaults, and at most one node is written. */
    method WriteItem(k: string)
      requires k in itemValues
      modifies `nodes, `nodeTypes, `itemLinks
      ensures SameLookups(itemLinks, old(itemLinks)) && SameLookups(nodeTypes, old(nodeTypes))
      ensures var a := TargetOf(old(itemLinks), old(nodeTypes), library.leftover, k);
        nodes == if a == NoNode then old(nodes) else old(nodes)[a := library.toDouble(itemValues[k])]
      ensures var text := if k in old(itemLinks) then old(itemLinks)[k] else "";
        var (ns, id) := Address(text, library.leftover);
        nodes == if text in old(nodeTypes) && old(nodeTypes)[text] == "Double"
                 then old(nodes)[Node(ns, id) := library.toDouble(itemValues[k])] else old(nodes)
    {
      itemLinks := Touched(itemLinks, k);
      var text := itemLinks[k];
      nodeTypes := Touched(nodeTypes, text);
      if nodeTypes[text] == "Double" {
        var val := library.toDouble(itemValues[k]);
        var address := FindNode(text, library.leftover);
        nodes := nodes[Node(address.0, address.1) := val];
      }
    }

    /** `WriteItemValToOpcUaServerNode`, in the order of a std::map. */
    method WriteItemValToOpcUaServerNode()
      modifies `nodes, `nodeTypes, `itemLinks
      ensures Written(nodes, old(nodes), itemValues, itemValues.Keys, old(Targets()), library.toDouble)
      ensures SameLookups(itemLinks, old(itemLinks)) && SameLookups(nodeTypes, old(nodeTypes))
    {
      var rest := itemValues.Keys;
      ghost var target := Targets();
      while rest != {}
        invariant rest <= itemValues.Keys && InTurn(itemValues.Keys - rest, rest)
        invariant SameLookups(itemLinks, old(itemLinks)) && SameLookups(nodeTypes, old(nodeTypes))
        invariant Written(nodes, old(nodes), itemValues, itemValues.Keys - rest, target, library.toDouble)
        decreases |rest|
      {
        ghost var least := LeastExists(rest);
        var k :| k in rest && forall x :: x in rest && x != k ==> Less(k, x);
        SameTarget(itemLinks, old(itemLinks), nodeTypes, old(nodeTypes), library.leftover, k);
        LeastWritten(nodes, old(nodes), itemValues, rest, target, library.toDouble, k);
        WriteItem(k);
        rest := rest - {k};
      }
      assert itemValues.Keys - {} == itemValues.Keys;
    }

    /**
     A push, as `ParseNorthMsg` handles it. On the maps: of the mentioned ids that
     are linked to a node, the largest sets it to the value that its last mention
     gives, by its kind; a node that no mentioned id is linked to stays as it was.
     */
    method HandlePush(items: seq<Item>)
      modifies this
      ensures itemValues == Batch(items)
      ensures Written(nodes, old(nodes), Batch(items), Batch(items).Keys, old(Targets()), library.toDouble)
      ensures SameLookups(itemLinks, old(itemLinks)) && SameLookups(nodeTypes, old(nodeTypes))
      ensures forall a :: PushedAt(nodes, old(nodes), items, old(itemLinks), old(nodeTypes), library, a)
    {
      ghost var before, links, types, target := nodes, itemLinks, nodeTypes, Targets();
      ParseNorthMsgItemVal(items);
      WriteItemValToOpcUaServerNode();
      PushOnMaps(nodes, before, items, target, links, types, library);
    }
  }
}
