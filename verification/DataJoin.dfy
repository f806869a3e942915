/** d3's string map with its escaped keys, and the keyed join of nodes to data that is built on it. */
module DataJoin {
  import opened Basics

  // ---------------------------------------------------------------- the map

  const PROTO := "__proto__"
  const ZERO := '\0'

  /** `d3_map_escape` */
  function Escape(key: string): (raw: string)
    ensures raw != "__proto__"
  {
    assert PROTO[0] != ZERO;
    if key == PROTO || (key != "" && key[0] == ZERO) then [ZERO] + key else key
  }

  /** `d3_map_unescape` */
  function Unescape(raw: string): string {
    if raw != "" && raw[0] == ZERO then raw[1..] else raw
  }

  lemma UnescapeEscape(key: string)
    ensures Unescape(Escape(key)) == key
  {
    assert ([ZERO] + key)[1..] == key;
  }

  lemma EscapeInjective(k: string, l: string)
    ensures Escape(k) == Escape(l) <==> k == l
  {
    UnescapeEscape(k);
    UnescapeEscape(l);
  }

  lemma OnlyKeyOf(raw: string)
    ensures forall k :: Escape(k) == raw ==> k == Unescape(raw)
  {
    forall k | Escape(k) == raw ensures k == Unescape(raw) {
      UnescapeEscape(k);
    }
  }

  /** `d3_Map`: an object whose property names are escaped keys. */
  class StringMap<V> {
    var properties: map<string, V>

    constructor ()
      ensures Valid() && fresh(this)
      ensures forall k :: Lookup(k) == None
    {
      properties := map[];
    }

    /** Every property name is some key's, and none is the one that would reach the prototype. */
    ghost predicate Valid()
      reads this
    {
      "__proto__" !in properties && forall raw :: raw in properties ==> Escape(Unescape(raw)) == raw
    }

    /** The map as its users see it. */
    ghost function Lookup(key: string): Option<V>
      reads this
    {
      if Escape(key) in properties then Some(properties[Escape(key)]) else None
    }

    method Has(key: string) returns (b: bool)
      ensures b <==> Lookup(key).Some?
    {
      b := Escape(key) in properties;
    }

    method Get(key: string) returns (v: Option<V>)
      ensures v == Lookup(key)
    {
      v := if Escape(key) in properties then Some(properties[Escape(key)]) else None;
    }

    method Set(key: string, value: V)
      requires Valid()
      modifies this
      ensures Valid() && Lookup(key) == Some(value)
      ensures forall k :: k != key ==> Lookup(k) == old(Lookup(k))
    {
      UnescapeEscape(key);
      properties := properties[Escape(key) := value];
      forall k | k != key ensures Lookup(k) == old(Lookup(k)) {
        EscapeInjective(k, key);
      }
    }

    method Remove(key: string) returns (b: bool)
      requires Valid()
      modifies this
      ensures Valid() && b == old(Lookup(key).Some?) && Lookup(key) == None
      ensures forall k :: k != key ==> Lookup(k) == old(Lookup(k))
    {
      b := Escape(key) in properties;
      properties := map raw | raw in properties && raw != Escape(key) :: properties[raw];
      forall k | k != key ensures Lookup(k) == old(Lookup(k)) {
        EscapeInjective(k, key);
      }
    }

    /** `keys`: each once, in an order that depends on the engine. */
    method Keys() returns (keys: seq<string>)
      requires Valid()
      ensures Distinct(keys) && forall k :: k in keys <==> Lookup(k).Some?
    {
      keys := [];
      var left := properties.Keys;
      while left != {}
        invariant left <= properties.Keys && Distinct(keys)
        invariant forall k :: k in keys <==> Escape(k) in properties && Escape(k) !in left
        decreases |left|
      {
        var raw :| raw in left;
        OnlyKeyOf(raw);
        keys, left := keys + [Unescape(raw)], left - {raw};
      }
    }
  }

  // ---------------------------------------------------------------- what the join promises

  /** The first position of a key; the length if it does not occur. */
  function First(keys: seq<string>, k: string): (i: nat)
    ensures i <= |keys|
    ensures i < |keys| ==> keys[i] == k
    ensures forall j :: 0 <= j < i ==> keys[j] != k
  {
    if keys == [] || keys[0] == k then 0 else 1 + First(keys[1..], k)
  }

  lemma FirstOf(keys: seq<string>, i: nat)
    requires i < |keys|
    ensures First(keys, keys[i]) <= i
  {
  }

  /** The node a datum is joined to, if any: the first with its key, unless an earlier datum has that key. */
  function Joined(nodeKeys: seq<string>, dataKeys: seq<string>, j: nat): Option<nat>
    requires j < |dataKeys|
  {
    var i := First(nodeKeys, dataKeys[j]);
    if First(dataKeys, dataKeys[j]) == j && i < |nodeKeys| then Some(i) else None
  }

  /** A datum enters if it is the first with its key and no node has it. */
  predicate Enters(nodeKeys: seq<string>, dataKeys: seq<string>, j: nat)
    requires j < |dataKeys|
  {
    First(dataKeys, dataKeys[j]) == j && First(nodeKeys, dataKeys[j]) == |nodeKeys|
  }

  /** A node exits unless it is the first with its key and some datum has that key. */
  predicate Exits(nodeKeys: seq<string>, dataKeys: seq<string>, i: nat)
    requires i < |nodeKeys|
  {
    First(nodeKeys, nodeKeys[i]) < i || First(dataKeys, nodeKeys[i]) == |dataKeys|
  }

  /** Every node is in exactly one of update and exit, and in update at one place only. */
  lemma NodeOnce(nodeKeys: seq<string>, dataKeys: seq<string>, i: nat)
    requires i < |nodeKeys|
    ensures !Exits(nodeKeys, dataKeys, i) <==>
              exists j: nat :: j < |dataKeys| && Joined(nodeKeys, dataKeys, j) == Some(i)
    ensures forall j: nat, l: nat | j < |dataKeys| && l < |dataKeys| ::
              Joined(nodeKeys, dataKeys, j) == Some(i) && Joined(nodeKeys, dataKeys, l) == Some(i) ==> j == l
  {
    if !Exits(nodeKeys, dataKeys, i) {
      var j := First(dataKeys, nodeKeys[i]);
      assert j < |dataKeys| && Joined(nodeKeys, dataKeys, j) == Some(i);
    }
  }

  /** Of the data with one key exactly one, the first, is in update or enter, and only in one of them:
      in update if and only if some node has the key, and then with the first such node. */
  lemma DatumOnce(nodeKeys: seq<string>, dataKeys: seq<string>, k: string)
    requires k in dataKeys
    ensures var j := First(dataKeys, k);
            && j < |dataKeys|
            && (Joined(nodeKeys, dataKeys, j) == Some(First(nodeKeys, k)) <==> k in nodeKeys)
            && (Joined(nodeKeys, dataKeys, j).None? <==> k !in nodeKeys)
            && (Enters(nodeKeys, dataKeys, j) <==> k !in nodeKeys)
            && forall l: nat :: l < |dataKeys| && l != j && dataKeys[l] == k ==>
                                  Joined(nodeKeys, dataKeys, l) == None && !Enters(nodeKeys, dataKeys, l)
  {
    var at :| 0 <= at < |dataKeys| && dataKeys[at] == k;
    FirstOf(dataKeys, at);
    if k in nodeKeys {
      var i :| 0 <= i < |nodeKeys| && nodeKeys[i] == k;
      FirstOf(nodeKeys, i);
    }
  }

  // ---------------------------------------------------------------- the join

  /** A document node with the datum bound to it. */
  class Node<D> {
    var data: D

    constructor (data: D)
      ensures this.data == data
    {
      this.data := data;
    }
  }

  /** What the map holds for a key: the node that carries it, or `true` once a datum with it has been seen. */
  datatype Slot<D> = Free(node: Node<D>) | Taken

  /** The key function is called on a node, or on the array of data; then it is given a datum and its position. */
  type KeyFunction<!D> = (Option<Node<D>>, D, nat) -> string

  ghost function NodeKeys<D>(group: seq<Node<D>>, key: KeyFunction<D>): seq<string>
    reads group
  {
    seq(|group|, i requires 0 <= i < |group| reads group => key(Some(group[i]), group[i].data, i))
  }

  function DataKeys<D>(data: seq<D>, key: KeyFunction<D>): (keys: seq<string>)
  {
    seq(|data|, i requires 0 <= i < |data| => key(None, data[i], i))
  }

  /** The map after some nodes: the first node with each key among them. */
  ghost function Indexed<D>(group: seq<Node<D>>, keys: seq<string>, upTo: nat, k: string): Option<Slot<D>>
    requires |keys| == |group|
  {
    if First(keys, k) < upTo && First(keys, k) < |keys| then Some(Free(group[First(keys, k)])) else None
  }

  lemma IndexedStep<D>(group: seq<Node<D>>, keys: seq<string>, i: nat)
    requires |keys| == |group| && i < |keys|
    ensures First(keys, keys[i]) <= i
    ensures Indexed(group, keys, i, keys[i]).Some? <==> First(keys, keys[i]) < i
    ensures First(keys, keys[i]) == i ==> Indexed(group, keys, i + 1, keys[i]) == Some(Free(group[i]))
    ensures forall k :: (First(keys, keys[i]) < i || k != keys[i]) ==>
              Indexed(group, keys, i + 1, k) == Indexed(group, keys, i, k)
  {
    FirstOf(keys, i);
  }

  lemma KeysOfNodes<D>(group: seq<Node<D>>, key: KeyFunction<D>)
    ensures |NodeKeys(group, key)| == |group|
    ensures forall i :: 0 <= i < |group| ==> NodeKeys(group, key)[i] == key(Some(group[i]), group[i].data, i)
  {
  }

  ghost predicate HoldsFirsts<D>(nodeByKey: StringMap<Slot<D>>, group: seq<Node<D>>, keys: seq<string>, upTo: nat)
    requires |keys| == |group|
    reads nodeByKey
  {
    nodeByKey.Valid() && forall k :: nodeByKey.Lookup(k) == Indexed(group, keys, upTo, k)
  }

  lemma IndexedStart<D>(nodeByKey: StringMap<Slot<D>>, group: seq<Node<D>>, keys: seq<string>)
    requires |keys| == |group| && nodeByKey.Valid() && forall k :: nodeByKey.Lookup(k) == None
    ensures HoldsFirsts(nodeByKey, group, keys, 0)
  {
  }

  /** One turn of the first loop: a node whose key is new goes into the map. */
  method IndexNode<D>(ghost group: seq<Node<D>>, ghost keys: seq<string>, ghost i: nat, node: Node<D>, keyValue: string,
                      nodeByKey: StringMap<Slot<D>>) returns (seen: bool)
    requires |keys| == |group| && i < |group| && node == group[i] && keyValue == keys[i]
    requires HoldsFirsts(nodeByKey, group, keys, i)
    modifies nodeByKey
    ensures HoldsFirsts(nodeByKey, group, keys, i + 1)
    ensures seen <==> First(keys, keys[i]) < i
  {
    hide First, Indexed, StringMap.Lookup, StringMap.Valid;
    IndexedStep(group, keys, i);
    seen := nodeByKey.Has(keyValue);
    if !seen {
      nodeByKey.Set(keyValue, Free(node));
    }
  }

  /** The first loop: the map takes the first node with each key, the others exit. */
  method IndexNodes<D>(group: seq<Node<D>>, key: KeyFunction<D>, nodeByKey: StringMap<Slot<D>>)
    returns (exit: array<Node?<D>>, keyValues: array<string>, ghost keys: seq<string>)
    requires nodeByKey.Valid() && forall k :: nodeByKey.Lookup(k) == None
    modifies nodeByKey
    ensures fresh(exit) && fresh(keyValues)
    ensures keys == NodeKeys(group, key) && keyValues[..] == keys && exit.Length == |group| == |keys|
    ensures HoldsFirsts(nodeByKey, group, keys, |group|)
    ensures forall i :: 0 <= i < |group| ==> exit[i] == if First(keys, keys[i]) < i then group[i] else null
  {
    hide *;
    exit, keyValues := new Node?<D>[|group|](_ => null), new string[|group|];
    keys := NodeKeys(group, key);
    KeysOfNodes(group, key);
    IndexedStart(nodeByKey, group, keys);
    NoExits(exit[..], group, keys);
    for i := 0 to |group|
      invariant HoldsFirsts(nodeByKey, group, keys, i) && NodeKeys(group, key) == keys
      invariant keyValues[..i] == keys[..i] && ExitsSoFar(exit[..], group, keys, i)
    {
      var keyValue := key(Some(group[i]), group[i].data, i);
      var seen := IndexNode(group, keys, i, group[i], keyValue, nodeByKey);
      ghost var was := exit[..];
      if seen {
        exit[i] := group[i];
      }
      assert exit[..] == if seen then was[i := group[i]] else was;
      MoreExits(was, group, keys, i, seen);
      keyValues[i] := keyValue;
      assert keyValues[..i + 1] == keyValues[..i] + [keyValue];
    }
    assert keyValues[..] == keyValues[..|group|];
    AllExits(exit[..], group, keys);
  }

  /** Of the first nodes, those whose key came before exit. */
  ghost predicate ExitsSoFar<D>(exit: seq<Node?<D>>, group: seq<Node<D>>, keys: seq<string>, upTo: nat) {
    && |exit| == |group| == |keys|
    && (forall l :: 0 <= l < upTo && l < |exit| ==> exit[l] == if First(keys, keys[l]) < l then group[l] else null)
    && (forall l :: upTo <= l < |exit| ==> exit[l] == null)
  }

  lemma NoExits<D>(exit: seq<Node?<D>>, group: seq<Node<D>>, keys: seq<string>)
    requires |exit| == |group| == |keys| && forall l :: 0 <= l < |exit| ==> exit[l] == null
    ensures ExitsSoFar(exit, group, keys, 0)
  {
  }

  lemma MoreExits<D>(exit: seq<Node?<D>>, group: seq<Node<D>>, keys: seq<string>, i: nat, seen: bool)
    requires i < |group| && ExitsSoFar(exit, group, keys, i) && (seen <==> First(keys, keys[i]) < i)
    ensures ExitsSoFar(if seen then exit[i := group[i]] else exit, group, keys, i + 1)
  {
  }

  lemma AllExits<D>(exit: seq<Node?<D>>, group: seq<Node<D>>, keys: seq<string>)
    requires ExitsSoFar(exit, group, keys, |group|)
    ensures forall i :: 0 <= i < |group| ==> exit[i] == if First(keys, keys[i]) < i then group[i] else null
  {
  }

  /** The map after all nodes and some data: the keys of those data are taken. */
  ghost function Seen<D>(group: seq<Node<D>>, nodeKeys: seq<string>, dataKeys: seq<string>, upTo: nat,
                         k: string): Option<Slot<D>>
    requires |nodeKeys| == |group|
  {
    if First(dataKeys, k) < upTo then Some(Taken) else Indexed(group, nodeKeys, |group|, k)
  }

  lemma SeenStart<D>(nodeByKey: StringMap<Slot<D>>, group: seq<Node<D>>, nodeKeys: seq<string>, dataKeys: seq<string>)
    requires |nodeKeys| == |group| && HoldsFirsts(nodeByKey, group, nodeKeys, |group|)
    ensures nodeByKey.Valid() && forall k :: nodeByKey.Lookup(k) == Seen(group, nodeKeys, dataKeys, 0, k)
  {
  }

  lemma SeenStep<D>(group: seq<Node<D>>, nodeKeys: seq<string>, dataKeys: seq<string>, j: nat)
    requires |nodeKeys| == |group| && j < |dataKeys|
    ensures Seen(group, nodeKeys, dataKeys, j + 1, dataKeys[j]) == Some(Taken)
    ensures forall k :: k != dataKeys[j] ==>
              Seen(group, nodeKeys, dataKeys, j + 1, k) == Seen(group, nodeKeys, dataKeys, j, k)
    ensures var slot := Seen(group, nodeKeys, dataKeys, j, dataKeys[j]);
            && (Enters(nodeKeys, dataKeys, j) <==> slot.None?)
            && Match(group, nodeKeys, dataKeys, j) == (if slot.Some? && slot.value.Free? then slot.value.node else null)
  {
    FirstOf(dataKeys, j);
  }

  /** What `update` holds for a datum. */
  ghost function Match<D>(group: seq<Node<D>>, nodeKeys: seq<string>, dataKeys: seq<string>, j: nat): Node?<D>
    requires |nodeKeys| == |group| && j < |dataKeys|
  {
    var i := Joined(nodeKeys, dataKeys, j);
    if i.Some? then group[i.value] else null
  }

  /** Two data never share a node. */
  lemma MatchesDiffer<D>(group: seq<Node<D>>, nodeKeys: seq<string>, dataKeys: seq<string>, j: nat)
    requires |nodeKeys| == |group| && j < |dataKeys| && Distinct(group)
    ensures forall l: nat :: l < |dataKeys| && l != j && Match(group, nodeKeys, dataKeys, l) != null ==>
                               Match(group, nodeKeys, dataKeys, l) != Match(group, nodeKeys, dataKeys, j)
  {
  }

  lemma MatchIn<D>(group: seq<Node<D>>, nodeKeys: seq<string>, dataKeys: seq<string>, j: nat)
    requires |nodeKeys| == |group| && j < |dataKeys|
    ensures Match(group, nodeKeys, dataKeys, j) != null ==> Match(group, nodeKeys, dataKeys, j) in group
  {
  }

  /** The second loop: each datum takes its node out of the map, or enters. */
  method JoinData<D>(ghost group: seq<Node<D>>, ghost nodeKeys: seq<string>, groupData: seq<D>, key: KeyFunction<D>,
                     nodeByKey: StringMap<Slot<D>>)
    returns (update: array<Node?<D>>, enter: array<Option<D>>)
    requires |nodeKeys| == |group| && HoldsFirsts(nodeByKey, group, nodeKeys, |group|)
    modifies nodeByKey, group
    ensures fresh(update) && fresh(enter) && update.Length == enter.Length == |groupData|
    ensures forall k :: nodeByKey.Lookup(k) == Seen(group, nodeKeys, DataKeys(groupData, key), |groupData|, k)
    ensures forall j :: 0 <= j < |groupData| ==> update[j] == Match(group, nodeKeys, DataKeys(groupData, key), j)
    ensures forall j :: 0 <= j < |groupData| ==>
                          enter[j] == if Enters(nodeKeys, DataKeys(groupData, key), j) then Some(groupData[j]) else None
    ensures Distinct(group) ==> forall j :: 0 <= j < |groupData| && update[j] != null ==> update[j].data == groupData[j]
    ensures forall n :: n in group && n !in update[..] ==> n.data == old(n.data)
  {
    hide *;
    update, enter := new Node?<D>[|groupData|](_ => null), new Option<D>[|groupData|](_ => None);
    ghost var dataKeys := KeysOf(groupData, key);
    SeenStart(nodeByKey, group, nodeKeys, dataKeys);
    for j := 0 to |groupData|
      invariant nodeByKey.Valid() && forall k :: nodeByKey.Lookup(k) == Seen(group, nodeKeys, dataKeys, j, k)
      invariant forall l :: 0 <= l < j ==> update[l] == Match(group, nodeKeys, dataKeys, l)
      invariant forall l :: j <= l < |groupData| ==> update[l] == null && enter[l] == None
      invariant forall l :: 0 <= l < j ==>
                  enter[l] == if Enters(nodeKeys, dataKeys, l) then Some(groupData[l]) else None
      invariant Distinct(group) ==> forall l :: 0 <= l < j && update[l] != null ==> update[l].data == groupData[l]
      invariant forall n :: n in group && n !in update[..j] ==> n.data == old(n.data)
    {
      SeenStep(group, nodeKeys, dataKeys, j);
      MatchIn(group, nodeKeys, dataKeys, j);
      if Distinct(group) { MatchesDiffer(group, nodeKeys, dataKeys, j); }
      var keyValue := key(None, groupData[j], j);
      var slot := nodeByKey.Get(keyValue);
      match slot {
        case None => enter[j] := Some(groupData[j]);
        case Some(Free(node)) =>
          update[j] := node;
          node.data := groupData[j];
        case Some(Taken) =>
      }
      nodeByKey.Set(keyValue, Taken);
      assert update[..j + 1] == update[..j] + [update[j]];
    }
    assert update[..|groupData|] == update[..];
  }

  lemma KeysOf<D>(data: seq<D>, key: KeyFunction<D>) returns (keys: seq<string>)
    ensures keys == DataKeys(data, key) && |keys| == |data|
    ensures forall j :: 0 <= j < |data| ==> keys[j] == key(None, data[j], j)
  {
    keys := DataKeys(data, key);
  }

  lemma ExitsStep<D>(group: seq<Node<D>>, nodeKeys: seq<string>, dataKeys: seq<string>, i: nat)
    requires |nodeKeys| == |group| && i < |group|
    ensures Exits(nodeKeys, dataKeys, i) <==>
            First(nodeKeys, nodeKeys[i]) < i || Seen(group, nodeKeys, dataKeys, |dataKeys|, nodeKeys[i]) != Some(Taken)
  {
  }

  /** The third loop: a node whose key no datum took exits as well. */
  method ExitNodes<D>(group: seq<Node<D>>, ghost nodeKeys: seq<string>, ghost dataKeys: seq<string>,
                      nodeByKey: StringMap<Slot<D>>, keyValues: array<string>, exit: array<Node?<D>>)
    requires keyValues[..] == nodeKeys && exit.Length == |group| == |nodeKeys|
    requires forall k :: nodeByKey.Lookup(k) == Seen(group, nodeKeys, dataKeys, |dataKeys|, k)
    requires forall i :: 0 <= i < |group| ==> exit[i] == if First(nodeKeys, nodeKeys[i]) < i then group[i] else null
    modifies exit
    ensures forall i :: 0 <= i < |group| ==> exit[i] == if Exits(nodeKeys, dataKeys, i) then group[i] else null
  {
    hide *;
    for i := 0 to |group|
      invariant forall l :: 0 <= l < i ==> exit[l] == if Exits(nodeKeys, dataKeys, l) then group[l] else null
      invariant forall l :: i <= l < |group| ==> exit[l] == if First(nodeKeys, nodeKeys[l]) < l then group[l] else null
    {
      ExitsStep(group, nodeKeys, dataKeys, i);
      var slot := nodeByKey.Get(keyValues[i]);
      if slot != Some(Taken) {
        exit[i] := group[i];
      }
    }
  }

  /** `bind` with a key function. */
  method Bind<D>(group: seq<Node<D>>, groupData: seq<D>, key: KeyFunction<D>)
    returns (update: array<Node?<D>>, enter: array<Option<D>>, exit: array<Node?<D>>)
    modifies group
    ensures update.Length == enter.Length == |groupData| && exit.Length == |group|
    ensures var nodeKeys, dataKeys := old(NodeKeys(group, key)), DataKeys(groupData, key);
            && (forall j :: 0 <= j < |groupData| ==> update[j] == Match(group, nodeKeys, dataKeys, j))
            && (forall j :: 0 <= j < |groupData| ==>
                enter[j] == if Enters(nodeKeys, dataKeys, j) then Some(groupData[j]) else None)
            && (forall i :: 0 <= i < |group| ==> exit[i] == if Exits(nodeKeys, dataKeys, i) then group[i] else null)
    ensures Distinct(group) ==> forall j :: 0 <= j < |groupData| && update[j] != null ==> update[j].data == groupData[j]
    ensures forall n :: n in group && n !in update[..] ==> n.data == old(n.data)
  {
    hide *;
    var nodeByKey := new StringMap<Slot<D>>();
    var keyValues;
    ghost var nodeKeys;
    exit, keyValues, nodeKeys := IndexNodes(group, key, nodeByKey);
    ghost var dataKeys := KeysOf(groupData, key);
    update, enter := JoinData(group, nodeKeys, groupData, key, nodeByKey);
    ExitNodes(group, nodeKeys, dataKeys, nodeByKey, keyValues, exit);
  }

  // ---------------------------------------------------------------- conservation

  lemma {:induction false} SameSize<K, V>(f: map<K, V>)
    requires forall k, l :: k in f && l in f && f[k] == f[l] ==> k == l
    ensures |f.Keys| == |f.Values|
  {
    if f != map[] {
      var k :| k in f;
      var g := f - {k};
      SameSize(g);
      assert f.Keys == g.Keys + {k};
      assert f.Values == g.Values + {f[k]};
    } else {
      assert f.Values == {};
    }
  }

  function Range(n: nat): (r: set<nat>)
    ensures |r| == n && forall i: nat :: i in r <==> i < n
  {
    if n == 0 then {} else Range(n - 1) + {n - 1}
  }

  ghost function Updates(nodeKeys: seq<string>, dataKeys: seq<string>): set<nat> {
    set j: nat | j < |dataKeys| && Joined(nodeKeys, dataKeys, j).Some?
  }

  ghost function Entering(nodeKeys: seq<string>, dataKeys: seq<string>): set<nat> {
    set j: nat | j < |dataKeys| && Enters(nodeKeys, dataKeys, j)
  }

  ghost function Exiting(nodeKeys: seq<string>, dataKeys: seq<string>): set<nat> {
    set i: nat | i < |nodeKeys| && Exits(nodeKeys, dataKeys, i)
  }

  /** The update selection as a map from data to nodes: it reaches exactly the nodes that do not exit, each once. */
  lemma UpdateMap(nodeKeys: seq<string>, dataKeys: seq<string>) returns (f: map<nat, nat>)
    ensures f.Keys == Updates(nodeKeys, dataKeys)
    ensures forall j, l :: j in f && l in f && f[j] == f[l] ==> j == l
    ensures forall i: nat :: i in f.Values <==> i < |nodeKeys| && i !in Exiting(nodeKeys, dataKeys)
  {
    f := map j | j in Updates(nodeKeys, dataKeys) :: Joined(nodeKeys, dataKeys, j).value;
    assert forall j :: j in f ==> f[j] < |nodeKeys|;
    hide Exits, Joined, First;
    forall i: nat | i < |nodeKeys| ensures i in f.Values <==> i !in Exiting(nodeKeys, dataKeys) {
      NodeOnce(nodeKeys, dataKeys, i);
      if i !in Exiting(nodeKeys, dataKeys) {
        var j: nat :| j < |dataKeys| && Joined(nodeKeys, dataKeys, j) == Some(i);
        assert j in f && f[j] == i;
      }
    }
  }

  /** No node is lost or doubled: the updated and the exiting ones are as many as there were. */
  lemma NodesConserved(nodeKeys: seq<string>, dataKeys: seq<string>)
    ensures |Updates(nodeKeys, dataKeys)| + |Exiting(nodeKeys, dataKeys)| == |nodeKeys|
  {
    var f := UpdateMap(nodeKeys, dataKeys);
    SameSize(f);
    assert f.Values == Range(|nodeKeys|) - Exiting(nodeKeys, dataKeys);
  }

  /** As many data are updated or entered as there are different keys. */
  lemma KeysConserved(nodeKeys: seq<string>, dataKeys: seq<string>)
    ensures Updates(nodeKeys, dataKeys) !! Entering(nodeKeys, dataKeys)
    ensures |Updates(nodeKeys, dataKeys)| + |Entering(nodeKeys, dataKeys)| == |set k | k in dataKeys|
  {
    var updates, entering := Updates(nodeKeys, dataKeys), Entering(nodeKeys, dataKeys);
    var f := KeyMap(nodeKeys, dataKeys);
    SameSize(f);
    assert f.Keys == updates + entering;
    assert f.Values == set k | k in dataKeys;
  }

  /** From the data that update or enter to their keys: each key is reached once. */
  lemma KeyMap(nodeKeys: seq<string>, dataKeys: seq<string>) returns (f: map<nat, string>)
    ensures f.Keys == Updates(nodeKeys, dataKeys) + Entering(nodeKeys, dataKeys)
    ensures forall j, l :: j in f && l in f && f[j] == f[l] ==> j == l
    ensures forall k :: k in f.Values <==> k in dataKeys
  {
    f := map j | j in Updates(nodeKeys, dataKeys) + Entering(nodeKeys, dataKeys) :: dataKeys[j];
    forall k | k in dataKeys ensures k in f.Values {
      DatumOnce(nodeKeys, dataKeys, k);
      var j := First(dataKeys, k);
      assert j in f && f[j] == k;
    }
  }
}
