/** The hash ring of lib/consistenthash/consistenthash.go, over an arbitrary hash function. */
module ConsistentHash {
  import opened ByteStrings

  /** A 32-bit checksum, the point of a node or a key on the ring. */
  newtype Point = p: int | 0 <= p < 0x1_0000_0000

  type HashFunc = Bytes -> Point

  /** The node at each hash value: the later of two nodes that collide. */
  type Owners = map<Point, Bytes>

  predicate Sorted(s: seq<Point>) {
    forall i, j | 0 <= i < j < |s| :: s[i] <= s[j]
  }

  /** Stand-in for `sort.Ints`. */
  function SortInts(s: seq<Point>): (r: seq<Point>)
    ensures multiset(r) == multiset(s)
  {
    if s == [] then []
    else
      assert s == [s[0]] + s[1..];
      Insert(s[0], SortInts(s[1..]))
  }

  function Insert(x: Point, s: seq<Point>): (r: seq<Point>)
    ensures multiset(r) == multiset(s) + multiset{x}
  {
    if s == [] || x <= s[0] then [x] + s
    else
      assert s == [s[0]] + s[1..];
      [s[0]] + Insert(x, s[1..])
  }

  lemma {:induction false} InsertKeepsSorted(x: Point, s: seq<Point>)
    requires Sorted(s)
    ensures Sorted(Insert(x, s))
    ensures Insert(x, s)[0] == if s == [] || x <= s[0] then x else s[0]
  {
    if s != [] && s[0] < x {
      InsertKeepsSorted(x, s[1..]);
      SortedCons(s[0], Insert(x, s[1..]));
    } else if s != [] {
      SortedCons(x, s);
    }
  }

  lemma SortedCons(x: Point, s: seq<Point>)
    requires Sorted(s) && s != [] && x <= s[0]
    ensures Sorted([x] + s)
  {
  }

  lemma {:induction false} SortIntsSorts(s: seq<Point>)
    ensures Sorted(SortInts(s))
  {
    hide Insert;
    if s != [] {
      SortIntsSorts(s[1..]);
      InsertKeepsSorted(s[0], SortInts(s[1..]));
    }
  }

  lemma SortKeepsMembers(s: seq<Point>)
    ensures forall x | x in SortInts(s) :: x in s
    ensures forall x | x in s :: x in SortInts(s)
  {
    hide SortInts;
    var r := SortInts(s);
    forall x | x in r ensures x in s {
      assert x in multiset(r);
    }
    forall x | x in s ensures x in r {
      assert x in multiset(s);
    }
  }

  function WithNodes(hash: HashFunc, owners: Owners, nodes: seq<Bytes>): Owners
    decreases |nodes|
  {
    if nodes == [] then owners
    else WithNodes(hash, if nodes[0] == [] then owners else owners[hash(nodes[0]) := nodes[0]], nodes[1..])
  }

  function RingOf(hash: HashFunc, nodes: seq<Bytes>): Owners {
    WithNodes(hash, map[], nodes)
  }

  /** `s` is the least of `points` not below `h`, or the least of all when every one is below. */
  ghost predicate IsSuccessor(points: set<Point>, h: Point, s: Point) {
    && s in points
    && (if exists k :: k in points && h <= k
        then h <= s && forall k | k in points && h <= k :: s <= k
        else forall k | k in points :: s <= k)
  }

  lemma {:induction false} HasLeast(points: set<Point>) returns (least: Point)
    requires points != {}
    ensures least in points && forall k | k in points :: least <= k
    decreases |points|
  {
    least :| least in points;
    var others := points - {least};
    assert forall k | k in points :: k == least || k in others;
    if others != {} {
      var other := HasLeast(others);
      least := if other < least then other else least;
    }
  }

  lemma HasSuccessor(points: set<Point>, h: Point)
    requires points != {}
    ensures exists s :: IsSuccessor(points, h, s)
  {
    var above := set k | k in points && h <= k;
    if above != {} {
      var s := HasLeast(above);
      assert forall k | k in points && h <= k :: k in above;
      assert IsSuccessor(points, h, s);
    } else {
      var s := HasLeast(points);
      assert forall k | k in points && h <= k :: k in above;
      assert IsSuccessor(points, h, s);
    }
  }

  ghost function Successor(points: set<Point>, h: Point): (s: Point)
    requires points != {}
    ensures IsSuccessor(points, h, s)
  {
    HasSuccessor(points, h);
    var s :| IsSuccessor(points, h, s);
    s
  }

  /** How far it is from `h` to `k`, clockwise around the ring of the 32-bit hashes. */
  function Clockwise(h: Point, k: Point): int {
    if h <= k then k as int - h as int else k as int - h as int + 0x1_0000_0000
  }

  /** The successor is the point that comes first clockwise: around the ring there is no wrapping left to
      speak of. */
  lemma SuccessorIsFirstClockwise(points: set<Point>, h: Point, s: Point)
    requires points != {}
    ensures s == Successor(points, h) <==> s in points && forall k | k in points :: Clockwise(h, s) <= Clockwise(h, k)
  {
    var t := Successor(points, h);
    assert IsSuccessor(points, h, t);
    assert forall k | k in points :: Clockwise(h, t) <= Clockwise(h, k);
    if s in points && Clockwise(h, s) <= Clockwise(h, t) {
      assert s == t;
    }
  }

  /** Linear meaning of `PickNode`. */
  ghost function Pick(hash: HashFunc, owners: Owners, key: Bytes): Bytes {
    if owners == map[] then [] else owners[Successor(owners.Keys, hash(key))]
  }

  /** `sort.Search` for the first hash not below `h`. */
  method Search(hashes: seq<Point>, h: Point) returns (i: nat)
    requires Sorted(hashes)
    ensures i <= |hashes|
    ensures forall k | 0 <= k < |hashes| :: hashes[k] >= h <==> i <= k
  {
    var j := |hashes|;
    i := 0;
    while i < j
      invariant 0 <= i <= j <= |hashes|
      invariant forall k | 0 <= k < i :: hashes[k] < h
      invariant forall k | j <= k < |hashes| :: hashes[k] >= h
    {
      var mid := (i + j) / 2;
      if !(hashes[mid] >= h) {
        i := mid + 1;
      } else {
        j := mid;
      }
    }
  }

  function HashesOf(hash: HashFunc, nodes: seq<Bytes>): seq<Point> {
    if nodes == [] then []
    else HashesOf(hash, nodes[..|nodes| - 1]) + if nodes[|nodes| - 1] == [] then [] else [hash(nodes[|nodes| - 1])]
  }

  lemma {:induction false} WithNodesSnoc(hash: HashFunc, owners: Owners, nodes: seq<Bytes>, last: Bytes)
    ensures var before := WithNodes(hash, owners, nodes);
      WithNodes(hash, owners, nodes + [last]) == if last == [] then before else before[hash(last) := last]
    decreases |nodes|
  {
    if nodes == [] {
      assert ([] + [last])[1..] == [];
    } else {
      assert (nodes + [last])[1..] == nodes[1..] + [last];
      WithNodesSnoc(hash, if nodes[0] == [] then owners else owners[hash(nodes[0]) := nodes[0]], nodes[1..], last);
    }
  }

  lemma HashesSnoc(hash: HashFunc, nodes: seq<Bytes>, last: Bytes)
    ensures HashesOf(hash, nodes + [last]) == HashesOf(hash, nodes) + if last == [] then [] else [hash(last)]
  {
    assert (nodes + [last])[..|nodes|] == nodes;
  }

  lemma HashesOfNone(hash: HashFunc, owners: Owners)
    ensures HashesOf(hash, []) == [] && WithNodes(hash, owners, []) == owners
  {
  }

  class NodeMap {
    const hashFunc: HashFunc
    var nodeHashs: seq<Point>
    var nodeHashMap: Owners

    /** The hash list is sorted and names exactly the points of the ring. */
    ghost predicate Valid()
      reads this
    {
      && Sorted(nodeHashs)
      && (forall h | h in nodeHashs :: h in nodeHashMap)
      && (forall h | h in nodeHashMap :: h in nodeHashs)
    }

    constructor (hash: HashFunc)
      ensures Valid() && nodeHashMap == map[] && hashFunc == hash
    {
      hashFunc, nodeHashs, nodeHashMap := hash, [], map[];
    }

    predicate IsEmpty()
      reads this
    {
      |nodeHashs| == 0
    }

    method AddNodes(keys: seq<Bytes>)
      requires Valid()
      modifies this
      ensures Valid()
      ensures nodeHashMap == WithNodes(hashFunc, old(nodeHashMap), keys)
      ensures multiset(nodeHashs) == multiset(old(nodeHashs)) + multiset(HashesOf(hashFunc, keys))
    {
      hide WithNodes, HashesOf, SortInts;
      HashesOfNone(hashFunc, nodeHashMap);
      for i := 0 to |keys|
        invariant nodeHashMap == WithNodes(hashFunc, old(nodeHashMap), keys[..i])
        invariant nodeHashs == old(nodeHashs) + HashesOf(hashFunc, keys[..i])
        invariant forall h | h in nodeHashs :: h in nodeHashMap
        invariant forall h | h in nodeHashMap :: h in nodeHashs
      {
        var key := keys[i];
        assert keys[..i + 1] == keys[..i] + [key];
        HashesSnoc(hashFunc, keys[..i], key);
        WithNodesSnoc(hashFunc, old(nodeHashMap), keys[..i], key);
        if key != [] {
          var hash := hashFunc(key);
          nodeHashs := nodeHashs + [hash];
          nodeHashMap := nodeHashMap[hash := key];
        }
      }
      assert keys[..|keys|] == keys;
      SortKeepsMembers(nodeHashs);
      SortIntsSorts(nodeHashs);
      nodeHashs := SortInts(nodeHashs);
    }

    method PickNode(key: Bytes) returns (node: Bytes)
      requires Valid()
      ensures node == Pick(hashFunc, nodeHashMap, key)
    {
      if IsEmpty() {
        assert nodeHashMap == map[];
        return [];
      }
      assert nodeHashs[0] in nodeHashMap;
      var hash := hashFunc(key);
      var idx := Search(nodeHashs, hash);
      if idx == |nodeHashs| {
        idx := 0;
      }
      assert nodeHashs[idx] in nodeHashMap;
      SearchFindsSuccessor(nodeHashs, nodeHashMap.Keys, hash, idx);
      node := nodeHashMap[nodeHashs[idx]];
    }
  }

  lemma SearchFindsSuccessor(hashes: seq<Point>, points: set<Point>, h: Point, idx: nat)
    requires Sorted(hashes) && points != {} && idx < |hashes|
    requires forall k :: k in hashes <==> k in points
    requires if exists k | 0 <= k < |hashes| :: hashes[k] >= h
             then forall k | 0 <= k < |hashes| :: hashes[k] >= h <==> idx <= k
             else idx == 0
    ensures hashes[idx] == Successor(points, h)
  {
    var s := Successor(points, h);
    var j :| 0 <= j < |hashes| && hashes[j] == s;
    assert hashes[idx] in points;
    assert hashes[0] in points;
  }

  predicate At(hash: HashFunc, nodes: seq<Bytes>, i: int, h: Point) {
    0 <= i < |nodes| && nodes[i] != [] && hash(nodes[i]) == h
  }

  lemma {:induction false} WithNodesKeys(hash: HashFunc, owners: Owners, nodes: seq<Bytes>, h: Point)
    ensures var ring := WithNodes(hash, owners, nodes);
      if exists i :: At(hash, nodes, i, h)
      then h in ring && exists i :: At(hash, nodes, i, h) && ring[h] == nodes[i]
      else (h in ring <==> h in owners) && (h in ring ==> ring[h] == owners[h])
    decreases |nodes|
  {
    if nodes != [] {
      var n := |nodes| - 1;
      var front := nodes[..n];
      assert nodes == front + [nodes[n]];
      WithNodesSnoc(hash, owners, front, nodes[n]);
      WithNodesKeys(hash, owners, front, h);
      assert forall i | 0 <= i < n :: At(hash, front, i, h) <==> At(hash, nodes, i, h);
      if At(hash, nodes, n, h) {
      } else {
        assert forall i :: At(hash, nodes, i, h) ==> i < n;
      }
    }
  }

  /** Adding nodes moves a key nowhere but to an added node, collisions or not. */
  lemma MinimalMovement(hash: HashFunc, owners: Owners, added: seq<Bytes>, key: Bytes)
    ensures var after := Pick(hash, WithNodes(hash, owners, added), key);
      after == Pick(hash, owners, key) || (after in added && after != [])
  {
    var ring := WithNodes(hash, owners, added);
    if ring != map[] {
      var h := hash(key);
      var s := Successor(ring.Keys, h);
      WithNodesKeys(hash, owners, added, s);
      if !exists i :: At(hash, added, i, s) {
        assert s in owners && ring[s] == owners[s];
        var t := Successor(owners.Keys, h);
        forall k | k in owners ensures k in ring {
          WithNodesKeys(hash, owners, added, k);
        }
        assert t in ring;
        assert s == t;
      }
    } else {
      forall k | k in owners ensures false {
        WithNodesKeys(hash, owners, added, k);
      }
    }
  }

  predicate Distinct(hash: HashFunc, nodes: seq<Bytes>) {
    forall i, j | 0 <= i < |nodes| && 0 <= j < |nodes| && nodes[i] != [] && nodes[j] != [] ::
      hash(nodes[i]) == hash(nodes[j]) ==> nodes[i] == nodes[j]
  }

  /** Without collisions the ring does not depend on the order the nodes were added in. */
  lemma OrderIsIrrelevant(hash: HashFunc, a: seq<Bytes>, b: seq<Bytes>)
    requires Distinct(hash, a)
    requires forall n :: n in a <==> n in b
    ensures RingOf(hash, a) == RingOf(hash, b)
  {
    var ra, rb := RingOf(hash, a), RingOf(hash, b);
    forall h
      ensures h in ra <==> h in rb
      ensures h in ra && h in rb ==> ra[h] == rb[h]
    {
      WithNodesKeys(hash, map[], a, h);
      WithNodesKeys(hash, map[], b, h);
      SamePoints(hash, a, b, h);
      SamePoints(hash, b, a, h);
      if exists i :: At(hash, a, i, h) {
        var i :| At(hash, a, i, h) && ra[h] == a[i];
        var j :| At(hash, b, j, h) && rb[h] == b[j];
        assert b[j] in a;
      }
    }
  }

  lemma SamePoints(hash: HashFunc, a: seq<Bytes>, b: seq<Bytes>, h: Point)
    requires forall n | n in a :: n in b
    ensures (exists i :: At(hash, a, i, h)) ==> exists j :: At(hash, b, j, h)
  {
    if i :| At(hash, a, i, h) {
      assert a[i] in b;
      var j :| 0 <= j < |b| && b[j] == a[i];
      assert At(hash, b, j, h);
    }
  }

  /** The list of member `i`: its peers, then itself. */
  function MemberList(nodes: seq<Bytes>, i: nat): seq<Bytes>
    requires i < |nodes|
  {
    nodes[..i] + nodes[i + 1..] + [nodes[i]]
  }

  lemma MemberListNodes(nodes: seq<Bytes>, i: nat)
    requires i < |nodes|
    ensures forall n :: n in MemberList(nodes, i) <==> n in nodes
  {
    var list := MemberList(nodes, i);
    forall n | n in nodes ensures n in list {
      var k :| 0 <= k < |nodes| && nodes[k] == n;
      assert n == list[if k < i then k else if k == i then |nodes| - 1 else k - 1];
    }
  }

  /** All members of a cluster route every key alike exactly when no two node names collide. */
  lemma AgreementExactly(hash: HashFunc, nodes: seq<Bytes>)
    ensures (forall i, j, key | 0 <= i < |nodes| && 0 <= j < |nodes| ::
               Pick(hash, RingOf(hash, MemberList(nodes, i)), key)
               == Pick(hash, RingOf(hash, MemberList(nodes, j)), key))
            <==> Distinct(hash, nodes)
  {
    if Distinct(hash, nodes) {
      forall i | 0 <= i < |nodes| ensures RingOf(hash, MemberList(nodes, i)) == RingOf(hash, nodes) {
        MemberListNodes(nodes, i);
        OrderIsIrrelevant(hash, nodes, MemberList(nodes, i));
      }
    } else {
      var i, j :| 0 <= i < |nodes| && 0 <= j < |nodes| && nodes[i] != [] && nodes[j] != []
                  && hash(nodes[i]) == hash(nodes[j]) && nodes[i] != nodes[j];
      SelfIsLast(hash, nodes, i);
      SelfIsLast(hash, nodes, j);
      PickAtPoint(hash, RingOf(hash, MemberList(nodes, i)), nodes[i]);
      PickAtPoint(hash, RingOf(hash, MemberList(nodes, j)), nodes[i]);
    }
  }

  lemma SelfIsLast(hash: HashFunc, nodes: seq<Bytes>, i: nat)
    requires i < |nodes| && nodes[i] != []
    ensures var ring := RingOf(hash, MemberList(nodes, i));
      hash(nodes[i]) in ring && ring[hash(nodes[i])] == nodes[i]
  {
    WithNodesSnoc(hash, map[], nodes[..i] + nodes[i + 1..], nodes[i]);
  }

  /** A key is owned by one of the nodes, never by one without a name; with no named node, by nobody. */
  lemma PickIsANode(hash: HashFunc, nodes: seq<Bytes>, key: Bytes)
    ensures var p := Pick(hash, RingOf(hash, nodes), key);
      if forall i | 0 <= i < |nodes| :: nodes[i] == [] then p == [] else p in nodes && p != []
  {
    var ring := RingOf(hash, nodes);
    if i :| 0 <= i < |nodes| && nodes[i] != [] {
      var h := hash(nodes[i]);
      assert At(hash, nodes, i, h);
      WithNodesKeys(hash, map[], nodes, h);
      WithNodesKeys(hash, map[], nodes, Successor(ring.Keys, hash(key)));
    } else {
      forall h ensures h !in ring {
        WithNodesKeys(hash, map[], nodes, h);
      }
      assert ring == map[];
    }
  }

  lemma PickAtPoint(hash: HashFunc, owners: Owners, key: Bytes)
    requires hash(key) in owners
    ensures Pick(hash, owners, key) == owners[hash(key)]
  {
    assert Successor(owners.Keys, hash(key)) == hash(key);
  }
}
