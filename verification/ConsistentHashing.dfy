/** The consistent hashing ring (consistent-hashing.py, ConsistentHashing.java). */
module ConsistentHashing {
  import opened Ordering
  import opened Translations
  import opened Numerals

  type Hash = string -> nat

  /** The ring: positions of virtual nodes and the servers they stand for. */
  type Ring = map<nat, string>

  /** The name of a virtual node of a server. */
  function NodeName(server: string, i: nat): string {
    server + "-" + Decimal(i)
  }

  /** The position of a virtual node of a server. */
  function Point(hash: Hash, server: string, i: nat): nat {
    hash(NodeName(server, i))
  }

  /** The positions of the first `n` virtual nodes of a server. */
  function Points(hash: Hash, server: string, n: nat): set<nat> {
    set i | 0 <= i < n :: Point(hash, server, i)
  }

  /** No two virtual nodes of these servers have the same position. */
  ghost predicate CollisionFree(hash: Hash, replicas: nat, servers: set<string>) {
    forall s, t, i, j | s in servers && t in servers && 0 <= i < replicas && 0 <= j < replicas ::
      Point(hash, s, i) == Point(hash, t, j) ==> s == t && i == j
  }

  /** The ring that the servers should have, whatever their history. */
  ghost predicate IsRing(hash: Hash, replicas: nat, servers: set<string>, ring: Ring) {
    && (forall s, i :: s in servers && 0 <= i < replicas ==>
         Point(hash, s, i) in ring && ring[Point(hash, s, i)] == s)
    && (forall p :: p in ring ==> ring[p] in servers && p in Points(hash, ring[p], replicas))
  }

  /** The ring is a function of the current servers alone. */
  lemma RingUnique(hash: Hash, replicas: nat, servers: set<string>, a: Ring, b: Ring)
    requires IsRing(hash, replicas, servers, a) && IsRing(hash, replicas, servers, b)
    ensures a == b
  {
    forall p | p in a
      ensures p in b && b[p] == a[p]
    {
      var i :| 0 <= i < replicas && p == Point(hash, a[p], i);
    }
    forall p | p in b
      ensures p in a
    {
      var i :| 0 <= i < replicas && p == Point(hash, b[p], i);
    }
  }

  // ---------- the names of virtual nodes ----------

  /** A name of one of the first `n` virtual nodes of a server: its own, a hyphen and a numeral below `n`. */
  ghost predicate IsNodeName(server: string, n: nat, name: string) {
    exists digits :: IsNumeral(digits) && Value(digits, 10) < n && name == server + "-" + digits
  }

  lemma NodeNameIs(server: string, n: nat, name: string)
    ensures IsNodeName(server, n, name) <==> exists i :: 0 <= i < n && name == NodeName(server, i)
  {
    if IsNodeName(server, n, name) {
      var digits :| IsNumeral(digits) && Value(digits, 10) < n && name == server + "-" + digits;
      DecimalOfValue(digits);
      assert name == NodeName(server, Value(digits, 10));
    }
    if i :| 0 <= i < n && name == NodeName(server, i) {
      DecimalIs(i);
    }
  }

  /** No two virtual nodes have one name. */
  lemma NodeNameUnique(s: string, i: nat, t: string, j: nat)
    requires NodeName(s, i) == NodeName(t, j)
    ensures s == t && i == j
  {
    DecimalIs(i);
    DecimalIs(j);
    var a, b, name := Decimal(i), Decimal(j), NodeName(s, i);
    if |s| < |t| {
      HyphenApart(s, a, t, b);
    } else if |t| < |s| {
      HyphenApart(t, b, s, a);
    } else {
      assert s == name[..|s|] == t;
      assert a == name[|s|+1..] == b;
    }
  }

  lemma HyphenApart(s: string, a: string, t: string, b: string)
    requires |s| < |t| && AllDigits(a, 10)
    ensures s + "-" + a != t + "-" + b
  {
    var k := |t| - |s| - 1;
    if k < |a| {
      assert Digit(a[k], 10).Some?;
      assert (s + "-" + a)[|t|] == a[k];
    }
  }

  /** The name of a virtual node of one of the servers. */
  ghost predicate IsNameAmong(replicas: nat, servers: set<string>, name: string) {
    exists s :: s in servers && IsNodeName(s, replicas, name)
  }

  /** There is no collision exactly when the hash tells the names of the virtual nodes apart. */
  lemma CollisionFreeExactly(hash: Hash, replicas: nat, servers: set<string>)
    ensures CollisionFree(hash, replicas, servers) <==>
      forall a, b | IsNameAmong(replicas, servers, a) && IsNameAmong(replicas, servers, b) ::
        hash(a) == hash(b) ==> a == b
  {
    hide NodeName, IsNodeName;
    if CollisionFree(hash, replicas, servers) {
      forall a, b | IsNameAmong(replicas, servers, a) && IsNameAmong(replicas, servers, b) && hash(a) == hash(b)
        ensures a == b
      {
        var s, i := NodeNamed(replicas, servers, a);
        var t, j := NodeNamed(replicas, servers, b);
        assert Point(hash, s, i) == Point(hash, t, j);
      }
    } else {
      var s, t, i, j :|
        && s in servers && t in servers && 0 <= i < replicas && 0 <= j < replicas
        && Point(hash, s, i) == Point(hash, t, j) && !(s == t && i == j);
      NodeNameIs(s, replicas, NodeName(s, i));
      NodeNameIs(t, replicas, NodeName(t, j));
      if NodeName(s, i) == NodeName(t, j) {
        NodeNameUnique(s, i, t, j);
      }
      assert IsNameAmong(replicas, servers, NodeName(s, i)) && IsNameAmong(replicas, servers, NodeName(t, j));
    }
  }

  lemma NodeNamed(replicas: nat, servers: set<string>, name: string) returns (s: string, i: nat)
    requires IsNameAmong(replicas, servers, name)
    ensures s in servers && i < replicas && name == NodeName(s, i)
  {
    s :| s in servers && IsNodeName(s, replicas, name);
    NodeNameIs(s, replicas, name);
    i :| 0 <= i < replicas && name == NodeName(s, i);
  }

  /** A hash that tells all strings apart has no collisions, whatever the servers. */
  lemma InjectiveHash(hash: Hash, replicas: nat, servers: set<string>)
    requires forall a, b :: hash(a) == hash(b) ==> a == b
    ensures CollisionFree(hash, replicas, servers)
  {
    CollisionFreeExactly(hash, replicas, servers);
  }

  /** The hash of a name of one of the first `n` virtual nodes of a server. */
  ghost predicate IsPosition(hash: Hash, server: string, n: nat, p: nat) {
    exists name :: IsNodeName(server, n, name) && p == hash(name)
  }

  lemma PointsArePositions(hash: Hash, server: string, n: nat)
    ensures forall p :: p in Points(hash, server, n) <==> IsPosition(hash, server, n, p)
  {
    hide NodeName, IsNodeName;
    forall i | 0 <= i < n
      ensures IsPosition(hash, server, n, Point(hash, server, i))
    {
      NodeNameIs(server, n, NodeName(server, i));
    }
    forall p | IsPosition(hash, server, n, p)
      ensures p in Points(hash, server, n)
    {
      var name :| IsNodeName(server, n, name) && p == hash(name);
      NodeNameIs(server, n, name);
      var i :| 0 <= i < n && name == NodeName(server, i);
      assert p == Point(hash, server, i);
    }
  }

  /** The server has taken its positions, whoever had them, and no others. */
  ghost predicate TakesPositions(hash: Hash, server: string, n: nat, before: Ring, after: Ring) {
    && (forall p :: p in after <==> p in before || IsPosition(hash, server, n, p))
    && (forall p :: p in after ==> after[p] == if IsPosition(hash, server, n, p) then server else before[p])
  }

  /** The server has left its positions, and no others. */
  ghost predicate LeavesPositions(hash: Hash, server: string, n: nat, before: Ring, after: Ring) {
    && (forall p :: p in after <==> p in before && !IsPosition(hash, server, n, p))
    && (forall p :: p in after ==> after[p] == before[p])
  }

  lemma AddedTakesPositions(hash: Hash, server: string, n: nat, ring: Ring)
    ensures TakesPositions(hash, server, n, ring, WithServer(ring, Points(hash, server, n), server))
  {
    hide Points, IsPosition;
    PointsArePositions(hash, server, n);
  }

  lemma RemovedLeavesPositions(hash: Hash, server: string, n: nat, ring: Ring)
    ensures LeavesPositions(hash, server, n, ring, ring - Points(hash, server, n))
  {
    hide Points, IsPosition;
    PointsArePositions(hash, server, n);
  }

  // ---------- who owns a position ----------

  /** The first of the keys at or after position `x`, going round. */
  ghost predicate IsNext(keys: set<nat>, x: nat, p: nat) {
    && p in keys
    && (p >= x ==> forall q :: q in keys && q >= x ==> p <= q)
    && (p < x ==> forall q :: q in keys ==> q < x && p <= q)
  }

  lemma NextUnique(keys: set<nat>, x: nat, p: nat, q: nat)
    requires IsNext(keys, x, p) && IsNext(keys, x, q)
    ensures p == q
  {
  }

  /** The server of position `x`. */
  ghost predicate Owns(ring: Ring, x: nat, server: string) {
    exists p :: IsNext(ring.Keys, x, p) && ring[p] == server
  }

  function WithServer(ring: Ring, points: set<nat>, server: string): Ring {
    ring + map p | p in points :: server
  }

  /** A new server takes over what it gets; everything else stays where it was. */
  lemma AddingMovesOnlyToNew(ring: Ring, points: set<nat>, server: string, x: nat, owner: string)
    requires ring != map[]
    requires Owns(WithServer(ring, points, server), x, owner)
    ensures owner == server || Owns(ring, x, owner)
  {
    var after := WithServer(ring, points, server);
    var p :| IsNext(after.Keys, x, p) && after[p] == owner;
    if p !in points {
      assert IsNext(ring.Keys, x, p);
    }
  }

  /** A server that goes gives away only what it had. */
  lemma RemovingMovesOnlyItsOwn(ring: Ring, points: set<nat>, server: string, x: nat, owner: string)
    requires forall p :: p in ring ==> (p in points <==> ring[p] == server)
    requires Owns(ring, x, owner) && owner != server
    ensures Owns(ring - points, x, owner)
  {
    var p :| IsNext(ring.Keys, x, p) && ring[p] == owner;
    assert IsNext((ring - points).Keys, x, p);
  }

  /** Adding a server and removing it again restores the ring exactly when no position was taken from another. */
  lemma AddRemoveRestores(ring: Ring, points: set<nat>, server: string)
    ensures WithServer(ring, points, server) - points == ring <==> ring.Keys !! points
  {
    var back := WithServer(ring, points, server) - points;
    assert back.Keys == ring.Keys - points;
    if ring.Keys !! points {
      assert back == ring;
    } else {
      var p :| p in ring.Keys && p in points;
      assert p !in back;
    }
  }

  /** The order in which two servers come matters exactly when a position of one is a position of the other. */
  lemma OrderMatters(ring: Ring, p: set<nat>, s: string, q: set<nat>, t: string)
    ensures WithServer(WithServer(ring, p, s), q, t) == WithServer(WithServer(ring, q, t), p, s) <==> s == t || p !! q
  {
    var a, b := WithServer(WithServer(ring, p, s), q, t), WithServer(WithServer(ring, q, t), p, s);
    assert a.Keys == b.Keys;
    if !(p !! q) {
      var x :| x in p && x in q;
      assert a[x] == t && b[x] == s;
    }
    if s == t || p !! q {
      assert a == b;
    }
  }

  /** The ring of one more server is the ring with its points. */
  lemma RingWith(hash: Hash, replicas: nat, servers: set<string>, server: string, ring: Ring)
    requires CollisionFree(hash, replicas, servers + {server}) && IsRing(hash, replicas, servers, ring)
    ensures IsRing(hash, replicas, servers + {server}, WithServer(ring, Points(hash, server, replicas), server))
  {
  }

  // ---------- the sorted list of positions ----------

  ghost predicate Ascending(keys: seq<nat>) {
    forall i, j :: 0 <= i < j < |keys| ==> keys[i] <= keys[j]
  }

  ghost predicate StrictlyAscending(keys: seq<nat>) {
    forall i, j :: 0 <= i < j < |keys| ==> keys[i] < keys[j]
  }

  function Elements(keys: seq<nat>): set<nat> {
    set k | k in keys
  }

  /** `bisect.bisect`: where to insert, after equal keys. */
  method Bisect(keys: seq<nat>, h: nat) returns (index: nat)
    requires Ascending(keys)
    ensures index <= |keys|
    ensures forall i :: 0 <= i < index ==> keys[i] <= h
    ensures forall i :: index <= i < |keys| ==> keys[i] > h
  {
    var lo, hi := 0, |keys|;
    while lo < hi
      invariant 0 <= lo <= hi <= |keys|
      invariant forall i :: 0 <= i < lo ==> keys[i] <= h
      invariant forall i :: hi <= i < |keys| ==> keys[i] > h
    {
      var mid := (lo + hi) / 2;
      if h < keys[mid] {
        hi := mid;
      } else {
        lo := mid + 1;
      }
    }
    return lo;
  }

  /** `bisect.insort`. */
  method Insort(keys: seq<nat>, h: nat) returns (r: seq<nat>)
    requires Ascending(keys)
    ensures Ascending(r) && multiset(r) == multiset(keys) + multiset{h}
  {
    var index := Bisect(keys, h);
    r := keys[..index] + [h] + keys[index..];
    InsertedAscends(keys, h, index);
    BagOfParts(keys[..index], h, keys[index..]);
  }

  lemma InsertedAscends(keys: seq<nat>, h: nat, index: nat)
    requires Ascending(keys) && index <= |keys|
    requires forall i :: 0 <= i < index ==> keys[i] <= h
    requires forall i :: index <= i < |keys| ==> keys[i] > h
    ensures Ascending(keys[..index] + [h] + keys[index..])
    ensures keys == keys[..index] + keys[index..]
  {
  }

  lemma BagOfParts(before: seq<nat>, h: nat, rest: seq<nat>)
    ensures multiset(before + [h] + rest) == multiset(before + rest) + multiset{h}
  {
  }

  /** `list.remove`, for a value that is in the list. */
  method RemoveFirst(keys: seq<nat>, h: nat) returns (r: seq<nat>)
    requires Ascending(keys) && h in keys
    ensures Ascending(r) && multiset(r) == multiset(keys) - multiset{h}
  {
    hide Ascending;
    var index := 0;
    while keys[index] != h
      invariant 0 <= index < |keys|
      invariant h in keys[index..]
      decreases |keys| - index
    {
      index := index + 1;
    }
    r := keys[..index] + keys[index+1..];
    RemovedAscends(keys, index);
    BagOfParts(keys[..index], h, keys[index+1..]);
  }

  lemma RemovedAscends(keys: seq<nat>, index: nat)
    requires Ascending(keys) && index < |keys|
    ensures Ascending(keys[..index] + keys[index+1..])
    ensures keys == keys[..index] + [keys[index]] + keys[index+1..]
  {
  }

  // ---------- what the sorted list holds ----------

  /** The positions of the virtual nodes `i` to `n` of a server, each as often as it occurs. */
  function Bag(hash: Hash, server: string, i: nat, n: nat): multiset<nat>
    decreases n - i
  {
    if i >= n then multiset{} else multiset{Point(hash, server, i)} + Bag(hash, server, i + 1, n)
  }

  /** The positions of all virtual nodes of a list of servers. */
  function Total(hash: Hash, replicas: nat, list: seq<string>): multiset<nat> {
    if list == [] then multiset{} else Bag(hash, list[0], 0, replicas) + Total(hash, replicas, list[1..])
  }

  function Listed(list: seq<string>): set<string> {
    set s | s in list
  }

  lemma {:induction false} TotalConcat(hash: Hash, replicas: nat, a: seq<string>, b: seq<string>)
    ensures Total(hash, replicas, a + b) == Total(hash, replicas, a) + Total(hash, replicas, b)
  {
    hide Total, Bag;
    TotalStep(hash, replicas, a);
    if a == [] {
      assert a + b == b;
    } else {
      TotalConcat(hash, replicas, a[1..], b);
      TotalStep(hash, replicas, a + b);
      assert (a + b)[0] == a[0] && (a + b)[1..] == a[1..] + b;
    }
  }

  lemma TotalStep(hash: Hash, replicas: nat, list: seq<string>)
    ensures Total(hash, replicas, list) ==
      if list == [] then multiset{} else Bag(hash, list[0], 0, replicas) + Total(hash, replicas, list[1..])
  {
  }

  lemma TotalOfOne(hash: Hash, replicas: nat, server: string)
    ensures Total(hash, replicas, [server]) == Bag(hash, server, 0, replicas)
  {
    assert [server][1..] == [];
  }

  lemma {:induction false} InBag(hash: Hash, server: string, i: nat, n: nat, p: nat)
    ensures p in Bag(hash, server, i, n) <==> exists j :: i <= j < n && p == Point(hash, server, j)
    decreases n - i
  {
    hide Point;
    if i < n {
      InBag(hash, server, i + 1, n, p);
      assert p == Point(hash, server, i) ==> p in Bag(hash, server, i, n);
    }
  }

  lemma {:induction false} InTotal(hash: Hash, replicas: nat, list: seq<string>, p: nat)
    ensures p in Total(hash, replicas, list) <==> exists s :: s in list && p in Points(hash, s, replicas)
  {
    if list != [] {
      InTotal(hash, replicas, list[1..], p);
      PointsInBag(hash, list[0], replicas, p);
      hide Bag, Points;
      assert list[0] in list && forall s :: s in list <==> s == list[0] || s in list[1..];
    }
  }

  lemma PointsInBag(hash: Hash, server: string, n: nat, p: nat)
    ensures p in Bag(hash, server, 0, n) <==> p in Points(hash, server, n)
  {
    InBag(hash, server, 0, n, p);
  }

  /** Without collisions, servers listed once have each of their positions once. */
  lemma {:induction false} BagOnce(hash: Hash, replicas: nat, servers: set<string>, server: string, i: nat, p: nat)
    requires CollisionFree(hash, replicas, servers) && server in servers
    ensures Bag(hash, server, i, replicas)[p] <= 1
    decreases replicas - i
  {
    hide Point;
    if i < replicas {
      BagOnce(hash, replicas, servers, server, i + 1, p);
      InBag(hash, server, i + 1, replicas, p);
    }
  }

  lemma {:induction false} TotalOnce(hash: Hash, replicas: nat, list: seq<string>, p: nat)
    requires Distinct(list) && CollisionFree(hash, replicas, Listed(list))
    ensures Total(hash, replicas, list)[p] <= 1
  {
    if list != [] {
      hide CollisionFree;
      FewerServers(hash, replicas, Listed(list[1..]), Listed(list));
      TotalOnce(hash, replicas, list[1..], p);
      BagOnce(hash, replicas, Listed(list), list[0], 0, p);
      InBag(hash, list[0], 0, replicas, p);
      InTotal(hash, replicas, list[1..], p);
      PointsInBag(hash, list[0], replicas, p);
      forall t | t in list[1..]
        ensures !(p in Points(hash, list[0], replicas) && p in Points(hash, t, replicas))
      {
        OneOwner(hash, replicas, Listed(list), list[0], t, p);
      }
    }
  }

  lemma OneOwner(hash: Hash, replicas: nat, servers: set<string>, s: string, t: string, p: nat)
    requires CollisionFree(hash, replicas, servers) && s in servers && t in servers
    ensures p in Points(hash, s, replicas) && p in Points(hash, t, replicas) ==> s == t
  {
    if p in Points(hash, s, replicas) && p in Points(hash, t, replicas) {
      var i :| 0 <= i < replicas && p == Point(hash, s, i);
      var j :| 0 <= j < replicas && p == Point(hash, t, j);
    }
  }

  lemma FewerServers(hash: Hash, replicas: nat, few: set<string>, many: set<string>)
    requires CollisionFree(hash, replicas, many) && few <= many
    ensures CollisionFree(hash, replicas, few)
  {
  }

  // ---------- the ring with a dict and a sorted list ----------

  datatype Answer = NoServer | Found(server: string) | KeyError

  /** Every position of the ring is one of a current server, which is the server it stands for. */
  ghost predicate Placed(hash: Hash, replicas: nat, servers: set<string>, ring: Ring) {
    forall p :: p in ring ==> ring[p] in servers && p in Points(hash, ring[p], replicas)
  }

  /** The list is sorted and has the positions of `bag`, as often as that has them. */
  ghost predicate Lists(keys: seq<nat>, bag: multiset<nat>) {
    Ascending(keys) && multiset(keys) == bag
  }

  /** Keys only move to `server`. */
  ghost predicate MovesTo(before: Ring, after: Ring, server: string) {
    forall x, owner :: before != map[] && Owns(after, x, owner) ==> owner == server || Owns(before, x, owner)
  }

  /** Only keys of `server` move. */
  ghost predicate MovesFrom(before: Ring, after: Ring, server: string) {
    forall x, owner :: Owns(before, x, owner) && owner != server ==> Owns(after, x, owner)
  }

  lemma AddingMoves(ring: Ring, points: set<nat>, server: string)
    ensures MovesTo(ring, WithServer(ring, points, server), server)
  {
    hide Owns, WithServer;
    forall x, owner | ring != map[] && Owns(WithServer(ring, points, server), x, owner)
      ensures owner == server || Owns(ring, x, owner)
    {
      AddingMovesOnlyToNew(ring, points, server, x, owner);
    }
  }

  lemma RemovingMoves(hash: Hash, replicas: nat, servers: set<string>, server: string, ring: Ring)
    requires CollisionFree(hash, replicas, servers) && IsRing(hash, replicas, servers, ring) && server in servers
    ensures MovesFrom(ring, ring - Points(hash, server, replicas), server)
  {
    hide Owns;
    forall x, owner | Owns(ring, x, owner) && owner != server
      ensures Owns(ring - Points(hash, server, replicas), x, owner)
    {
      RemovingMovesOnlyItsOwn(ring, Points(hash, server, replicas), server, x, owner);
    }
  }

  /** Only positions of its own are taken away, or such as leave their keys with the same server. */
  ghost predicate TakesNone(ring: Ring, points: set<nat>, server: string) {
    forall p :: p in ring && p in points && ring[p] != server ==> Owns(ring - points, p, ring[p])
  }

  /** Taking positions away moves keys of another server exactly when it takes one that the next does not make good. */
  lemma RemovalMoves(ring: Ring, points: set<nat>, server: string)
    ensures MovesFrom(ring, ring - points, server) <==> TakesNone(ring, points, server)
  {
    if MovesFrom(ring, ring - points, server) {
      forall p | p in ring && p in points && ring[p] != server
        ensures Owns(ring - points, p, ring[p])
      {
        assert IsNext(ring.Keys, p, p);
        assert Owns(ring, p, ring[p]);
      }
    }
    if TakesNone(ring, points, server) {
      forall x, owner | Owns(ring, x, owner) && owner != server
        ensures Owns(ring - points, x, owner)
      {
        StaysWith(ring, points, server, x, owner);
      }
    }
  }

  lemma StaysWith(ring: Ring, points: set<nat>, server: string, x: nat, owner: string)
    requires TakesNone(ring, points, server) && Owns(ring, x, owner) && owner != server
    ensures Owns(ring - points, x, owner)
  {
    var after := ring - points;
    var p :| IsNext(ring.Keys, x, p) && ring[p] == owner;
    if p in points {
      assert Owns(after, p, owner);
      var q :| IsNext(after.Keys, p, q) && after[q] == owner;
      assert IsNext(after.Keys, x, q);
    } else {
      assert IsNext(after.Keys, x, p);
    }
  }

  datatype Change = Added(server: string) | Removed(server: string)

  /** Of the changes that concern the position, the last is a removal. */
  predicate LastTaken(hash: Hash, replicas: nat, history: seq<Change>, p: nat) {
    if history == [] then false
    else
      var n := |history| - 1;
      if p in Points(hash, history[n].server, replicas) then history[n].Removed?
      else LastTaken(hash, replicas, history[..n], p)
  }

  lemma LastTakenStep(hash: Hash, replicas: nat, history: seq<Change>, change: Change, p: nat)
    ensures LastTaken(hash, replicas, history + [change], p) ==
      if p in Points(hash, change.server, replicas) then change.Removed? else LastTaken(hash, replicas, history, p)
  {
    assert (history + [change])[..|history|] == history;
  }

  /** A listed position is a position of the ring unless the last change to it was a removal. */
  ghost predicate Tracks(hash: Hash, replicas: nat, keys: seq<nat>, ring: Ring, history: seq<Change>) {
    forall p :: p in keys ==> (p in ring <==> !LastTaken(hash, replicas, history, p))
  }

  lemma TracksAdded(
    hash: Hash, replicas: nat, keys: seq<nat>, more: seq<nat>, ring: Ring, history: seq<Change>, server: string)
    requires Tracks(hash, replicas, keys, ring, history)
    requires multiset(more) == multiset(keys) + Bag(hash, server, 0, replicas)
    ensures Tracks(hash, replicas, more, WithServer(ring, Points(hash, server, replicas), server),
                   history + [Added(server)])
  {
    hide LastTaken, Points;
    forall p | p in more
      ensures p in WithServer(ring, Points(hash, server, replicas), server) <==>
        !LastTaken(hash, replicas, history + [Added(server)], p)
    {
      assert p in multiset(more);
      PointsInBag(hash, server, replicas, p);
      LastTakenStep(hash, replicas, history, Added(server), p);
      assert p in multiset(keys) ==> p in keys;
    }
  }

  lemma TracksRemoved(
    hash: Hash, replicas: nat, keys: seq<nat>, fewer: seq<nat>, ring: Ring, history: seq<Change>, server: string)
    requires Tracks(hash, replicas, keys, ring, history)
    requires multiset(keys) == multiset(fewer) + Bag(hash, server, 0, replicas)
    ensures Tracks(hash, replicas, fewer, ring - Points(hash, server, replicas), history + [Removed(server)])
  {
    hide LastTaken, Points, Bag;
    forall p | p in fewer
      ensures p in ring - Points(hash, server, replicas) <==>
        !LastTaken(hash, replicas, history + [Removed(server)], p)
    {
      assert p in multiset(fewer);
      assert p in multiset(keys);
      LastTakenStep(hash, replicas, history, Removed(server), p);
    }
  }

  class HashRing {
    const hash: Hash
    const numReplicas: nat
    var ring: Ring
    var sortedKeys: seq<nat>
    var servers: set<string>

    // The servers in the order they came, and those that were added while they were there.
    ghost var present: seq<string>
    ghost var again: seq<string>

    // The changes made so far.
    ghost var history: seq<Change>

    /** Collisions or not, the list has the positions of every server added, less those removed. */
    ghost predicate Valid()
      reads this
    {
      && Placed(hash, numReplicas, servers, ring)
      && Distinct(present) && Listed(present) == servers
      && Lists(sortedKeys, Total(hash, numReplicas, present) + Total(hash, numReplicas, again))
      && Tracks(hash, numReplicas, sortedKeys, ring, history)
    }

    /** The ring is the one its servers should have. */
    ghost predicate Exact()
      reads this
    {
      IsRing(hash, numReplicas, servers, ring)
    }

    constructor Empty(hash: Hash, numReplicas: nat)
      ensures this.hash == hash && this.numReplicas == numReplicas
      ensures Valid() && Exact() && servers == {} && again == [] && history == []
    {
      this.hash, this.numReplicas := hash, numReplicas;
      ring, sortedKeys, servers, present, again, history := map[], [], {}, [], [], [];
    }

    method AddServer(server: string)
      requires Valid()
      modifies this
      ensures Valid() && servers == old(servers) + {server}
      ensures ring == WithServer(old(ring), Points(hash, server, numReplicas), server)
      ensures TakesPositions(hash, server, numReplicas, old(ring), ring)
      ensures again == if server in old(servers) then old(again) + [server] else old(again)
      ensures history == old(history) + [Added(server)]
      ensures old(Exact()) && CollisionFree(hash, numReplicas, servers) ==> Exact()
      ensures MovesTo(old(ring), ring, server)
    {
      hide IsRing, CollisionFree, Points, WithServer, Point, Placed, MovesTo, Total, Bag, Distinct, Lists, Tracks;
      hide TakesPositions;
      AddedTakesPositions(hash, server, numReplicas, ring);
      ghost var keys, before := sortedKeys, Total(hash, numReplicas, present) + Total(hash, numReplicas, again);
      SameBag(keys, before);
      ghost var points := Points(hash, server, numReplicas);
      if Exact() && CollisionFree(hash, numReplicas, servers + {server}) {
        RingWith(hash, numReplicas, servers, server, ring);
      }
      AddingMoves(ring, points, server);
      PlacedWith(hash, numReplicas, servers, server, ring);
      ListedMore(hash, numReplicas, present, again, server);
      AddPoints(server, before);
      SameBag(sortedKeys, before + Bag(hash, server, 0, numReplicas));
      TracksAdded(hash, numReplicas, keys, sortedKeys, old(ring), history, server);
      history := history + [Added(server)];
      if server in servers {
        again := again + [server];
      } else {
        present := present + [server];
      }
      servers := servers + {server};
    }

    /** The loop of add_server. */
    method AddPoints(server: string, ghost bag: multiset<nat>)
      requires Lists(sortedKeys, bag)
      modifies this`ring, this`sortedKeys
      ensures ring == WithServer(old(ring), Points(hash, server, numReplicas), server)
      ensures Lists(sortedKeys, bag + Bag(hash, server, 0, numReplicas))
    {
      hide Points, WithServer, Point, Ascending, Bag;
      NoPoints(hash, server, ring);
      ghost var done := bag;
      for i := 0 to numReplicas
        invariant ring == WithServer(old(ring), Points(hash, server, i), server)
        invariant Lists(sortedKeys, done)
        invariant done + Bag(hash, server, i, numReplicas) == bag + Bag(hash, server, 0, numReplicas)
      {
        var hashVal := Point(hash, server, i);
        PointsStep(hash, server, i);
        BagStep(hash, server, i, numReplicas);
        OneEntryMore(old(ring), Points(hash, server, i), server, hashVal);
        ring := ring[hashVal := server];
        sortedKeys := Insort(sortedKeys, hashVal);
        done := done + multiset{hashVal};
      }
      BagEnd(hash, server, numReplicas);
    }

    /** The loop of the constructor over its initial servers. */
    method AddServers(list: seq<string>)
      requires Valid()
      modifies this
      ensures Valid() && servers == old(servers) + Listed(list)
      ensures Distinct(list) && old(servers) !! Listed(list) ==> again == old(again)
      ensures old(Exact()) && CollisionFree(hash, numReplicas, servers) ==> Exact()
    {
      hide IsRing, Points, WithServer, CollisionFree, Distinct, HashRing.Valid, MovesTo;
      for i := 0 to |list|
        invariant Valid() && servers == old(servers) + Listed(list[..i])
        invariant Distinct(list) && old(servers) !! Listed(list) ==> again == old(again)
        invariant old(Exact()) && CollisionFree(hash, numReplicas, servers) ==> Exact()
      {
        Newcomer(hash, numReplicas, old(servers), list, i);
        AddServer(list[i]);
      }
      assert list[..|list|] == list;
    }

    /** Nothing is ever removed from the list that is not there. */
    method RemoveServer(server: string)
      requires Valid()
      modifies this
      ensures Valid() && servers == old(servers) - {server} && again == old(again)
      ensures history == if server in old(servers) then old(history) + [Removed(server)] else old(history)
      ensures ring == if server in old(servers) then old(ring) - Points(hash, server, numReplicas) else old(ring)
      ensures server in old(servers) ==> LeavesPositions(hash, server, numReplicas, old(ring), ring)
      ensures old(Exact()) && CollisionFree(hash, numReplicas, old(servers)) ==>
        Exact() && MovesFrom(old(ring), ring, server)
      ensures MovesFrom(old(ring), ring, server) <==>
        (server in old(servers) ==> TakesNone(old(ring), Points(hash, server, numReplicas), server))
    {
      hide IsRing, CollisionFree, Points, Point, Placed, MovesFrom, Total, Bag, Distinct, Lists, Tracks, TakesNone;
      hide LeavesPositions;
      RemovedLeavesPositions(hash, server, numReplicas, ring);
      if server in servers {
        if Exact() && CollisionFree(hash, numReplicas, servers) {
          RingWithout(hash, numReplicas, servers, server, ring);
          RemovingMoves(hash, numReplicas, servers, server, ring);
        }
        PlacedWithout(hash, numReplicas, servers, server, ring);
        RemovalMoves(ring, Points(hash, server, numReplicas), server);
        ghost var fewer := ListedLess(hash, numReplicas, present, again, server);
        ghost var keys, rest := sortedKeys, Total(hash, numReplicas, fewer) + Total(hash, numReplicas, again);
        SameBag(keys, rest + Bag(hash, server, 0, numReplicas));
        RemovePoints(server, rest);
        SameBag(sortedKeys, rest);
        TracksRemoved(hash, numReplicas, keys, sortedKeys, old(ring), history, server);
        servers, present, history := servers - {server}, fewer, history + [Removed(server)];
      } else {
        StaysPut(ring, server);
      }
    }

    /** The loop of remove_server. */
    method RemovePoints(server: string, ghost bag: multiset<nat>)
      requires Lists(sortedKeys, bag + Bag(hash, server, 0, numReplicas))
      modifies this`ring, this`sortedKeys
      ensures ring == old(ring) - Points(hash, server, numReplicas)
      ensures Lists(sortedKeys, bag)
    {
      hide Points, Point, Ascending, Bag;
      NoPoints(hash, server, ring);
      for i := 0 to numReplicas
        invariant ring == old(ring) - Points(hash, server, i)
        invariant Lists(sortedKeys, bag + Bag(hash, server, i, numReplicas))
      {
        var hashVal := Point(hash, server, i);
        OnePointLess(hash, server, old(ring), i);
        BagStep(hash, server, i, numReplicas);
        assert hashVal in multiset(sortedKeys);
        ring := ring - {hashVal};
        sortedKeys := RemoveFirst(sortedKeys, hashVal);
      }
      BagEnd(hash, server, numReplicas);
    }

    /**
      The server of the first position of the list after the hash of the key, going round. It is the
      owner of the key unless a server was added while it was there and has gone since.
     */
    method GetServer(key: string) returns (r: Answer)
      requires Valid()
      ensures ring == map[] <==> r == NoServer
      ensures ring != map[] ==> exists p ::
        && IsNext(Elements(sortedKeys), hash(key) + 1, p)
        && r == if p in ring then Found(ring[p]) else KeyError
      ensures ring != map[] && Exact() && Listed(again) <= servers ==>
        r.Found? && Owns(ring, hash(key) + 1, r.server)
    {
      hide IsRing, HashRing.Valid;
      if |ring| == 0 {
        return NoServer;
      }
      ListHoldsRing();
      var hashVal := hash(key);
      var p := NextKey(hashVal);
      r := if p in ring then Found(ring[p]) else KeyError;
    }

    /** The bisection of get_server. */
    method NextKey(hashVal: nat) returns (p: nat)
      requires Ascending(sortedKeys) && sortedKeys != []
      ensures IsNext(Elements(sortedKeys), hashVal + 1, p)
    {
      var index := Bisect(sortedKeys, hashVal);
      NextAt(sortedKeys, hashVal, index);
      index := index % |sortedKeys|;
      p := sortedKeys[index];
    }

    /** The keys of the ring are in the list; what else is there comes of adding servers again. */
    lemma ListHoldsRing()
      requires Valid()
      ensures Ascending(sortedKeys) && ring.Keys <= Elements(sortedKeys)
      ensures ring != map[] ==> sortedKeys != []
      ensures Exact() ==> forall p :: p in sortedKeys <==>
        p in ring || exists s :: s in again && p in Points(hash, s, numReplicas)
      ensures Exact() && Listed(again) <= servers ==> Elements(sortedKeys) == ring.Keys
    {
      hide Total, Points;
      forall p
        ensures p in sortedKeys <==>
          || (exists s :: s in present && p in Points(hash, s, numReplicas))
          || (exists s :: s in again && p in Points(hash, s, numReplicas))
      {
        assert p in multiset(sortedKeys) <==> p in sortedKeys;
        InTotal(hash, numReplicas, present, p);
        InTotal(hash, numReplicas, again, p);
      }
      assert forall s :: s in present <==> s in servers;
      forall p | p in ring
        ensures p in sortedKeys
      {
        assert ring[p] in present;
      }
      if Exact() {
        forall s, p | s in servers && p in Points(hash, s, numReplicas)
          ensures p in ring
        {
          PointPlaced(hash, numReplicas, servers, ring, s, p);
        }
        assert ring != map[] ==> exists p :: p in ring;
      }
    }

    /**
      Over any run, collisions or not: no look-up fails exactly when of no position of a server that is there,
      or was added while it was there, the last change was a removal.
     */
    lemma NoKeyErrorOverRun()
      requires Valid() && ring != map[]
      ensures (forall x, p :: x > 0 && IsNext(Elements(sortedKeys), x, p) ==> p in ring) <==>
        forall s, p :: (s in servers || s in again) && p in Points(hash, s, numReplicas) ==>
          !LastTaken(hash, numReplicas, history, p)
    {
      hide Points, IsNext, LastTaken, Total, Placed;
      NoKeyErrorInList();
      ListHoldsRing();
      assert Elements(sortedKeys) == ring.Keys <==> forall p :: p in sortedKeys ==> p in ring;
      forall s, p | (s in servers || s in again) && p in Points(hash, s, numReplicas)
        ensures p in sortedKeys
      {
        InList(p);
      }
      forall p | p in sortedKeys
        ensures exists s :: (s in servers || s in again) && p in Points(hash, s, numReplicas)
      {
        InList(p);
      }
      assert (forall p :: p in sortedKeys ==> p in ring) <==>
        (forall p :: p in sortedKeys ==> !LastTaken(hash, numReplicas, history, p));
    }

    lemma InList(p: nat)
      requires Valid()
      ensures p in sortedKeys <==> exists s :: (s in servers || s in again) && p in Points(hash, s, numReplicas)
    {
      hide Total, Points, Tracks, Placed;
      assert p in multiset(sortedKeys) <==> p in sortedKeys;
      InTotal(hash, numReplicas, present, p);
      InTotal(hash, numReplicas, again, p);
      assert forall s :: s in present <==> s in servers;
    }

    /** No look-up fails exactly when the list has only keys of the ring, collisions or not. */
    lemma NoKeyErrorInList()
      requires Valid() && ring != map[]
      ensures (forall x, p :: x > 0 && IsNext(Elements(sortedKeys), x, p) ==> p in ring)
        <==> Elements(sortedKeys) == ring.Keys
    {
      hide HashRing.Valid;
      ListHoldsRing();
      forall p | p in sortedKeys
        ensures exists x :: x > 0 && IsNext(Elements(sortedKeys), x, p)
      {
        if p > 0 {
          assert IsNext(Elements(sortedKeys), p, p);
        } else {
          var last := sortedKeys[|sortedKeys|-1];
          assert forall q :: q in Elements(sortedKeys) ==> q < last + 1;
          assert IsNext(Elements(sortedKeys), last + 1, p);
        }
      }
    }

    /**
      Without collisions no look-up fails exactly when every server that was ever added while it was
      there is there now.
     */
    lemma NoKeyError()
      requires Valid() && Exact() && ring != map[]
      requires CollisionFree(hash, numReplicas, servers + Listed(again))
      ensures (forall x, p :: x > 0 && IsNext(Elements(sortedKeys), x, p) ==> p in ring)
        <==> Listed(again) <= servers
    {
      hide HashRing.Valid, CollisionFree, IsRing, IsNext;
      ListHoldsRing();
      NoKeyErrorInList();
      HasReplicas();
      if s :| s in again && s !in servers {
        var p := Point(hash, s, 0);
        assert p in Points(hash, s, numReplicas) && p in sortedKeys;
        if p in ring {
          PlacedOwner(hash, numReplicas, servers, ring, p);
          OneOwner(hash, numReplicas, servers + Listed(again), s, ring[p], p);
        }
      }
    }

    lemma HasReplicas()
      requires Valid() && ring != map[]
      ensures numReplicas > 0
    {
      var p :| p in ring;
    }

    /** If no server was added while it was there, and none collide, the list is strictly ascending. */
    lemma ListStrict()
      requires Valid() && again == [] && CollisionFree(hash, numReplicas, servers)
      ensures StrictlyAscending(sortedKeys)
    {
      forall i, j | 0 <= i < j < |sortedKeys|
        ensures sortedKeys[i] < sortedKeys[j]
      {
        if sortedKeys[i] == sortedKeys[j] {
          CountedTwice(sortedKeys, i, j);
          TotalOnce(hash, numReplicas, present, sortedKeys[i]);
        }
      }
    }
  }

  /** A server that is added twice and removed once leaves a position at which a look-up fails. */
  method LookUpAfterAddingAgain(hash: Hash, replicas: nat, s: string, t: string) returns (r: HashRing)
    requires replicas > 0 && s != t && CollisionFree(hash, replicas, {s, t})
    ensures r.Valid() && r.ring != map[] && r.servers == {t}
    ensures exists x, p :: x > 0 && IsNext(Elements(r.sortedKeys), x, p) && p !in r.ring
  {
    hide IsNext, HashRing.Valid, TakesPositions, LeavesPositions, MovesTo, MovesFrom, TakesNone;
    FewerServers(hash, replicas, {s}, {s, t});
    r := new HashRing.Empty(hash, replicas);
    r.AddServer(s);
    r.AddServer(t);
    assert r.servers == {s, t};
    r.AddServer(s);
    assert r.servers == {s, t} && r.again == [s];
    r.RemoveServer(s);
    assert r.servers == {t} && r.servers + Listed(r.again) == {s, t};
    assert Point(hash, t, 0) in r.ring;
    r.NoKeyError();
    assert s in Listed(r.again);
  }

  /** Two servers that share a position: the second takes it over, and away when it goes. */
  method LookUpAfterCollision(hash: Hash, replicas: nat, s: string, t: string, p: nat, q: nat)
    returns (r: HashRing)
    requires s != t && p in Points(hash, s, replicas) && p in Points(hash, t, replicas)
    requires q in Points(hash, s, replicas) && q !in Points(hash, t, replicas)
    ensures r.Valid() && r.servers == {s} && r.again == [] && r.ring != map[]
    ensures exists x, p :: x > 0 && IsNext(Elements(r.sortedKeys), x, p) && p !in r.ring
  {
    hide IsNext, HashRing.Valid, Points, LastTaken, IsRing, TakesPositions, LeavesPositions, MovesTo, MovesFrom;
    hide TakesNone;
    r := new HashRing.Empty(hash, replicas);
    r.AddServer(s);
    r.AddServer(t);
    assert r.servers == {s, t};
    r.RemoveServer(t);
    assert q in r.ring;
    LastTakenStep(hash, replicas, [Added(s), Added(t)], Removed(t), p);
    assert r.history == [Added(s), Added(t)] + [Removed(t)];
    r.NoKeyErrorOverRun();
  }

  /** A server that had taken over a position of another moves the other's keys when it goes. */
  lemma OthersKeyMoves(ring: Ring)
    requires ring == map[0 := "a", 5 := "b"]
    ensures Owns(ring, 0, "a") && Owns(ring - {0}, 0, "b") && !MovesFrom(ring, ring - {0}, "c")
  {
    var after := ring - {0};
    assert IsNext(ring.Keys, 0, 0) && IsNext(after.Keys, 0, 5);
    assert Owns(ring, 0, "a");
    if Owns(after, 0, "a") {
      var p :| IsNext(after.Keys, 0, p) && after[p] == "a";
      NextUnique(after.Keys, 0, p, 5);
    }
  }

  lemma Newcomer(hash: Hash, replicas: nat, servers: set<string>, list: seq<string>, i: nat)
    requires i < |list|
    ensures servers + Listed(list[..i]) + {list[i]} == servers + Listed(list[..i+1])
    ensures Distinct(list) && servers !! Listed(list) ==> list[i] !in servers + Listed(list[..i])
    ensures CollisionFree(hash, replicas, servers + Listed(list[..i+1])) ==>
      CollisionFree(hash, replicas, servers + Listed(list[..i]))
  {
    hide CollisionFree;
    assert list[..i+1] == list[..i] + [list[i]];
    if CollisionFree(hash, replicas, servers + Listed(list[..i+1])) {
      FewerServers(hash, replicas, servers + Listed(list[..i]), servers + Listed(list[..i+1]));
    }
    assert list[i] in Listed(list);
  }

  lemma ListedMore(hash: Hash, replicas: nat, present: seq<string>, again: seq<string>, server: string)
    requires Distinct(present)
    ensures var bag := Bag(hash, server, 0, replicas);
      var before := Total(hash, replicas, present) + Total(hash, replicas, again);
      && Total(hash, replicas, present + [server]) + Total(hash, replicas, again) == before + bag
      && Total(hash, replicas, present) + Total(hash, replicas, again + [server]) == before + bag
    ensures server !in Listed(present) ==> Distinct(present + [server])
    ensures Listed(present + [server]) == Listed(present) + {server}
  {
    hide Total, Bag;
    TotalConcat(hash, replicas, present, [server]);
    TotalConcat(hash, replicas, again, [server]);
    TotalOfOne(hash, replicas, server);
  }

  lemma TotalWithout(hash: Hash, replicas: nat, list: seq<string>, k: nat)
    requires k < |list|
    ensures Total(hash, replicas, list) ==
      Total(hash, replicas, list[..k] + list[k+1..]) + Bag(hash, list[k], 0, replicas)
  {
    hide Total, Bag;
    var before, after := list[..k], list[k+1..];
    assert list == before + ([list[k]] + after);
    TotalConcat(hash, replicas, before, [list[k]] + after);
    TotalConcat(hash, replicas, [list[k]], after);
    TotalConcat(hash, replicas, before, after);
    TotalOfOne(hash, replicas, list[k]);
  }

  /** The list of servers without one of them. */
  lemma ListedLess(hash: Hash, replicas: nat, present: seq<string>, again: seq<string>, server: string)
    returns (fewer: seq<string>)
    requires Distinct(present) && server in Listed(present)
    ensures Distinct(fewer) && Listed(fewer) == Listed(present) - {server}
    ensures Total(hash, replicas, present) + Total(hash, replicas, again) ==
      Total(hash, replicas, fewer) + Total(hash, replicas, again) + Bag(hash, server, 0, replicas)
  {
    hide Total, Bag;
    var k :| 0 <= k < |present| && present[k] == server;
    fewer := present[..k] + present[k+1..];
    TotalWithout(hash, replicas, present, k);
  }

  lemma PlacedWith(hash: Hash, replicas: nat, servers: set<string>, server: string, ring: Ring)
    requires Placed(hash, replicas, servers, ring)
    ensures Placed(hash, replicas, servers + {server}, WithServer(ring, Points(hash, server, replicas), server))
  {
  }

  lemma PlacedWithout(hash: Hash, replicas: nat, servers: set<string>, server: string, ring: Ring)
    requires Placed(hash, replicas, servers, ring)
    ensures Placed(hash, replicas, servers - {server}, ring - Points(hash, server, replicas))
  {
  }

  lemma PointPlaced(hash: Hash, replicas: nat, servers: set<string>, ring: Ring, s: string, p: nat)
    requires IsRing(hash, replicas, servers, ring) && s in servers && p in Points(hash, s, replicas)
    ensures p in ring && ring[p] == s
  {
    var i :| 0 <= i < replicas && p == Point(hash, s, i);
  }

  lemma PlacedOwner(hash: Hash, replicas: nat, servers: set<string>, ring: Ring, p: nat)
    requires IsRing(hash, replicas, servers, ring) && p in ring
    ensures ring[p] in servers && p in Points(hash, ring[p], replicas)
  {
  }

  lemma StaysPut(ring: Ring, server: string)
    ensures MovesFrom(ring, ring, server)
  {
  }

  lemma SameBag(keys: seq<nat>, bag: multiset<nat>)
    ensures Lists(keys, bag) ==> multiset(keys) == bag
  {
  }

  lemma BagStep(hash: Hash, server: string, i: nat, n: nat)
    requires i < n
    ensures Bag(hash, server, i, n) == multiset{Point(hash, server, i)} + Bag(hash, server, i + 1, n)
  {
  }

  lemma BagEnd(hash: Hash, server: string, n: nat)
    ensures Bag(hash, server, n, n) == multiset{}
  {
  }

  lemma NextAt(keys: seq<nat>, h: nat, index: nat)
    requires Ascending(keys) && keys != [] && index <= |keys|
    requires forall i :: 0 <= i < index ==> keys[i] <= h
    requires forall i :: index <= i < |keys| ==> keys[i] > h
    ensures index % |keys| == if index < |keys| then index else 0
    ensures IsNext(Elements(keys), h + 1, keys[if index < |keys| then index else 0])
  {
    var p := keys[if index < |keys| then index else 0];
    forall q | q in Elements(keys)
      ensures p >= h + 1 && q >= h + 1 ==> p <= q
      ensures p < h + 1 ==> q < h + 1 && p <= q
    {
      var j :| 0 <= j < |keys| && keys[j] == q;
    }
  }

  lemma PointsStep(hash: Hash, server: string, i: nat)
    ensures Points(hash, server, i + 1) == Points(hash, server, i) + {Point(hash, server, i)}
  {
  }

  lemma OnePointLess(hash: Hash, server: string, ring: Ring, i: nat)
    ensures ring - Points(hash, server, i + 1) == ring - Points(hash, server, i) - {Point(hash, server, i)}
  {
    PointsStep(hash, server, i);
  }

  lemma NoPoints(hash: Hash, server: string, ring: Ring)
    ensures Points(hash, server, 0) == {}
    ensures WithServer(ring, {}, server) == ring && ring - {} == ring
  {
  }

  lemma OneEntryMore(ring: Ring, points: set<nat>, server: string, p: nat)
    ensures WithServer(ring, points, server)[p := server] == WithServer(ring, points + {p}, server)
  {
  }

  lemma RingWithout(hash: Hash, replicas: nat, servers: set<string>, server: string, ring: Ring)
    requires CollisionFree(hash, replicas, servers) && IsRing(hash, replicas, servers, ring) && server in servers
    ensures IsRing(hash, replicas, servers - {server}, ring - Points(hash, server, replicas))
  {
  }

  // ---------- the ring with a tree map ----------

  class TreeRing {
    const hash: Hash
    const numReplicas: nat
    var ring: Ring
    var servers: set<string>

    ghost predicate Valid()
      reads this
    {
      IsRing(hash, numReplicas, servers, ring)
    }

    constructor Empty(hash: Hash, numReplicas: nat)
      ensures this.hash == hash && this.numReplicas == numReplicas
      ensures Valid() && servers == {}
    {
      this.hash, this.numReplicas := hash, numReplicas;
      ring, servers := map[], {};
    }

    method AddServer(server: string)
      modifies this
      ensures old(Valid()) && CollisionFree(hash, numReplicas, servers) ==> Valid()
      ensures servers == old(servers) + {server}
      ensures ring == WithServer(old(ring), Points(hash, server, numReplicas), server)
      ensures TakesPositions(hash, server, numReplicas, old(ring), ring)
      ensures MovesTo(old(ring), ring, server)
    {
      hide IsRing, CollisionFree, Points, WithServer, Point, MovesTo, TakesPositions;
      AddedTakesPositions(hash, server, numReplicas, ring);
      AddingMoves(ring, Points(hash, server, numReplicas), server);
      if Valid() && CollisionFree(hash, numReplicas, servers + {server}) {
        RingWith(hash, numReplicas, servers, server, ring);
      }
      servers := servers + {server};
      NoPoints(hash, server, ring);
      for i := 0 to numReplicas
        invariant servers == old(servers) + {server}
        invariant ring == WithServer(old(ring), Points(hash, server, i), server)
      {
        PointsStep(hash, server, i);
        OneEntryMore(old(ring), Points(hash, server, i), server, Point(hash, server, i));
        ring := ring[Point(hash, server, i) := server];
      }
    }

    method RemoveServer(server: string)
      modifies this
      ensures old(Valid()) && CollisionFree(hash, numReplicas, old(servers)) ==>
        Valid() && MovesFrom(old(ring), ring, server)
      ensures MovesFrom(old(ring), ring, server) <==>
        (server in old(servers) ==> TakesNone(old(ring), Points(hash, server, numReplicas), server))
      ensures servers == old(servers) - {server}
      ensures ring == if server in old(servers) then old(ring) - Points(hash, server, numReplicas) else old(ring)
      ensures server in old(servers) ==> LeavesPositions(hash, server, numReplicas, old(ring), ring)
    {
      hide IsRing, CollisionFree, Points, Point, MovesFrom, TakesNone, LeavesPositions;
      RemovedLeavesPositions(hash, server, numReplicas, ring);
      StaysPut(ring, server);
      RemovalMoves(ring, Points(hash, server, numReplicas), server);
      if server in servers {
        if Valid() && CollisionFree(hash, numReplicas, servers) {
          RingWithout(hash, numReplicas, servers, server, ring);
          RemovingMoves(hash, numReplicas, servers, server, ring);
        }
        NoPoints(hash, server, ring);
        for i := 0 to numReplicas
          invariant servers == old(servers)
          invariant ring == old(ring) - Points(hash, server, i)
        {
          OnePointLess(hash, server, old(ring), i);
          ring := ring - {Point(hash, server, i)};
        }
        servers := servers - {server};
      }
    }

    /** The server of the first position at or after the hash of the key, going round. */
    method GetServer(key: string) returns (r: Option<string>)
      ensures ring == map[] <==> r == None
      ensures ring != map[] ==> Owns(ring, hash(key), r.value)
    {
      if |ring| == 0 {
        return None;
      }
      var h := hash(key);
      var entry := CeilingKey(ring.Keys, h);
      if entry == None {
        entry := CeilingKey(ring.Keys, 0);
      }
      assert IsNext(ring.Keys, h, entry.value);
      r := Some(ring[entry.value]);
    }
  }

  /** `ceilingEntry`: the least key not below `h`. */
  method CeilingKey(keys: set<nat>, h: nat) returns (r: Option<nat>)
    ensures r == None ==> forall q :: q in keys ==> q < h
    ensures r.Some? ==> r.value in keys && r.value >= h && forall q :: q in keys && q >= h ==> r.value <= q
  {
    r := None;
    var todo := keys;
    while todo != {}
      invariant todo <= keys
      invariant r == None ==> forall q :: q in keys && q !in todo ==> q < h
      invariant r.Some? ==>
        r.value in keys && r.value >= h && forall q :: q in keys && q !in todo && q >= h ==> r.value <= q
      decreases todo
    {
      var q :| q in todo;
      todo := todo - {q};
      if q >= h && (r == None || q < r.value) {
        r := Some(q);
      }
    }
  }
}
