/** The graph of identifiers that a whois search explores (whois.go), and reachability in it. */
module WhoisGraph {
  import opened Translations

  /** The three types of identifier, and any other word a user may pass as a search type. */
  datatype NodeType = NodeName | Ip | Uuid | Other(name: string)

  datatype Key = Key(nodetype: NodeType, value: string)

  /** The tables record, at instant `ts`, that `b` is another identifier of `a`: one step of the search. */
  predicate Vouches(db: TranslationsDB, a: Key, b: Key, ts: Time) {
    match (a.nodetype, b.nodetype)
    case (Ip, Uuid) => b.value in db.hashToIP && db.hashToIP[b.value] == TranslationUnit(a.value, ts)
    case (Ip, NodeName) => a.value in db.ipToNodeNames && TranslationUnit(b.value, ts) in db.ipToNodeNames[a.value]
    case (Uuid, Ip) => a.value in db.hashToIP && db.hashToIP[a.value] == TranslationUnit(b.value, ts)
    case (Uuid, NodeName) =>
      a.value in db.hashToNodeNames && TranslationUnit(b.value, ts) in db.hashToNodeNames[a.value]
    case (NodeName, Uuid) =>
      && a.value != "unspecified"
      && b.value in db.hashToNodeNames && TranslationUnit(a.value, ts) in db.hashToNodeNames[b.value]
    case (NodeName, Ip) =>
      && a.value != "unspecified"
      && b.value in db.ipToNodeNames && TranslationUnit(a.value, ts) in db.ipToNodeNames[b.value]
    case _ => false
  }

  /** The first unit with the value is of instant `ts`. */
  ghost predicate SaidFirst(units: seq<TranslationUnit>, value: string, ts: Time) {
    exists i :: 0 <= i < |units| && units[i] == TranslationUnit(value, ts)
      && forall j :: 0 <= j < i ==> units[j].value != value
  }

  /** `ts` is the instant of the first unit that says so, in the history that the tables keep of one of the two. */
  ghost predicate VouchesFirst(db: TranslationsDB, a: Key, b: Key, ts: Time) {
    && Vouches(db, a, b, ts)
    && (a.nodetype == Ip && b.nodetype == NodeName ==> SaidFirst(db.ipToNodeNames[a.value], b.value, ts))
    && (a.nodetype == Uuid && b.nodetype == NodeName ==> SaidFirst(db.hashToNodeNames[a.value], b.value, ts))
    && (a.nodetype == NodeName && b.nodetype == Ip ==> SaidFirst(db.ipToNodeNames[b.value], a.value, ts))
    && (a.nodetype == NodeName && b.nodetype == Uuid ==> SaidFirst(db.hashToNodeNames[b.value], a.value, ts))
  }

  ghost predicate Linked(db: TranslationsDB, a: Key, b: Key) {
    exists ts :: Vouches(db, a, b, ts)
  }

  ghost predicate IsPath(db: TranslationsDB, path: seq<Key>) {
    path != [] && forall i :: 0 < i < |path| ==> Linked(db, path[i-1], path[i])
  }

  ghost predicate PathBetween(db: TranslationsDB, path: seq<Key>, a: Key, b: Key) {
    IsPath(db, path) && path[0] == a && path[|path| - 1] == b
  }

  ghost predicate Reachable(db: TranslationsDB, a: Key, b: Key) {
    exists path :: PathBetween(db, path, a, b)
  }

  lemma ReachableSelf(db: TranslationsDB, a: Key)
    ensures Reachable(db, a, a)
  {
    assert PathBetween(db, [a], a, a);
  }

  lemma ReachableStep(db: TranslationsDB, a: Key, b: Key, c: Key)
    requires Reachable(db, a, b) && Linked(db, b, c)
    ensures Reachable(db, a, c)
  {
    var path :| PathBetween(db, path, a, b);
    assert PathBetween(db, path + [c], a, c);
  }

  ghost predicate Closed(db: TranslationsDB, keys: set<Key>) {
    forall a, b :: a in keys && Linked(db, a, b) ==> b in keys
  }

  /** A set that holds the start and is closed under links holds everything reachable. */
  lemma ClosedHoldsReachable(db: TranslationsDB, keys: set<Key>, a: Key, b: Key)
    requires Closed(db, keys) && a in keys && Reachable(db, a, b)
    ensures b in keys
  {
    var path :| PathBetween(db, path, a, b);
    PathStaysInside(db, keys, path);
  }

  lemma {:induction false} PathStaysInside(db: TranslationsDB, keys: set<Key>, path: seq<Key>)
    requires Closed(db, keys) && IsPath(db, path) && path[0] in keys
    ensures path[|path| - 1] in keys
    decreases |path|
  {
    if |path| > 1 {
      assert Linked(db, path[0], path[1]);
      PathStaysInside(db, keys, path[1..]);
    }
  }

  /** Every identifier a link can lead to: the finite universe that bounds the search. */
  ghost function Universe(db: TranslationsDB): set<Key> {
    (set h | h in db.hashToIP :: Key(Uuid, h)) +
    (set h | h in db.hashToIP :: Key(Ip, db.hashToIP[h].value)) +
    (set h | h in db.hashToNodeNames :: Key(Uuid, h)) +
    (set h, u | h in db.hashToNodeNames && u in db.hashToNodeNames[h] :: Key(NodeName, u.value)) +
    (set ip | ip in db.ipToNodeNames :: Key(Ip, ip)) +
    (set ip, u | ip in db.ipToNodeNames && u in db.ipToNodeNames[ip] :: Key(NodeName, u.value))
  }

  lemma LinkedInUniverse(db: TranslationsDB, a: Key, b: Key)
    requires Linked(db, a, b)
    ensures b in Universe(db)
    ensures !b.nodetype.Other?
  {
  }

  /** The reserved node name that is never followed. */
  const UNSPECIFIED := Key(NodeName, "unspecified")

  lemma LinkedBack(db: TranslationsDB, a: Key, b: Key)
    requires Linked(db, a, b) && b != UNSPECIFIED
    ensures Linked(db, b, a)
  {
    var ts :| Vouches(db, a, b, ts);
    assert Vouches(db, b, a, ts);
  }

  lemma NothingFromUnspecified(db: TranslationsDB, a: Key)
    ensures Reachable(db, UNSPECIFIED, a) ==> a == UNSPECIFIED
  {
    if Reachable(db, UNSPECIFIED, a) {
      var path :| PathBetween(db, path, UNSPECIFIED, a);
      assert |path| > 1 ==> Linked(db, path[0], path[1]);
    }
  }

  /**
    Searching from any identifier of a cluster finds the same identifiers: reachability is
    symmetric, except that nothing is found from the reserved node name.
   */
  lemma ReachableBack(db: TranslationsDB, a: Key, b: Key)
    requires Reachable(db, a, b)
    ensures Reachable(db, b, a) <==> (a == b || b != UNSPECIFIED)
  {
    var path :| PathBetween(db, path, a, b);
    if b != UNSPECIFIED {
      PathBack(db, path);
    } else if a == b {
      ReachableSelf(db, a);
    } else {
      NothingFromUnspecified(db, a);
    }
  }

  lemma {:induction false} PathBack(db: TranslationsDB, path: seq<Key>)
    requires IsPath(db, path) && path[|path| - 1] != UNSPECIFIED
    ensures Reachable(db, path[|path| - 1], path[0])
    decreases |path|
  {
    if |path| == 1 {
      ReachableSelf(db, path[0]);
    } else {
      PathBack(db, path[1..]);
      assert Linked(db, path[0], path[1]);
      if |path| > 2 {
        assert Linked(db, path[1], path[2]);
      }
      LinkedBack(db, path[0], path[1]);
      ReachableStep(db, path[|path| - 1], path[1], path[0]);
    }
  }
}
