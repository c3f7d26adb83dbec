/** The tree that a whois search grows over the graph of identifiers (whois.go). */
module WhoisTree {
  import opened Translations
  import opened WhoisGraph

  /** A stored value: when it was first proven, and the nodes hanging below it, one per type. */
  datatype WhoisValue = WhoisValue(timestamp: Option<Time>, subNodes: map<NodeType, WhoisNode>)

  /** A picture of a whole tree: what each node stores, and which node holds each pair. */
  datatype Picture = Picture(
    root: WhoisNode,
    nodes: map<WhoisNode, map<string, WhoisValue>>,
    holder: map<Key, WhoisNode>,
    bound: nat)
  {
    /** `m` is linked from its parent, below it in rank, and holds something. */
    ghost predicate Attached(m: WhoisNode)
      requires m in nodes
    {
      && m.rootNode == root && m.rank < bound && nodes[m] != map[]
      && (m != root ==>
        && m.parentNode != null && m.parentNode in nodes && m.parentNode.rank < m.rank
        && m.key in nodes[m.parentNode]
        && m.nodetype in nodes[m.parentNode][m.key].subNodes
        && nodes[m.parentNode][m.key].subNodes[m.nodetype] == m)
    }

    /** The subnodes of the value `v` of `m` are nodes of the tree, attached there. */
    ghost predicate Owns(m: WhoisNode, v: string)
      requires m in nodes && v in nodes[m]
    {
      forall t :: t in nodes[m][v].subNodes ==>
        var c := nodes[m][v].subNodes[t];
        c in nodes && c.parentNode == m && c.key == v && c.nodetype == t
    }

    /** `holder` lists the stored pairs, each held by exactly one node. */
    ghost predicate Indexed() {
      && (forall m, v {:trigger Lists(m, v)} :: m in nodes && v in nodes[m] ==> Lists(m, v))
      && (forall k :: k in holder ==>
           holder[k] in nodes && holder[k].nodetype == k.nodetype && k.value in nodes[holder[k]])
    }

    ghost predicate Lists(m: WhoisNode, v: string) {
      Key(m.nodetype, v) in holder && holder[Key(m.nodetype, v)] == m
    }

    ghost predicate WellFormed() {
      && root in nodes && root.parentNode == null
      && (forall m {:trigger Attached(m)} :: m in nodes ==> Attached(m))
      && (forall m, v {:trigger Owns(m, v)} :: m in nodes && v in nodes[m] ==> Owns(m, v))
      && Indexed()
    }

    /** The picture after `child`, hanging below the value `key` of `parent`, has taken the pair. */
    ghost function Store(parent: WhoisNode, key: string, child: WhoisNode, value: string, timestamp: Time): Picture
      requires parent in nodes && key in nodes[parent]
    {
      var held := if child in nodes then nodes[child] else map[];
      var row := nodes[parent][key];
      Picture(root,
        nodes[child := held[value := WhoisValue(Some(timestamp), map[])]]
             [parent := nodes[parent][key := row.(subNodes := row.subNodes[child.nodetype := child])]],
        holder[Key(child.nodetype, value) := child],
        bound + 1)
    }

    /** `child` may take new values below `key` of `parent`: it hangs there already, or nothing of its type does. */
    ghost predicate CanHang(parent: WhoisNode, key: string, child: WhoisNode) {
      && parent in nodes && key in nodes[parent]
      && child.rootNode == root && child.parentNode == parent && child.key == key
      && parent.rank < child.rank <= bound
      && (if child.nodetype in nodes[parent][key].subNodes
          then child == nodes[parent][key].subNodes[child.nodetype]
          else child !in nodes)
    }

    lemma StoreRows(parent: WhoisNode, key: string, child: WhoisNode, value: string, timestamp: Time)
      requires CanHang(parent, key, child)
      ensures var after, row := Store(parent, key, child, value, timestamp), nodes[parent][key];
        && after.nodes.Keys == nodes.Keys + {child}
        && after.nodes[child] ==
           (if child in nodes then nodes[child] else map[])[value := WhoisValue(Some(timestamp), map[])]
        && after.nodes[parent] ==
           (if child.nodetype in row.subNodes then nodes[parent]
            else nodes[parent][key := row.(subNodes := row.subNodes[child.nodetype := child])])
        && after.nodes[parent].Keys == nodes[parent].Keys
        && forall m :: m in nodes && m != parent && m != child ==> after.nodes[m] == nodes[m]
    {
      var row := nodes[parent][key];
      if child.nodetype in row.subNodes {
        assert row.subNodes[child.nodetype := child] == row.subNodes;
        assert nodes[parent][key := row] == nodes[parent];
      }
    }

    lemma StoreAttached(parent: WhoisNode, key: string, child: WhoisNode, value: string, timestamp: Time, m: WhoisNode)
      requires WellFormed() && CanHang(parent, key, child) && Key(child.nodetype, value) !in holder
      requires m in Store(parent, key, child, value, timestamp).nodes
      ensures Store(parent, key, child, value, timestamp).Attached(m)
    {
      var after := Store(parent, key, child, value, timestamp);
      assert value in after.nodes[child];
      assert child in nodes && value in nodes[child] ==> Lists(child, value);
      if m in nodes {
        assert Attached(m);
      }
      if m == parent {
        assert key in after.nodes[m];
      }
    }

    lemma StoreOwns(
      parent: WhoisNode, key: string, child: WhoisNode, value: string, timestamp: Time, m: WhoisNode, v: string)
      requires WellFormed() && CanHang(parent, key, child)
      requires var after := Store(parent, key, child, value, timestamp); m in after.nodes && v in after.nodes[m]
      ensures Store(parent, key, child, value, timestamp).Owns(m, v)
    {
      if m in nodes && v in nodes[m] {
        assert Owns(m, v);
      }
    }

    lemma StoreIndexed(parent: WhoisNode, key: string, child: WhoisNode, value: string, timestamp: Time)
      requires Indexed() && CanHang(parent, key, child) && Key(child.nodetype, value) !in holder
      ensures Store(parent, key, child, value, timestamp).Indexed()
    {
      StoreRows(parent, key, child, value, timestamp);
      var after := Store(parent, key, child, value, timestamp);
      forall m, v | m in after.nodes && v in after.nodes[m]
        ensures after.Lists(m, v)
      {
        assert m in nodes && v in nodes[m] ==> Lists(m, v);
      }
    }

    lemma StoreWellFormed(parent: WhoisNode, key: string, child: WhoisNode, value: string, timestamp: Time)
      requires WellFormed() && CanHang(parent, key, child) && Key(child.nodetype, value) !in holder
      ensures Store(parent, key, child, value, timestamp).WellFormed()
    {
      var after := Store(parent, key, child, value, timestamp);
      forall m | m in after.nodes
        ensures after.Attached(m)
      {
        StoreAttached(parent, key, child, value, timestamp, m);
      }
      forall m, v | m in after.nodes && v in after.nodes[m]
        ensures after.Owns(m, v)
      {
        StoreOwns(parent, key, child, value, timestamp, m, v);
      }
      StoreIndexed(parent, key, child, value, timestamp);
    }

    /** `m` is `n` or hangs below it. */
    static ghost predicate Below(n: WhoisNode, m: WhoisNode)
      decreases m.rank
    {
      m == n || (m.parentNode != null && m.parentNode.rank < m.rank && Below(n, m.parentNode))
    }

    lemma {:induction false} AllBelowRoot(m: WhoisNode)
      requires WellFormed() && m in nodes
      ensures Below(root, m)
      decreases m.rank
    {
      assert Attached(m);
      if m != root {
        AllBelowRoot(m.parentNode);
      }
    }

    /** The child of `n` on the way down to `m`. */
    static ghost function Toward(n: WhoisNode, m: WhoisNode): (c: WhoisNode)
      requires Below(n, m) && m != n
      ensures c.parentNode == n && Below(c, m)
      decreases m.rank
    {
      if m.parentNode == n then m else Toward(n, m.parentNode)
    }

    lemma {:induction false} TowardInTree(n: WhoisNode, m: WhoisNode)
      requires WellFormed() && m in nodes && Below(n, m) && m != n
      ensures Toward(n, m) in nodes
      decreases m.rank
    {
      assert Attached(m);
      if m.parentNode != n {
        TowardInTree(n, m.parentNode);
      }
    }

    static lemma {:induction false} BelowChild(n: WhoisNode, c: WhoisNode, m: WhoisNode)
      requires c.parentNode == n && n.rank < c.rank && Below(c, m)
      ensures Below(n, m)
      decreases m.rank
    {
      if m != c {
        BelowChild(n, c, m.parentNode);
      }
    }

    /** The pair `k` is stored at `n` or below it. */
    ghost predicate HoldsBelow(n: WhoisNode, k: Key) {
      k in holder && Below(n, holder[k])
    }

    /** No subnode of the value `v` of `n`, outside the types in `todo`, leads to the pair `k`. */
    ghost predicate Misses(n: WhoisNode, v: string, k: Key, todo: set<NodeType>)
      requires n in nodes && v in nodes[n]
    {
      forall t :: t in nodes[n][v].subNodes && t !in todo ==> !HoldsBelow(nodes[n][v].subNodes[t], k)
    }

    lemma PathDownHits(n: WhoisNode, k: Key)
      requires WellFormed() && n in nodes && HoldsBelow(n, k) && holder[k] != n
      ensures exists v :: v in nodes[n] && !Misses(n, v, k, {})
    {
      var c := Toward(n, holder[k]);
      TowardInTree(n, holder[k]);
      assert Attached(c);
      assert !Misses(n, c.key, k, {});
    }

    ghost predicate Childless(m: WhoisNode)
      requires m in nodes
    {
      forall v :: v in nodes[m] ==> nodes[m][v].subNodes == map[]
    }

    /** Below the root, every stored value repeats a fact of the tables about the value it hangs from. */
    ghost predicate Proven(db: TranslationsDB) {
      forall m, v {:trigger ProvenAt(db, m, v)} :: m in nodes && v in nodes[m] && m != root ==> ProvenAt(db, m, v)
    }

    ghost predicate ProvenAt(db: TranslationsDB, m: WhoisNode, v: string)
      requires m in nodes && v in nodes[m]
    {
      && m.parentNode != null && nodes[m][v].timestamp.Some?
      && VouchesFirst(db, Key(m.parentNode.nodetype, m.key), Key(m.nodetype, v), nodes[m][v].timestamp.value)
    }

    /** Everything one step from the value `v` of `m` is in the tree. */
    ghost predicate Answered(db: TranslationsDB, m: WhoisNode, v: string) {
      forall k :: Linked(db, Key(m.nodetype, v), k) ==> k in holder
    }

    ghost predicate AllAnswered(db: TranslationsDB, m: WhoisNode)
      requires m in nodes
    {
      forall v :: v in nodes[m] ==> Answered(db, m, v)
    }

    /** This picture is `s` with new nodes below `n` and nothing else changed. */
    ghost predicate GrownFrom(s: Picture, n: WhoisNode) {
      && root == s.root && n in s.nodes && s.nodes.Keys <= nodes.Keys
      && (forall m :: m in s.nodes && m != n ==> nodes[m] == s.nodes[m])
      && nodes[n].Keys == s.nodes[n].Keys
      && (forall k :: k in s.holder ==> k in holder && holder[k] == s.holder[k])
    }

    /** The new nodes are leaves hanging from `n` itself. */
    ghost predicate SproutedFrom(s: Picture, n: WhoisNode) {
      && GrownFrom(s, n)
      && forall m :: m in nodes && m !in s.nodes ==> m.parentNode == n && Childless(m)
    }

    lemma StoreProven(
      parent: WhoisNode, key: string, child: WhoisNode, value: string, timestamp: Time, db: TranslationsDB)
      requires CanHang(parent, key, child) && Proven(db)
      requires VouchesFirst(db, Key(parent.nodetype, key), Key(child.nodetype, value), timestamp)
      ensures Store(parent, key, child, value, timestamp).Proven(db)
    {
      StoreRows(parent, key, child, value, timestamp);
      var after := Store(parent, key, child, value, timestamp);
      forall m, v | m in after.nodes && v in after.nodes[m] && m != root
        ensures after.ProvenAt(db, m, v)
      {
        if m in nodes && v in nodes[m] {
          assert ProvenAt(db, m, v);
        }
      }
    }

    lemma StoreSprouts(s: Picture, n: WhoisNode, key: string, child: WhoisNode, value: string, timestamp: Time)
      requires s.WellFormed() && n in s.nodes && s.Childless(n)
      requires SproutedFrom(s, n) && CanHang(n, key, child) && Key(child.nodetype, value) !in holder
      ensures Store(n, key, child, value, timestamp).SproutedFrom(s, n)
    {
      StoreRows(n, key, child, value, timestamp);
      LeafHasNoChild(s, n, child);
    }

    lemma SubNodesNew(s: Picture, n: WhoisNode, v: string)
      requires s.WellFormed() && WellFormed() && n in s.nodes && n in nodes && s.Childless(n) && v in nodes[n]
      ensures forall c :: c in nodes[n][v].subNodes.Values ==> c in nodes && c !in s.nodes
    {
      assert Owns(n, v);
      forall c | c in nodes[n][v].subNodes.Values
        ensures c !in s.nodes
      {
        LeafHasNoChild(s, n, c);
      }
    }

    static lemma LeafHasNoChild(s: Picture, n: WhoisNode, child: WhoisNode)
      requires s.WellFormed() && n in s.nodes && s.Childless(n) && child.parentNode == n
      ensures child !in s.nodes
    {
      assert child in s.nodes ==> s.Attached(child);
    }

    /** The hash is found through the name, which is therefore not found through the hash. */
    lemma NameHangsFromAddress(w: WhoisNode)
      requires WellFormed() && Proven(TWO_FACTS) && root == w && w.nodetype == Ip
      requires Key(NodeName, "n") in holder
      ensures var m := holder[Key(NodeName, "n")];
        m in nodes && "n" in nodes[m] && nodes[m]["n"].timestamp == Some(1)
    {
      var m := holder[Key(NodeName, "n")];
      assert Attached(m) && ProvenAt(TWO_FACTS, m, "n");
      var q := m.parentNode;
      if q.nodetype == Uuid {
        HashHangsFromName(w, q);
      }
    }

    lemma HashHangsFromName(w: WhoisNode, q: WhoisNode)
      requires WellFormed() && Proven(TWO_FACTS) && root == w && w.nodetype == Ip
      requires q in nodes && q.nodetype == Uuid && "u" in nodes[q]
      ensures Key(NodeName, "n") in holder && holder[Key(NodeName, "n")].rank < q.rank
    {
      assert Attached(q) && ProvenAt(TWO_FACTS, q, "u");
      assert Lists(q.parentNode, "n");
    }

    /** `m` is the entry of its own type. */
    static predicate IsEntry(subNodes: map<NodeType, WhoisNode>, m: WhoisNode) {
      m.nodetype in subNodes && subNodes[m.nodetype] == m
    }

    /** The entry of one type, if there is one. */
    static function Entry(subNodes: map<NodeType, WhoisNode>, t: NodeType): set<WhoisNode> {
      if t in subNodes then {subNodes[t]} else {}
    }

    /** Visiting the three types in turn visits every subnode once. */
    static lemma ThreeEntries(subNodes: map<NodeType, WhoisNode>)
      requires forall t :: t in subNodes ==> !t.Other? && subNodes[t].nodetype == t
      ensures subNodes.Values == Entry(subNodes, NodeName) + Entry(subNodes, Ip) + Entry(subNodes, Uuid)
      ensures Entry(subNodes, Ip) !! Entry(subNodes, NodeName)
      ensures Entry(subNodes, Uuid) !! Entry(subNodes, NodeName) + Entry(subNodes, Ip)
    {
    }

    /** The nodes that have sprouted from `n` hang below its values. */
    lemma SproutsHang(s: Picture, n: WhoisNode, m: WhoisNode)
      requires s.WellFormed() && WellFormed() && SproutedFrom(s, n)
      requires m in nodes && m !in s.nodes
      ensures m.key in nodes[n] && IsEntry(nodes[n][m.key].subNodes, m)
    {
      assert Attached(m);
    }

    /** A proven node is of one of the three types. */
    lemma ProvenType(db: TranslationsDB, m: WhoisNode)
      requires WellFormed() && Proven(db) && m in nodes && m != root
      ensures !m.nodetype.Other?
    {
      assert Attached(m);
      var v :| v in nodes[m];
      assert ProvenAt(db, m, v);
    }

    /** The subnodes of a value of a sprouted leaf are exactly the new nodes hanging there. */
    lemma SubNodesAre(db: TranslationsDB, s: Picture, n: WhoisNode, v: string)
      requires s.WellFormed() && WellFormed() && Proven(db)
      requires SproutedFrom(s, n) && s.Childless(n) && v in nodes[n]
      ensures var subNodes := nodes[n][v].subNodes;
        && (forall m :: m in subNodes.Values <==> m in nodes && m !in s.nodes && m.key == v)
        && (forall t :: t in subNodes ==> !t.Other? && subNodes[t].nodetype == t)
    {
      var subNodes := nodes[n][v].subNodes;
      assert Owns(n, v);
      forall m | IsEntry(subNodes, m)
        ensures m in nodes && m !in s.nodes && m.key == v
      {
        LeafHasNoChild(s, n, m);
      }
      forall t | t in subNodes
        ensures !t.Other?
      {
        LeafHasNoChild(s, n, subNodes[t]);
        ProvenType(db, subNodes[t]);
      }
      forall m | m in nodes && m !in s.nodes && m.key == v
        ensures IsEntry(subNodes, m)
      {
        SproutsHang(s, n, m);
      }
    }

    // ---------- the order in which subnodes are visited ----------

    /** Node names come first, then addresses, then hashes. */
    static function Turn(t: NodeType): nat {
      match t
      case NodeName => 0
      case Ip => 1
      case Uuid => 2
      case Other(_) => 3
    }

    /** Two children of one value, of which `c` has its turn first. */
    static ghost predicate Earlier(c: WhoisNode, d: WhoisNode) {
      c.parentNode != null && c.parentNode == d.parentNode && c.key == d.key && Turn(c.nodetype) < Turn(d.nodetype)
    }

    /** No pair that `c`, or a node below it, leads to has been left to hang from a node at or below `d`. */
    ghost predicate TookFirst(db: TranslationsDB, c: WhoisNode, d: WhoisNode) {
      forall m, v, k |
        m in nodes && Below(c, m) && v in nodes[m] && Linked(db, Key(m.nodetype, v), k) && k in holder ::
        Below(d, holder[k]) ==> holder[k] == d
    }

    /** Of the children of one value, each takes all that it leads to before the next one has its turn. */
    ghost predicate InTurn(db: TranslationsDB) {
      forall c, d :: c in nodes && d in nodes && Earlier(c, d) ==> TookFirst(db, c, d)
    }

    /** Everything one step from the pairs at or below `c` is in the tree. */
    ghost predicate Finished(db: TranslationsDB, c: WhoisNode) {
      forall m :: m in nodes && Below(c, m) ==> AllAnswered(db, m)
    }

    /** All that comes before `n` or a node above it is finished, and all that comes after is still a leaf. */
    ghost predicate ItsTurn(db: TranslationsDB, n: WhoisNode) {
      && (forall c, d :: c in nodes && d in nodes && Earlier(c, d) && Below(d, n) ==> Finished(db, c))
      && (forall c, d :: c in nodes && d in nodes && Earlier(c, d) && Below(c, n) ==> Childless(d))
    }

    /** The children of the types before `t` have been visited, and those of the types from `t` on have not. */
    static ghost predicate IsTurnOf(subNodes: map<NodeType, WhoisNode>, t: NodeType, done: set<WhoisNode>) {
      forall u :: u in subNodes ==> (subNodes[u] in done <==> Turn(u) < Turn(t))
    }

    lemma FirstTurn(db: TranslationsDB)
      requires WellFormed() && nodes.Keys == {root}
      ensures InTurn(db) && ItsTurn(db, root)
    {
    }

    lemma {:induction false} Upward(c: WhoisNode, m: WhoisNode)
      requires WellFormed() && m in nodes && Below(c, m)
      ensures c in nodes && c.rank <= m.rank
      decreases m.rank
    {
      assert Attached(m);
      if m != c {
        Upward(c, m.parentNode);
      }
    }

    /** Nothing hangs below two children of one value. */
    lemma {:induction false} SiblingsApart(c: WhoisNode, d: WhoisNode, m: WhoisNode)
      requires WellFormed() && m in nodes && Earlier(c, d)
      ensures !(Below(c, m) && Below(d, m))
      decreases m.rank
    {
      assert Attached(m);
      if Below(c, m) && Below(d, m) {
        Upward(c, m);
        Upward(d, m);
        assert Attached(c) && Attached(d);
        if m == c {
          Upward(d, m.parentNode);
        } else if m == d {
          Upward(c, m.parentNode);
        } else {
          SiblingsApart(c, d, m.parentNode);
        }
      }
    }

    /** Nothing hangs below a leaf. */
    lemma LeafIsLast(d: WhoisNode, m: WhoisNode)
      requires WellFormed() && d in nodes && m in nodes && Below(d, m) && Childless(d)
      ensures m == d
    {
      if m != d {
        TowardInTree(d, m);
        NoLeafAbove(Toward(d, m));
      }
    }

    lemma NoLeafAbove(c: WhoisNode)
      requires WellFormed() && c in nodes && c.parentNode != null
      ensures c.parentNode in nodes && !Childless(c.parentNode)
    {
      assert Attached(c);
    }

    /** When a leaf `n` of `s` has grown, the siblings of the nodes of `s` are nodes of `s`. */
    lemma SiblingsStay(s: Picture, n: WhoisNode, c: WhoisNode, d: WhoisNode)
      requires s.WellFormed() && WellFormed() && GrownFrom(s, n) && s.Childless(n)
      requires c in s.nodes && d in nodes && c.parentNode != null && c.parentNode == d.parentNode
      ensures d in s.nodes
    {
      assert s.Attached(c) && Attached(d);
      assert c.parentNode != n;
      assert s.Owns(d.parentNode, d.key);
    }

    lemma HeldBefore(s: Picture, n: WhoisNode, k: Key)
      requires s.WellFormed() && WellFormed() && GrownFrom(s, n)
      requires k in holder && holder[k] in s.nodes
      ensures k in s.holder && s.holder[k] == holder[k]
    {
      assert k.value in s.nodes[holder[k]];
      assert s.Lists(holder[k], k.value);
    }

    /** New leaves below the node whose turn it is keep the order. */
    lemma SproutInTurn(db: TranslationsDB, s: Picture, n: WhoisNode)
      requires s.WellFormed() && WellFormed() && SproutedFrom(s, n) && s.Childless(n)
      requires s.InTurn(db) && s.ItsTurn(db, n)
      ensures InTurn(db)
    {
      hide WellFormed, InTurn, ItsTurn, SproutedFrom, Childless, Below, Linked;
      forall c, d, m, v, k |
        c in nodes && d in nodes && Earlier(c, d)
        && m in nodes && Below(c, m) && v in nodes[m] && Linked(db, Key(m.nodetype, v), k)
        && k in holder && Below(d, holder[k])
        ensures holder[k] == d
      {
        SproutTookFirst(db, s, n, c, d, m, v, k);
      }
      assert forall c, d :: c in nodes && d in nodes && Earlier(c, d) ==> TookFirst(db, c, d);
      TurnsTaken(db);
    }

    lemma TurnsTaken(db: TranslationsDB)
      requires forall c, d :: c in nodes && d in nodes && Earlier(c, d) ==> TookFirst(db, c, d)
      ensures InTurn(db)
    {
    }

    lemma SproutTookFirst(
      db: TranslationsDB, s: Picture, n: WhoisNode, c: WhoisNode, d: WhoisNode, m: WhoisNode, v: string, k: Key)
      requires s.WellFormed() && WellFormed() && SproutedFrom(s, n) && s.Childless(n)
      requires s.InTurn(db) && s.ItsTurn(db, n)
      requires c in nodes && d in nodes && Earlier(c, d)
      requires m in nodes && Below(c, m) && v in nodes[m] && Linked(db, Key(m.nodetype, v), k)
      requires k in holder && Below(d, holder[k])
      ensures holder[k] == d
    {
      hide WellFormed, InTurn, ItsTurn, Childless, Linked, Finished;
      var h := holder[k];
      HolderIn(k);
      if h != d {
        if h in s.nodes {
          s.Upward(d, h);
          SiblingsStay(s, n, d, c);
          HeldBefore(s, n, k);
          if m in s.nodes {
            s.TakenInTurn(db, c, d, m, v, k);
          } else {
            s.LaterIsLeaf(db, n, c, d);
            s.LeafIsLast(d, h);
          }
        } else {
          UpToLeaf(s, n, d, h);
          SiblingsStay(s, n, d, c);
          SiblingsApart(c, d, n);
          UpToLeaf(s, n, c, m);
          s.EarlierIsFinished(db, n, c, d, m, v, k);
          s.HolderIn(k);
        }
      }
    }

    lemma HolderIn(k: Key)
      requires WellFormed() && k in holder
      ensures holder[k] in nodes && holder[k].nodetype == k.nodetype && k.value in nodes[holder[k]]
    {
    }

    /** What is above a new leaf, and is not that leaf, is a node of `s` above `n`. */
    lemma UpToLeaf(s: Picture, n: WhoisNode, d: WhoisNode, h: WhoisNode)
      requires s.WellFormed() && WellFormed() && SproutedFrom(s, n)
      requires h in nodes && Below(d, h)
      ensures h !in s.nodes && d != h ==> Below(d, n) && d in s.nodes
    {
      if h !in s.nodes && d != h {
        s.Upward(d, n);
      }
    }

    lemma TakenInTurn(db: TranslationsDB, c: WhoisNode, d: WhoisNode, m: WhoisNode, v: string, k: Key)
      requires InTurn(db) && c in nodes && d in nodes && Earlier(c, d)
      requires m in nodes && Below(c, m) && v in nodes[m] && Linked(db, Key(m.nodetype, v), k)
      requires k in holder && Below(d, holder[k])
      ensures holder[k] == d
    {
      assert TookFirst(db, c, d);
    }

    lemma LaterIsLeaf(db: TranslationsDB, n: WhoisNode, c: WhoisNode, d: WhoisNode)
      requires ItsTurn(db, n) && c in nodes && d in nodes && Earlier(c, d) && Below(c, n)
      ensures Childless(d)
    {
    }

    lemma EarlierIsFinished(
      db: TranslationsDB, n: WhoisNode, c: WhoisNode, d: WhoisNode, m: WhoisNode, v: string, k: Key)
      requires ItsTurn(db, n) && c in nodes && d in nodes && Earlier(c, d) && Below(d, n)
      requires m in nodes && Below(c, m) && v in nodes[m] && Linked(db, Key(m.nodetype, v), k)
      ensures k in holder
    {
      assert Finished(db, c);
      assert Answered(db, m, v);
    }

    lemma HeldOnce()
      requires WellFormed()
      ensures forall k :: k in holder ==> Below(root, holder[k])
      ensures forall m, v :: m in nodes && v in nodes[m] ==>
        Key(m.nodetype, v) in holder && holder[Key(m.nodetype, v)] == m
    {
      forall k | k in holder
        ensures Below(root, holder[k])
      {
        AllBelowRoot(holder[k]);
      }
      forall m, v | m in nodes && v in nodes[m]
        ensures Key(m.nodetype, v) in holder && holder[Key(m.nodetype, v)] == m
      {
        assert Lists(m, v);
      }
    }

    /** Every stored pair can be reached from the pair searched for, the only one at the root. */
    lemma {:induction false} StoredIsReachable(db: TranslationsDB, search: string, m: WhoisNode, v: string)
      requires WellFormed() && Proven(db) && nodes[root].Keys == {search}
      requires m in nodes && v in nodes[m]
      ensures Reachable(db, Key(root.nodetype, search), Key(m.nodetype, v))
      decreases m.rank
    {
      if m == root {
        ReachableSelf(db, Key(root.nodetype, search));
      } else {
        assert Attached(m) && ProvenAt(db, m, v);
        StoredIsReachable(db, search, m.parentNode, m.key);
        assert Linked(db, Key(m.parentNode.nodetype, m.key), Key(m.nodetype, v));
        ReachableStep(db, Key(root.nodetype, search), Key(m.parentNode.nodetype, m.key), Key(m.nodetype, v));
      }
    }

    /** A proven tree in which everything is answered stores exactly what can be reached. */
    lemma StoresExactlyReachable(db: TranslationsDB, search: string)
      requires WellFormed() && Proven(db) && nodes[root].Keys == {search}
      requires forall m :: m in nodes ==> AllAnswered(db, m)
      ensures forall k :: k in holder <==> Reachable(db, Key(root.nodetype, search), k)
    {
      var start := Key(root.nodetype, search);
      assert Lists(root, search);
      forall a, b | a in holder && Linked(db, a, b)
        ensures b in holder
      {
        assert Answered(db, holder[a], a.value);
      }
      forall k
        ensures k in holder <==> Reachable(db, start, k)
      {
        if k in holder {
          StoredIsReachable(db, search, holder[k], k.value);
        }
        if Reachable(db, start, k) {
          ClosedHoldsReachable(db, holder.Keys, start, k);
        }
      }
    }

    /**
      This picture is on the way from `sprouted`, where the leaf `n` of `s` has its children, to the
      end of the visit of `n`: the children in `done` are finished and the others are still leaves.
     */
    ghost predicate Between(db: TranslationsDB, s: Picture, sprouted: Picture, n: WhoisNode, done: set<WhoisNode>) {
      && s.WellFormed() && sprouted.WellFormed() && sprouted.Proven(db) && sprouted.SproutedFrom(s, n) && s.Childless(n)
      && GrownFrom(s, n) && nodes[n] == sprouted.nodes[n]
      && AllAnswered(db, n)
      && sprouted.nodes.Keys <= nodes.Keys && sprouted.holder.Keys <= holder.Keys
      && forall m :: m in nodes && m !in s.nodes ==>
        if m in sprouted.nodes && m !in done then Childless(m) else AllAnswered(db, m)
    }

    lemma BetweenStart(db: TranslationsDB, s: Picture, n: WhoisNode)
      requires s.WellFormed() && WellFormed() && SproutedFrom(s, n) && s.Childless(n)
      requires Proven(db) && AllAnswered(db, n)
      ensures Between(db, s, this, n, {}) && n in nodes
      ensures forall m :: m in nodes && m !in s.nodes ==> m.key in nodes[n]
    {
      forall m | m in nodes && m !in s.nodes
        ensures m.key in nodes[n]
      {
        SproutsHang(s, n, m);
      }
    }

    lemma SubNodesVisited(
      db: TranslationsDB, s: Picture, sprouted: Picture, n: WhoisNode, done: set<WhoisNode>, v: string)
      requires Between(db, s, sprouted, n, done) && v in sprouted.nodes[n]
      ensures var subNodes := sprouted.nodes[n][v].subNodes;
        && subNodes.Values == Entry(subNodes, NodeName) + Entry(subNodes, Ip) + Entry(subNodes, Uuid)
        && Entry(subNodes, Ip) !! Entry(subNodes, NodeName)
        && Entry(subNodes, Uuid) !! Entry(subNodes, NodeName) + Entry(subNodes, Ip)
        && (subNodes.Values !! done ==>
             && IsTurnOf(subNodes, NodeName, done)
             && IsTurnOf(subNodes, Ip, done + Entry(subNodes, NodeName))
             && IsTurnOf(subNodes, Uuid, done + Entry(subNodes, NodeName) + Entry(subNodes, Ip)))
    {
      var subNodes := sprouted.nodes[n][v].subNodes;
      sprouted.SubNodesAre(db, s, n, v);
      ThreeEntries(subNodes);
      if subNodes.Values !! done {
        ThreeTurns(subNodes, done);
      }
    }

    lemma BetweenEnd(db: TranslationsDB, s: Picture, sprouted: Picture, n: WhoisNode, done: set<WhoisNode>)
      requires Between(db, s, sprouted, n, done)
      requires forall m :: m in sprouted.nodes && m !in s.nodes ==> m in done
      ensures GrownFrom(s, n)
      ensures forall m :: m in nodes && (m == n || m !in s.nodes) ==> AllAnswered(db, m)
    {
    }

    lemma BetweenStep(
      db: TranslationsDB, s: Picture, sprouted: Picture, n: WhoisNode, done: set<WhoisNode>,
      child: WhoisNode, after: Picture)
      requires Between(db, s, sprouted, n, done)
      requires child in sprouted.nodes && child !in s.nodes
      requires after.GrownFrom(this, child)
      requires forall m :: m in after.nodes && (m == child || m !in nodes) ==> after.AllAnswered(db, m)
      ensures after.Between(db, s, sprouted, n, done + {child})
    {
      forall m | m in after.nodes && m !in s.nodes
        ensures if m in sprouted.nodes && m !in done + {child} then after.Childless(m) else after.AllAnswered(db, m)
      {
      }
    }

    /** Once the children that come before it are finished, it is the turn of the next child of `n`. */
    lemma ChildsTurn(
      db: TranslationsDB, s: Picture, sprouted: Picture, n: WhoisNode, done: set<WhoisNode>, child: WhoisNode)
      requires WellFormed() && Between(db, s, sprouted, n, done) && s.ItsTurn(db, n)
      requires child in sprouted.nodes && child !in s.nodes && child !in done
      requires child in nodes && child.parentNode == n && child.key in sprouted.nodes[n]
      requires IsTurnOf(sprouted.nodes[n][child.key].subNodes, child.nodetype, done)
      ensures ItsTurn(db, child)
    {
      hide WellFormed, ItsTurn, Between, Childless, Finished, SproutedFrom, IsTurnOf, GrownFrom;
      forall c, d | c in nodes && d in nodes && Earlier(c, d) && Below(d, child)
        ensures Finished(db, c)
      {
        if d == child {
          SiblingIsDone(db, s, sprouted, n, done, c, d);
        } else {
          AboveChild(db, s, sprouted, n, done, d, child, c);
          s.FinishedAbove(db, n, c, d);
          StaysFinished(db, s, sprouted, n, done, c, d);
        }
      }
      forall c, d | c in nodes && d in nodes && Earlier(c, d) && Below(c, child)
        ensures Childless(d)
      {
        if c == child {
          SiblingIsLeaf(db, s, sprouted, n, done, c, d);
        } else {
          AboveChild(db, s, sprouted, n, done, c, child, d);
          s.LaterIsLeaf(db, n, c, d);
          StaysLeaf(db, s, sprouted, n, done, c, d);
        }
      }
      TurnCome(db, child);
    }

    lemma TurnCome(db: TranslationsDB, n: WhoisNode)
      requires forall c, d :: c in nodes && d in nodes && Earlier(c, d) && Below(d, n) ==> Finished(db, c)
      requires forall c, d :: c in nodes && d in nodes && Earlier(c, d) && Below(c, n) ==> Childless(d)
      ensures ItsTurn(db, n)
    {
    }

    lemma FinishedAbove(db: TranslationsDB, n: WhoisNode, c: WhoisNode, d: WhoisNode)
      requires ItsTurn(db, n) && c in nodes && d in nodes && Earlier(c, d) && Below(d, n)
      ensures Finished(db, c)
    {
    }

    /** What is above a child of `n`, and is not that child, is in `s` above `n`, and so are its siblings. */
    lemma AboveChild(
      db: TranslationsDB, s: Picture, sprouted: Picture, n: WhoisNode, done: set<WhoisNode>,
      above: WhoisNode, child: WhoisNode, sibling: WhoisNode)
      requires WellFormed() && Between(db, s, sprouted, n, done)
      requires child in nodes && child.parentNode == n && Below(above, child) && above != child
      requires sibling in nodes && above.parentNode != null && above.parentNode == sibling.parentNode
      ensures Below(above, n) && above in s.nodes && sibling in s.nodes
    {
      s.Upward(above, n);
      SiblingsStay(s, n, above, sibling);
    }

    /** A child of `n` is the entry of its type. */
    lemma IsSubNode(
      db: TranslationsDB, s: Picture, sprouted: Picture, n: WhoisNode, done: set<WhoisNode>, c: WhoisNode)
      requires WellFormed() && Between(db, s, sprouted, n, done)
      requires c in nodes && c.parentNode == n
      ensures c !in s.nodes && c in sprouted.nodes && c.key in sprouted.nodes[n]
      ensures IsEntry(sprouted.nodes[n][c.key].subNodes, c)
    {
      LeafHasNoChild(s, n, c);
      assert Attached(c);
      assert sprouted.Owns(n, c.key);
    }

    lemma SiblingIsDone(
      db: TranslationsDB, s: Picture, sprouted: Picture, n: WhoisNode, done: set<WhoisNode>,
      c: WhoisNode, child: WhoisNode)
      requires WellFormed() && Between(db, s, sprouted, n, done)
      requires c in nodes && child.parentNode == n && Earlier(c, child) && child.key in sprouted.nodes[n]
      requires IsTurnOf(sprouted.nodes[n][child.key].subNodes, child.nodetype, done)
      ensures Finished(db, c)
    {
      hide WellFormed, Between, SproutedFrom, GrownFrom;
      IsSubNode(db, s, sprouted, n, done, c);
      assert c in done;
      forall m | m in nodes && Below(c, m)
        ensures AllAnswered(db, m)
      {
        BelowIsAnswered(db, s, sprouted, n, done, c, m);
      }
    }

    lemma BelowIsAnswered(
      db: TranslationsDB, s: Picture, sprouted: Picture, n: WhoisNode, done: set<WhoisNode>,
      c: WhoisNode, m: WhoisNode)
      requires WellFormed() && Between(db, s, sprouted, n, done)
      requires c in nodes && c.parentNode == n && c in done && m in nodes && Below(c, m)
      ensures AllAnswered(db, m)
    {
      IsSubNode(db, s, sprouted, n, done, c);
      NotAboveParent(c);
      if m in s.nodes {
        s.Upward(c, m);
      }
    }

    lemma NotAboveParent(c: WhoisNode)
      requires WellFormed() && c in nodes && c.parentNode != null
      ensures !Below(c, c.parentNode)
    {
      assert Attached(c);
      if Below(c, c.parentNode) {
        Upward(c, c.parentNode);
      }
    }

    lemma SiblingIsLeaf(
      db: TranslationsDB, s: Picture, sprouted: Picture, n: WhoisNode, done: set<WhoisNode>,
      child: WhoisNode, d: WhoisNode)
      requires WellFormed() && Between(db, s, sprouted, n, done)
      requires d in nodes && child.parentNode == n && Earlier(child, d) && child.key in sprouted.nodes[n]
      requires IsTurnOf(sprouted.nodes[n][child.key].subNodes, child.nodetype, done)
      ensures Childless(d)
    {
      IsSubNode(db, s, sprouted, n, done, d);
    }

    /** What is finished in `s` beside the way down to `n` stays so. */
    lemma StaysFinished(
      db: TranslationsDB, s: Picture, sprouted: Picture, n: WhoisNode, done: set<WhoisNode>,
      c: WhoisNode, d: WhoisNode)
      requires WellFormed() && Between(db, s, sprouted, n, done)
      requires c in s.nodes && d in s.nodes && Earlier(c, d) && Below(d, n) && s.Finished(db, c)
      ensures Finished(db, c)
    {
      s.SiblingsApart(c, d, n);
      forall m | m in nodes && Below(c, m)
        ensures AllAnswered(db, m)
      {
        if m in s.nodes {
          assert s.AllAnswered(db, m);
          StaysAnswered(db, s, n, m);
        }
      }
    }

    lemma StaysAnswered(db: TranslationsDB, s: Picture, n: WhoisNode, m: WhoisNode)
      requires GrownFrom(s, n) && m in s.nodes && s.AllAnswered(db, m)
      ensures AllAnswered(db, m)
    {
      forall v | v in nodes[m]
        ensures Answered(db, m, v)
      {
        assert s.Answered(db, m, v);
      }
    }

    lemma StaysLeaf(
      db: TranslationsDB, s: Picture, sprouted: Picture, n: WhoisNode, done: set<WhoisNode>,
      c: WhoisNode, d: WhoisNode)
      requires WellFormed() && Between(db, s, sprouted, n, done)
      requires c in s.nodes && d in s.nodes && Earlier(c, d) && Below(c, n) && s.Childless(d)
      ensures Childless(d)
    {
      s.SiblingsApart(c, d, n);
    }

    /** The turns of the three types. */
    static lemma ThreeTurns(subNodes: map<NodeType, WhoisNode>, before: set<WhoisNode>)
      requires forall t :: t in subNodes ==> !t.Other? && subNodes[t].nodetype == t
      requires subNodes.Values !! before
      ensures IsTurnOf(subNodes, NodeName, before)
      ensures IsTurnOf(subNodes, Ip, before + Entry(subNodes, NodeName))
      ensures IsTurnOf(subNodes, Uuid, before + Entry(subNodes, NodeName) + Entry(subNodes, Ip))
    {
    }

    /** A child still to be visited is a leaf of the tree. */
    lemma ChildReady(
      db: TranslationsDB, s: Picture, sprouted: Picture, n: WhoisNode, done: set<WhoisNode>, child: WhoisNode)
      requires WellFormed() && Between(db, s, sprouted, n, done)
      requires child in sprouted.nodes && child !in s.nodes && child !in done
      ensures child in nodes && Childless(child) && child.rootNode == root
      ensures exists k :: k in holder && k !in s.holder && k in Universe(db)
    {
      assert Attached(child);
      sprouted.SproutAddsKey(s, n, child, db);
    }

    /** A sprouted node has brought a new pair of the universe into the tree. */
    lemma SproutAddsKey(s: Picture, n: WhoisNode, child: WhoisNode, db: TranslationsDB)
      requires s.WellFormed() && WellFormed() && Proven(db) && SproutedFrom(s, n)
      requires child in nodes && child !in s.nodes
      ensures exists k :: k in holder && k !in s.holder && k in Universe(db)
    {
      assert Attached(child);
      var v :| v in nodes[child];
      assert Lists(child, v) && ProvenAt(db, child, v);
      var k := Key(child.nodetype, v);
      assert Linked(db, Key(child.parentNode.nodetype, child.key), k);
      LinkedInUniverse(db, Key(child.parentNode.nodetype, child.key), k);
    }
  }

  /** The later of a stored instant and another, which the code means to keep. */
  function Latest(stored: Option<Time>, timestamp: Time): Option<Time> {
    if stored.Some? && stored.value < timestamp then Some(timestamp) else stored
  }

  /** A unit is the first with its value, or one before it has the value. */
  lemma FirstOrRepeated(units: seq<TranslationUnit>, i: nat)
    requires i < |units|
    ensures
      || SaidFirst(units, units[i].value, units[i].timestamp)
      || exists u :: u in units[..i] && u.value == units[i].value
  {
    if j :| 0 <= j < i && units[j].value == units[i].value {
      assert units[j] in units[..i];
    }
  }

  class WhoisNode {
    const nodetype: NodeType
    const rootNode: WhoisNode
    const parentNode: WhoisNode?
    var values: map<string, WhoisValue>

    // The parent's value below which this node hangs, and a rank above the parent's.
    ghost const key: string
    ghost const rank: nat

    // Kept by the root for the whole tree.
    ghost var picture: Picture

    constructor Root(searchtype: NodeType)
      ensures nodetype == searchtype && rootNode == this && parentNode == null
      ensures values == map[] && rank == 0
    {
      nodetype, rootNode, parentNode, values := searchtype, this, null, map[];
      key, rank, picture := "", 0, Picture(this, map[], map[], 0);
    }

    constructor Child(nodetype: NodeType, parentNode: WhoisNode, ghost key: string)
      ensures this.nodetype == nodetype && rootNode == parentNode.rootNode && this.parentNode == parentNode
      ensures values == map[] && this.key == key && rank == parentNode.rank + 1
    {
      this.nodetype, this.parentNode := nodetype, parentNode;
      rootNode, values := parentNode.rootNode, map[];
      this.key, rank, picture := key, parentNode.rank + 1, Picture(this, map[], map[], 0);
    }

    /** This root's picture is well formed and is what the nodes store. */
    ghost predicate Valid()
      reads this, picture.nodes.Keys
    {
      && picture.root == this && rootNode == this
      && picture.WellFormed()
      && forall m :: m in picture.nodes ==> m.values == picture.nodes[m]
    }

    /** Takes a new picture of the nodes. */
    ghost method Show(after: Picture)
      requires rootNode == this && after.root == this && after.WellFormed()
      requires forall m :: m in after.nodes ==> m.values == after.nodes[m]
      modifies this`picture
      ensures picture == after && Valid()
    {
      picture := after;
    }

    /** Depth-first search for a pair, in any order of the maps. */
    method GetValueData(search: string, searchType: NodeType) returns (r: Option<WhoisValue>)
      requires rootNode.Valid() && this in rootNode.picture.nodes
      ensures var p, k := rootNode.picture, Key(searchType, search);
        if p.HoldsBelow(this, k) then r == Some(p.nodes[p.holder[k]][search]) else r == None
      decreases rootNode.picture.bound - rank
    {
      ghost var p, k := rootNode.picture, Key(searchType, search);
      assert p.Attached(this);
      var todo := values.Keys;
      while todo != {}
        invariant todo <= values.Keys
        invariant k in p.holder && p.holder[k] == this ==> search in todo
        invariant forall v :: v in values && v !in todo ==> p.Misses(this, v, k, {})
        decreases todo
      {
        var value :| value in todo;
        todo := todo - {value};
        if nodetype == searchType && search == value {
          assert p.Lists(this, search);
          return Some(values[value]);
        }
        assert p.Owns(this, value);
        r := ScanSubNodes(search, searchType, value);
        if r.Some? {
          return;
        }
      }
      if p.HoldsBelow(this, k) && p.holder[k] != this {
        p.PathDownHits(this, k);
      }
      r := None;
    }

    /** The inner loop of GetValueData, over the subnodes of one value. */
    method ScanSubNodes(search: string, searchType: NodeType, value: string) returns (r: Option<WhoisValue>)
      requires rootNode.Valid() && this in rootNode.picture.nodes && value in values
      ensures var p, k := rootNode.picture, Key(searchType, search);
        if r.Some?
        then p.HoldsBelow(this, k) && r == Some(p.nodes[p.holder[k]][search])
        else p.Misses(this, value, k, {})
      decreases rootNode.picture.bound - rank, 0
    {
      ghost var p, k := rootNode.picture, Key(searchType, search);
      assert p.Owns(this, value);
      var subNodes := values[value].subNodes;
      var types := subNodes.Keys;
      while types != {}
        invariant types <= subNodes.Keys
        invariant p.Misses(this, value, k, types)
        decreases types
      {
        var t :| t in types;
        types := types - {t};
        assert p.Attached(subNodes[t]);
        r := subNodes[t].GetValueData(search, searchType);
        if r.Some? {
          Picture.BelowChild(this, subNodes[t], p.holder[k]);
          return;
        }
      }
      r := None;
    }

    /** Stores `value` at this node, unless the tree has the pair. A repeated pair changes nothing. */
    method AddKey(value: string, timestamp: Time) returns (ok: bool)
      requires rootNode.Valid()
      modifies this`values
      ensures ok <==> Key(nodetype, value) !in rootNode.picture.holder
      ensures values == if ok then old(values)[value := WhoisValue(Some(timestamp), map[])] else old(values)
      ensures !ok ==>
        var m := rootNode.picture.holder[Key(nodetype, value)];
        && value in m.values && value in old(m.values)
        && (m.values[value].timestamp == Latest(old(m.values[value].timestamp), timestamp) <==>
             !(old(m.values[value].timestamp).Some? && old(m.values[value].timestamp).value < timestamp))
    {
      ghost var k := Key(nodetype, value);
      if k in rootNode.picture.holder {
        rootNode.picture.AllBelowRoot(rootNode.picture.holder[k]);
      }
      var stored := rootNode.GetValueData(value, nodetype);
      if stored.Some? {
        var storedValue := stored.value;
        if storedValue.timestamp.Some? && storedValue.timestamp.value < timestamp {
          storedValue := storedValue.(timestamp := Some(timestamp)); // a copy: the tree keeps the old instant
        }
        return false;
      }
      values := values[value := WhoisValue(Some(timestamp), map[])];
      return true;
    }

    /**
      Hangs a pair below the value `key` of this node, unless the tree has the pair already.
     */
    method AddChildKey(key: string, nodetype: NodeType, value: string, timestamp: Time) returns (ghost child: WhoisNode)
      requires rootNode.Valid() && this in rootNode.picture.nodes && key in values
      modifies this`values, values[key].subNodes.Values, rootNode`picture
      ensures rootNode.Valid()
      ensures child !in old(rootNode.picture.nodes) ==> fresh(child)
      ensures var p, k := old(rootNode.picture), Key(nodetype, value);
        && child.nodetype == nodetype && p.CanHang(this, key, child)
        && rootNode.picture == if k in p.holder then p else p.Store(this, key, child, value, timestamp)
    {
      ghost var p := rootNode.picture;
      assert p.Owns(this, key) && p.Attached(this);
      var node;
      var nodeNew := false;
      if nodetype in values[key].subNodes {
        node := values[key].subNodes[nodetype];
        assert p.Attached(node);
      } else {
        node := new WhoisNode.Child(nodetype, this, key);
        nodeNew := true;
      }
      child := node;
      StoreBelow(key, node, nodeNew, value, timestamp);
    }

    /** The end of AddChildKey: a new child is stored only once its pair has been accepted. */
    method StoreBelow(key: string, child: WhoisNode, nodeNew: bool, value: string, timestamp: Time)
      requires rootNode.Valid() && rootNode.picture.CanHang(this, key, child)
      requires nodeNew <==> child !in rootNode.picture.nodes
      requires nodeNew ==> child.values == map[]
      modifies this`values, child`values, rootNode`picture
      ensures rootNode.Valid()
      ensures var p, k := old(rootNode.picture), Key(child.nodetype, value);
        rootNode.picture == if k in p.holder then p else p.Store(this, key, child, value, timestamp)
    {
      ghost var p := rootNode.picture;
      p.StoreRows(this, key, child, value, timestamp);
      var ok := child.AddKey(value, timestamp);
      if nodeNew && ok {
        values := values[key := values[key].(subNodes := values[key].subNodes[child.nodetype := child])];
      }
      ghost var after := if ok then p.Store(this, key, child, value, timestamp) else p;
      if ok {
        p.StoreWellFormed(this, key, child, value, timestamp);
      }
      forall m | m in after.nodes
        ensures m.values == after.nodes[m]
      {
        if m != child && m != this {
          assert m in p.nodes && m.values == old(m.values);
        }
      }
      rootNode.Show(after);
    }

    /** The state of this node, a leaf in the picture `s`, while it is being given its children. */
    ghost predicate Growing(db: TranslationsDB, s: Picture)
      reads rootNode, rootNode.picture.nodes.Keys
    {
      && rootNode.Valid() && rootNode.picture.SproutedFrom(s, this) && rootNode.picture.Proven(db)
      && s.WellFormed() && s.Childless(this)
    }

    /** Since the old state the tree has only gained pairs and newly allocated nodes. */
    twostate predicate OnlyGains()
      reads this, rootNode
    {
      && values.Keys == old(values.Keys)
      && old(rootNode.picture.holder.Keys) <= rootNode.picture.holder.Keys
      && forall m :: m in rootNode.picture.nodes && m !in old(rootNode.picture.nodes) ==> fresh(m)
    }

    /** AddChildKey on a growing node. */
    method Hang(key: string, nodetype: NodeType, value: string, timestamp: Time, db: TranslationsDB, ghost s: Picture)
      requires Growing(db, s) && key in values
      requires Key(nodetype, value) in rootNode.picture.holder ||
        VouchesFirst(db, Key(this.nodetype, key), Key(nodetype, value), timestamp)
      modifies this`values, rootNode`picture, rootNode.picture.nodes.Keys - s.nodes.Keys
      ensures Growing(db, s) && OnlyGains()
      ensures Key(nodetype, value) in rootNode.picture.holder
    {
      hide Picture.WellFormed, Picture.Proven, Picture.Childless, VouchesFirst, Picture.CanHang;
      ghost var p := rootNode.picture;
      p.SubNodesNew(s, this, key);
      ghost var child := AddChildKey(key, nodetype, value, timestamp);
      if Key(nodetype, value) !in p.holder {
        p.StoreSprouts(s, this, key, child, value, timestamp);
        p.StoreProven(this, key, child, value, timestamp, db);
      }
    }

    /** One round of filterDBUsingIP. */
    method LinkIP(ip: string, db: TranslationsDB, ghost s: Picture)
      requires Growing(db, s) && nodetype == Ip && ip in values
      modifies this`values, rootNode`picture, rootNode.picture.nodes.Keys - s.nodes.Keys
      ensures Growing(db, s) && OnlyGains()
      ensures rootNode.picture.Answered(db, this, ip)
    {
      hide Picture.WellFormed, Picture.Proven, Picture.Childless, WhoisNode.Valid;
      var hashes := db.hashToIP.Keys;
      while hashes != {}
        invariant hashes <= db.hashToIP.Keys
        invariant Growing(db, s) && OnlyGains() && ip in values
        invariant forall h :: h in db.hashToIP && h !in hashes && db.hashToIP[h].value == ip ==>
          Key(Uuid, h) in rootNode.picture.holder
        decreases hashes
      {
        var hash :| hash in hashes;
        hashes := hashes - {hash};
        if ip == db.hashToIP[hash].value {
          Hang(ip, Uuid, hash, db.hashToIP[hash].timestamp, db, s);
        }
      }
      if ip in db.ipToNodeNames {
        HangAll(ip, db.ipToNodeNames[ip], db, s);
      }
    }

    /** Hangs every node name of a list of units. */
    method HangAll(key: string, names: seq<TranslationUnit>, db: TranslationsDB, ghost s: Picture)
      requires Growing(db, s) && key in values
      requires forall value, ts :: SaidFirst(names, value, ts) ==>
        VouchesFirst(db, Key(nodetype, key), Key(NodeName, value), ts)
      modifies this`values, rootNode`picture, rootNode.picture.nodes.Keys - s.nodes.Keys
      ensures Growing(db, s) && OnlyGains()
      ensures forall u :: u in names ==> Key(NodeName, u.value) in rootNode.picture.holder
    {
      hide Picture.WellFormed, Picture.Proven, Picture.Childless, VouchesFirst, SaidFirst, WhoisNode.Valid;
      for i := 0 to |names|
        invariant Growing(db, s) && OnlyGains() && key in values
        invariant forall u :: u in names[..i] ==> Key(NodeName, u.value) in rootNode.picture.holder
      {
        FirstOrRepeated(names, i);
        Hang(key, NodeName, names[i].value, names[i].timestamp, db, s);
      }
      assert names[..|names|] == names;
    }

    /** One round of FilterDBUsingUUID. */
    method LinkUUID(uuid: string, db: TranslationsDB, ghost s: Picture)
      requires Growing(db, s) && nodetype == Uuid && uuid in values
      modifies this`values, rootNode`picture, rootNode.picture.nodes.Keys - s.nodes.Keys
      ensures Growing(db, s) && OnlyGains()
      ensures rootNode.picture.Answered(db, this, uuid)
    {
      hide Picture.WellFormed, Picture.Proven, Picture.Childless, WhoisNode.Valid;
      if uuid in db.hashToNodeNames {
        HangAll(uuid, db.hashToNodeNames[uuid], db, s);
      }
      if uuid in db.hashToIP {
        Hang(uuid, Ip, db.hashToIP[uuid].value, db.hashToIP[uuid].timestamp, db, s);
      }
    }

    /** One round of FilterDBUsingNodeName: the reserved name leads nowhere. */
    method LinkNodeName(nodename: string, db: TranslationsDB, ghost s: Picture)
      requires Growing(db, s) && nodetype == NodeName && nodename in values
      modifies this`values, rootNode`picture, rootNode.picture.nodes.Keys - s.nodes.Keys
      ensures Growing(db, s) && OnlyGains()
      ensures rootNode.picture.Answered(db, this, nodename)
    {
      hide Picture.WellFormed, Picture.Proven, Picture.Childless, WhoisNode.Valid;
      if nodename == "unspecified" {
        return;
      }
      HangOwners(nodename, Uuid, db.hashToNodeNames, db, s);
      HangOwners(nodename, Ip, db.ipToNodeNames, db, s);
    }

    /** Hangs every key of `table` that has had the node name. */
    method HangOwners(
      nodename: string, keytype: NodeType, table: map<string, seq<TranslationUnit>>,
      db: TranslationsDB, ghost s: Picture)
      requires Growing(db, s) && nodetype == NodeName && nodename in values && nodename != "unspecified"
      requires (keytype == Uuid && table == db.hashToNodeNames) || (keytype == Ip && table == db.ipToNodeNames)
      modifies this`values, rootNode`picture, rootNode.picture.nodes.Keys - s.nodes.Keys
      ensures Growing(db, s) && OnlyGains()
      ensures forall id, ts :: Vouches(db, Key(NodeName, nodename), Key(keytype, id), ts) ==>
        Key(keytype, id) in rootNode.picture.holder
    {
      hide Picture.WellFormed, Picture.Proven, Picture.Childless, WhoisNode.Valid;
      var ids := table.Keys;
      while ids != {}
        invariant ids <= table.Keys
        invariant Growing(db, s) && OnlyGains() && nodename in values
        invariant forall id, ts :: id !in ids && Vouches(db, Key(NodeName, nodename), Key(keytype, id), ts) ==>
          Key(keytype, id) in rootNode.picture.holder
        decreases ids
      {
        var id :| id in ids;
        ids := ids - {id};
        HangIfNamed(nodename, keytype, id, table[id], db, s);
      }
    }

    /** Hangs the key `id` if the node name is among its names. */
    method HangIfNamed(
      nodename: string, keytype: NodeType, id: string, names: seq<TranslationUnit>,
      db: TranslationsDB, ghost s: Picture)
      requires Growing(db, s) && nodetype == NodeName && nodename in values
      requires forall ts :: SaidFirst(names, nodename, ts) ==>
        VouchesFirst(db, Key(NodeName, nodename), Key(keytype, id), ts)
      modifies this`values, rootNode`picture, rootNode.picture.nodes.Keys - s.nodes.Keys
      ensures Growing(db, s) && OnlyGains()
      ensures (exists u :: u in names && u.value == nodename) ==> Key(keytype, id) in rootNode.picture.holder
    {
      hide Picture.WellFormed, Picture.Proven, Picture.Childless, WhoisNode.Valid, VouchesFirst, SaidFirst;
      for i := 0 to |names|
        invariant Growing(db, s) && OnlyGains() && nodename in values
        invariant (exists u :: u in names[..i] && u.value == nodename) ==> Key(keytype, id) in rootNode.picture.holder
      {
        if nodename == names[i].value {
          FirstOrRepeated(names, i);
          Hang(nodename, keytype, id, names[i].timestamp, db, s);
        }
      }
      assert names[..|names|] == names;
    }

    /** The three filterDB methods: one round per value, by the type of this node. */
    method FilterDB(db: TranslationsDB)
      requires rootNode.Valid() && rootNode.picture.Proven(db)
      requires this in rootNode.picture.nodes && rootNode.picture.Childless(this)
      modifies this`values, rootNode`picture
      ensures Growing(db, old(rootNode.picture)) && OnlyGains()
      ensures rootNode.picture.AllAnswered(db, this)
    {
      ghost var s := rootNode.picture;
      assert Growing(db, s);
      hide Picture.WellFormed, Picture.Proven, Picture.Childless, WhoisNode.Valid;
      var todo := values.Keys;
      while todo != {}
        invariant todo <= values.Keys
        invariant Growing(db, s) && OnlyGains()
        invariant forall v :: v in values && v !in todo ==> rootNode.picture.Answered(db, this, v)
        decreases todo
      {
        var v :| v in todo;
        todo := todo - {v};
        FilterValue(v, db, s);
      }
    }

    /** Looks one value up in the tables, by the type of this node: an unknown type has no links. */
    method FilterValue(v: string, db: TranslationsDB, ghost s: Picture)
      requires Growing(db, s) && v in values
      modifies this`values, rootNode`picture, rootNode.picture.nodes.Keys - s.nodes.Keys
      ensures Growing(db, s) && OnlyGains()
      ensures rootNode.picture.Answered(db, this, v)
    {
      hide Picture.WellFormed, Picture.Proven, Picture.Childless, WhoisNode.Valid;
      match nodetype
      case Ip => LinkIP(v, db, s);
      case Uuid => LinkUUID(v, db, s);
      case NodeName => LinkNodeName(v, db, s);
      case Other(_) =>
    }

    /**
      Gives this leaf its children and, below them, everything that can be reached. It stops because
      every child that is stored holds a pair of the finite universe that the tree did not have.
     */
    method Filter(db: TranslationsDB)
      requires rootNode.Valid() && rootNode.picture.Proven(db)
      requires this in rootNode.picture.nodes && rootNode.picture.Childless(this)
      requires rootNode.picture.InTurn(db) && rootNode.picture.ItsTurn(db, this)
      modifies this`values, rootNode`picture
      ensures rootNode.Valid() && rootNode.picture.Proven(db) && OnlyGains()
      ensures rootNode.picture.InTurn(db)
      ensures rootNode.picture.GrownFrom(old(rootNode.picture), this)
      ensures forall m :: m in rootNode.picture.nodes && (m == this || m !in old(rootNode.picture.nodes)) ==>
        rootNode.picture.AllAnswered(db, m)
      decreases Universe(db) - rootNode.picture.holder.Keys
    {
      hide Picture.WellFormed, Picture.Proven, Picture.Childless, Picture.AllAnswered;
      hide Picture.Between, Picture.SproutedFrom, Picture.InTurn, Picture.ItsTurn;
      ghost var s := rootNode.picture;
      FilterDB(db);
      ghost var sprouted := rootNode.picture;
      ghost var done: set<WhoisNode> := {};
      sprouted.BetweenStart(db, s, this);
      sprouted.SproutInTurn(db, s, this);
      var subNodesOf := map v | v in values :: values[v].subNodes;
      var todo := values.Keys;
      while todo != {}
        invariant todo <= subNodesOf.Keys
        invariant Filtering(db, s, sprouted, done) && OnlyGains()
        invariant forall m :: m in done ==> m.key !in todo
        invariant forall m :: m in sprouted.nodes && m !in s.nodes && m.key !in todo ==> m in done
        decreases todo
      {
        var v :| v in todo;
        todo := todo - {v};
        sprouted.SubNodesAre(db, s, this, v);
        done := FilterSubNodes(v, subNodesOf[v], db, s, sprouted, done);
      }
      rootNode.picture.BetweenEnd(db, s, sprouted, this, done);
    }

    /** The inner loop of `filter`, over the subnodes of one value: `forcedIterationOrder`, unrolled. */
    method FilterSubNodes(
      v: string, subNodes: map<NodeType, WhoisNode>, db: TranslationsDB,
      ghost s: Picture, ghost sprouted: Picture, ghost before: set<WhoisNode>)
      returns (ghost done: set<WhoisNode>)
      requires Filtering(db, s, sprouted, before)
      requires v in sprouted.nodes[this] && subNodes == sprouted.nodes[this][v].subNodes
      requires subNodes.Values !! before
      modifies rootNode`picture, sprouted.nodes.Keys - s.nodes.Keys
      ensures Filtering(db, s, sprouted, done) && OnlyGains()
      ensures done == before + subNodes.Values
      decreases Universe(db) - s.holder.Keys, 1
    {
      hide Picture.WellFormed, Picture.Proven, Picture.Between, Picture.Entry, WhoisNode.Valid;
      hide Picture.InTurn, Picture.ItsTurn, Picture.IsTurnOf;
      rootNode.picture.SubNodesVisited(db, s, sprouted, this, before, v);
      done := VisitSubNode(NodeName, v, subNodes, db, s, sprouted, before);
      done := VisitSubNode(Ip, v, subNodes, db, s, sprouted, done);
      done := VisitSubNode(Uuid, v, subNodes, db, s, sprouted, done);
    }

    /** Filters the child of one type, if there is one. */
    method VisitSubNode(
      t: NodeType, ghost v: string, subNodes: map<NodeType, WhoisNode>, db: TranslationsDB,
      ghost s: Picture, ghost sprouted: Picture, ghost before: set<WhoisNode>)
      returns (ghost done: set<WhoisNode>)
      requires Filtering(db, s, sprouted, before)
      requires v in sprouted.nodes[this] && subNodes == sprouted.nodes[this][v].subNodes
      requires Picture.Entry(subNodes, t) !! before && Picture.IsTurnOf(subNodes, t, before)
      modifies rootNode`picture, sprouted.nodes.Keys - s.nodes.Keys
      ensures Filtering(db, s, sprouted, done) && OnlyGains()
      ensures done == before + Picture.Entry(subNodes, t)
      decreases Universe(db) - s.holder.Keys, 0
    {
      hide Picture.InTurn, Picture.ItsTurn, Picture.IsTurnOf;
      done := before;
      if t in subNodes {
        sprouted.SubNodesAre(db, s, this, v);
        var child := subNodes[t];
        ghost var p := rootNode.picture;
        p.ChildReady(db, s, sprouted, this, before, child);
        p.ChildsTurn(db, s, sprouted, this, before, child);
        hide Picture.WellFormed, Picture.Proven, Picture.Childless, Picture.Between;
        child.Filter(db);
        done := before + {child};
        p.BetweenStep(db, s, sprouted, this, before, child, rootNode.picture);
      }
    }

    /** The state of `filter` while it visits the children sprouted by this node; those in `done` are finished. */
    ghost predicate Filtering(db: TranslationsDB, s: Picture, sprouted: Picture, done: set<WhoisNode>)
      reads rootNode, rootNode.picture.nodes.Keys
    {
      && rootNode.Valid() && rootNode.picture.Proven(db)
      && rootNode.picture.Between(db, s, sprouted, this, done)
      && s.ItsTurn(db, this) && rootNode.picture.InTurn(db)
    }
  }

  /**
    The whole search. The returned tree stores exactly the pairs that can be reached from the one
    searched for, each at one node only, each but the first proven by a fact about its parent's value.
   */
  method Whois(search: string, searchtype: NodeType, db: TranslationsDB) returns (w: WhoisNode)
    ensures fresh(w) && w.Valid() && w.nodetype == searchtype && w.values.Keys == {search}
    ensures forall k :: k in w.picture.holder <==> Reachable(db, Key(searchtype, search), k)
    ensures forall k :: k in w.picture.holder ==>
      Picture.Below(w, w.picture.holder[k]) && k.value in w.picture.holder[k].values
    ensures forall m, v :: m in w.picture.nodes && v in m.values ==>
      Key(m.nodetype, v) in w.picture.holder && w.picture.holder[Key(m.nodetype, v)] == m
    ensures w.picture.Proven(db) && w.picture.InTurn(db)
  {
    w := new WhoisNode.Root(searchtype);
    w.values := map[search := WhoisValue(None, map[])];
    w.picture := Picture(w, map[w := w.values], map[Key(searchtype, search) := w], 1);
    assert search in w.values;
    w.picture.FirstTurn(db);
    w.Filter(db);
    w.picture.StoresExactlyReachable(db, search);
    w.picture.HeldOnce();
  }

  /** Two facts about one name: by its address at instant 1, and by a hash at instant 5. */
  const TWO_FACTS := TranslationsDB(
    map[], map["u" := [TranslationUnit("n", 5)]], map["i" := [TranslationUnit("n", 1)]], map[])

  /** The search from the address meets the later fact too, and keeps the earlier instant. */
  method EarlierInstantKept() returns (w: WhoisNode)
    ensures fresh(w) && w.Valid()
    ensures Key(Uuid, "u") in w.picture.holder && Vouches(TWO_FACTS, Key(Uuid, "u"), Key(NodeName, "n"), 5)
    ensures Key(NodeName, "n") in w.picture.holder
    ensures var m := w.picture.holder[Key(NodeName, "n")];
      m in w.picture.nodes && "n" in m.values && m.values["n"].timestamp == Some(1)
  {
    w := Whois("i", Ip, TWO_FACTS);
    var i, n, u := Key(Ip, "i"), Key(NodeName, "n"), Key(Uuid, "u");
    TwoFactsReached();
    w.picture.NameHangsFromAddress(w);
  }

  lemma TwoFactsReached()
    ensures Reachable(TWO_FACTS, Key(Ip, "i"), Key(NodeName, "n"))
    ensures Reachable(TWO_FACTS, Key(Ip, "i"), Key(Uuid, "u"))
  {
    var i, n, u := Key(Ip, "i"), Key(NodeName, "n"), Key(Uuid, "u");
    assert Vouches(TWO_FACTS, i, n, 1);
    assert Vouches(TWO_FACTS, n, u, 5);
    ReachableSelf(TWO_FACTS, i);
    ReachableStep(TWO_FACTS, i, i, n);
    ReachableStep(TWO_FACTS, i, n, u);
  }
}
