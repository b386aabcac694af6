/**
 * The logic of the `Events` resource: the canonical key of an undirected
 * edge, the construction of the edge-key set from a graph's `nodes`
 * dictionary, the event-id check, and the contract a matching round must
 * satisfy (the matching itself is not written in the source).
 */
module Events {
  import opened Wrappers
  import opened Strings
  import opened Graphs

  // ---------------------------------------------------------------------
  // Edge keys

  /** The key of the undirected edge between nodes `a` and `b`: the smaller key first, comma-separated. */
  function EdgeKey(a: string, b: string): string {
    if Less(a, b) then a + "," + b else b + "," + a
  }

  /** Both orientations of an edge give the same key. */
  lemma EdgeKeySymmetric(a: string, b: string)
    ensures EdgeKey(a, b) == EdgeKey(b, a)
  {
    LessTrichotomy(a, b);
  }

  /** For comma-free node keys, splitting an edge key at the comma gives back the two ends, smaller first. */
  lemma EdgeKeyDecode(a: string, b: string)
    requires ',' !in a && ',' !in b
    ensures var parts := Split(EdgeKey(a, b), ',');
      && |parts| == 2
      && !Less(parts[1], parts[0])
      && ((parts[0] == a && parts[1] == b) || (parts[0] == b && parts[1] == a))
  {
    LessTrichotomy(a, b);
    var lo, hi := if Less(a, b) then a else b, if Less(a, b) then b else a;
    assert Join([lo, hi], ',') == EdgeKey(a, b);
    SplitJoin([lo, hi], ',');
  }

  /** For comma-free node keys, two edges have the same key exactly when they join the same two nodes. */
  lemma EdgeKeyInjective(a: string, b: string, c: string, d: string)
    requires ',' !in a && ',' !in b && ',' !in c && ',' !in d
    ensures EdgeKey(a, b) == EdgeKey(c, d) <==> (a == c && b == d) || (a == d && b == c)
  {
    EdgeKeyDecode(a, b);
    EdgeKeyDecode(c, d);
    EdgeKeySymmetric(a, b);
  }

  // ---------------------------------------------------------------------
  // The edge set built by Events.algorithm

  /** The keys of the edges recorded on one node. */
  function NodeEdgeKeys(key: string, edges: seq<string>): (keys: set<string>)
    decreases |edges|
  {
    if edges == [] then {}
    else NodeEdgeKeys(key, edges[..|edges| - 1]) + {EdgeKey(key, edges[|edges| - 1])}
  }

  /** The keys of all edges recorded on the nodes, in either orientation. */
  function EdgeSet(nodes: seq<Entry>): (keys: set<string>)
    decreases |nodes|
  {
    if nodes == [] then {}
    else EdgeSet(nodes[..|nodes| - 1]) + NodeEdgeKeys(nodes[|nodes| - 1].key, nodes[|nodes| - 1].value.edges)
  }

  lemma {:induction false} NodeEdgeKeysMembers(key: string, edges: seq<string>, k: string)
    ensures k in NodeEdgeKeys(key, edges) <==> exists j :: 0 <= j < |edges| && EdgeKey(key, edges[j]) == k
    decreases |edges|
  {
    if edges != [] {
      var init := edges[..|edges| - 1];
      NodeEdgeKeysMembers(key, init, k);
      if k in NodeEdgeKeys(key, init) {
        var j :| 0 <= j < |init| && EdgeKey(key, init[j]) == k;
        assert edges[j] == init[j];
      }
    }
  }

  /** A key is in the edge set exactly when some node records an edge with that key. */
  lemma {:induction false} EdgeSetMembers(nodes: seq<Entry>, k: string)
    ensures k in EdgeSet(nodes) <==>
      exists i, j :: 0 <= i < |nodes| && 0 <= j < |nodes[i].value.edges|
        && EdgeKey(nodes[i].key, nodes[i].value.edges[j]) == k
    decreases |nodes|
  {
    if nodes != [] {
      var init := nodes[..|nodes| - 1];
      var last := nodes[|nodes| - 1];
      EdgeSetMembers(init, k);
      NodeEdgeKeysMembers(last.key, last.value.edges, k);
      if k in EdgeSet(init) {
        var i, j :| 0 <= i < |init| && 0 <= j < |init[i].value.edges|
          && EdgeKey(init[i].key, init[i].value.edges[j]) == k;
        assert nodes[i] == init[i];
      } else if k in NodeEdgeKeys(last.key, last.value.edges) {
        var j :| 0 <= j < |last.value.edges| && EdgeKey(last.key, last.value.edges[j]) == k;
        assert nodes[|nodes| - 1] == last;
      }
      forall i, j | 0 <= i < |nodes| && 0 <= j < |nodes[i].value.edges|
          && EdgeKey(nodes[i].key, nodes[i].value.edges[j]) == k
        ensures k in EdgeSet(nodes)
      {
        if i < |init| {
          assert init[i] == nodes[i];
        }
      }
    }
  }

  /** Every node key and every recorded edge end is free of commas (true of sanitised names). */
  predicate CommaFree(nodes: seq<Entry>) {
    forall i :: 0 <= i < |nodes| ==>
      ',' !in nodes[i].key && forall j :: 0 <= j < |nodes[i].value.edges| ==> ',' !in nodes[i].value.edges[j]
  }

  /** Whether the edge from `x` to `y` joins `a` and `b`, in either direction. */
  predicate Joins(x: string, y: string, a: string, b: string) {
    (x == a && y == b) || (x == b && y == a)
  }

  /**
   * The edge set does not depend on orientation: the pair `a`, `b` is in it
   * exactly when some node records the edge, whether on `a`'s list or on `b`'s.
   */
  lemma EdgeSetOrientationFree(nodes: seq<Entry>, a: string, b: string)
    requires CommaFree(nodes) && ',' !in a && ',' !in b
    ensures EdgeKey(a, b) in EdgeSet(nodes) <==>
      exists i, j :: 0 <= i < |nodes| && 0 <= j < |nodes[i].value.edges|
        && Joins(nodes[i].key, nodes[i].value.edges[j], a, b)
  {
    EdgeSetMembers(nodes, EdgeKey(a, b));
    forall i, j | 0 <= i < |nodes| && 0 <= j < |nodes[i].value.edges|
      ensures EdgeKey(nodes[i].key, nodes[i].value.edges[j]) == EdgeKey(a, b)
          <==> Joins(nodes[i].key, nodes[i].value.edges[j], a, b)
    {
      EdgeKeyInjective(nodes[i].key, nodes[i].value.edges[j], a, b);
    }
  }

  /** A graph as Graphs.post builds it, every edge list empty, has no edges. */
  lemma {:induction false} InitialGraphHasNoEdges(nodes: seq<Entry>)
    requires forall i :: 0 <= i < |nodes| ==> nodes[i].value.edges == []
    ensures EdgeSet(nodes) == {}
    decreases |nodes|
  {
    if nodes != [] {
      var init := nodes[..|nodes| - 1];
      assert forall i :: 0 <= i < |init| ==> init[i] == nodes[i];
      InitialGraphHasNoEdges(init);
    }
  }

  /**
   * The roster a post creates, keyed by filtered names with empty edge lists,
   * is comma-free and has no edges, so edge keys built over it decode.
   */
  lemma InitialRosterIsCommaFree(nodes: seq<Entry>, names: seq<string>)
    requires Keys(nodes) == FilteredNames(names)
    requires forall k :: k in Keys(nodes) ==> Lookup(nodes, k) == Some(NodeRecord([]))
    ensures CommaFree(nodes)
    ensures EdgeSet(nodes) == {}
  {
    forall i | 0 <= i < |nodes| ensures ',' !in nodes[i].key && nodes[i].value.edges == [] {
      assert Keys(nodes)[i] == nodes[i].key;
      CleanNameHasNoComma(nodes[i].key);
      LookupAt(nodes, i);
    }
    InitialGraphHasNoEdges(nodes);
  }

  /**
   * The parsing loop of Events.algorithm: the node names in dictionary
   * order, and the set of edge keys over every node's edge list.
   */
  method ParseGraph(nodes: seq<Entry>) returns (names: seq<string>, edges: set<string>)
    ensures names == Keys(nodes)
    ensures edges == EdgeSet(nodes)
  {
    names := [];
    edges := {};
    for i := 0 to |nodes|
      invariant names == Keys(nodes[..i])
      invariant edges == EdgeSet(nodes[..i])
    {
      var node := nodes[i];
      EdgeSetSnoc(nodes, i);
      names := names + [node.key];
      ghost var before := edges;
      for j := 0 to |node.value.edges|
        invariant edges == before + NodeEdgeKeys(node.key, node.value.edges[..j])
      {
        var edge := node.value.edges[j];
        NodeEdgeKeysSnoc(node.key, node.value.edges, j);
        edges := edges + {if Less(node.key, edge) then node.key + "," + edge else edge + "," + node.key};
      }
      assert node.value.edges[..|node.value.edges|] == node.value.edges;
    }
    assert nodes[..|nodes|] == nodes;
  }

  /** One more edge on a node's list adds its key. */
  lemma NodeEdgeKeysSnoc(key: string, edges: seq<string>, j: nat)
    requires j < |edges|
    ensures NodeEdgeKeys(key, edges[..j + 1]) == NodeEdgeKeys(key, edges[..j]) + {EdgeKey(key, edges[j])}
  {
    assert edges[..j + 1][..j] == edges[..j];
  }

  /** One more node adds its name and its edge keys. */
  lemma EdgeSetSnoc(nodes: seq<Entry>, i: nat)
    requires i < |nodes|
    ensures EdgeSet(nodes[..i + 1]) == EdgeSet(nodes[..i]) + NodeEdgeKeys(nodes[i].key, nodes[i].value.edges)
    ensures Keys(nodes[..i + 1]) == Keys(nodes[..i]) + [nodes[i].key]
  {
    assert nodes[..i + 1][..i] == nodes[..i];
  }

  // ---------------------------------------------------------------------
  // The contract of a matching round

  /** One pairing of a round. */
  datatype Pairing = Pairing(nodeA: string, nodeB: string)

  /** Two pairings share no node. */
  predicate Disjoint(p: Pairing, q: Pairing) {
    p.nodeA != q.nodeA && p.nodeA != q.nodeB && p.nodeB != q.nodeA && p.nodeB != q.nodeB
  }

  /**
   * What the unwritten matching step is to produce: pairings of two
   * distinct roster nodes, none already in the history of edge keys, no
   * node in two pairings.
   */
  predicate ValidRound(roster: seq<string>, history: set<string>, round: seq<Pairing>) {
    && (forall i :: 0 <= i < |round| ==>
          round[i].nodeA != round[i].nodeB && round[i].nodeA in roster && round[i].nodeB in roster
          && EdgeKey(round[i].nodeA, round[i].nodeB) !in history)
    && (forall i, j :: 0 <= i < j < |round| ==> Disjoint(round[i], round[j]))
  }

  /** The history after a round: its pairings' keys added. */
  function RecordRound(history: set<string>, round: seq<Pairing>): (after: set<string>)
    ensures history <= after
    ensures forall i :: 0 <= i < |round| ==> EdgeKey(round[i].nodeA, round[i].nodeB) in after
    decreases |round|
  {
    if round == [] then history
    else
      var init := round[..|round| - 1];
      var after := RecordRound(history, init) + {EdgeKey(round[|round| - 1].nodeA, round[|round| - 1].nodeB)};
      assert forall i :: 0 <= i < |init| ==> round[i] == init[i];
      after
  }

  /** No pair of a round is paired again in a later valid round, in either orientation. */
  lemma RoundsNeverRepeat(roster: seq<string>, history: set<string>, first: seq<Pairing>, second: seq<Pairing>)
    requires ValidRound(roster, history, first)
    requires ValidRound(roster, RecordRound(history, first), second)
    ensures forall i, j :: 0 <= i < |first| && 0 <= j < |second| ==>
      !Joins(first[i].nodeA, first[i].nodeB, second[j].nodeA, second[j].nodeB)
  {
    forall i, j | 0 <= i < |first| && 0 <= j < |second|
      ensures !Joins(first[i].nodeA, first[i].nodeB, second[j].nodeA, second[j].nodeB)
    {
      EdgeKeySymmetric(first[i].nodeA, first[i].nodeB);
    }
  }

  /** A valid round over comma-free names adds exactly one new key per pairing. */
  lemma {:induction false} RecordRoundSize(roster: seq<string>, history: set<string>, round: seq<Pairing>)
    requires ValidRound(roster, history, round)
    requires forall i :: 0 <= i < |roster| ==> ',' !in roster[i]
    ensures |RecordRound(history, round)| == |history| + |round|
    decreases |round|
  {
    if round != [] {
      var init := round[..|round| - 1];
      var p := round[|round| - 1];
      assert forall i :: 0 <= i < |init| ==> init[i] == round[i];
      assert ValidRound(roster, history, init);
      RecordRoundSize(roster, history, init);
      assert ',' !in p.nodeA && ',' !in p.nodeB;
      assert EdgeKey(p.nodeA, p.nodeB) !in RecordRound(history, init) by {
        RecordRoundFrom(history, init, EdgeKey(p.nodeA, p.nodeB));
        forall i | 0 <= i < |init|
          ensures EdgeKey(init[i].nodeA, init[i].nodeB) != EdgeKey(p.nodeA, p.nodeB)
        {
          assert Disjoint(round[i], p);
          assert ',' !in init[i].nodeA && ',' !in init[i].nodeB;
          EdgeKeyInjective(init[i].nodeA, init[i].nodeB, p.nodeA, p.nodeB);
        }
      }
    }
  }

  /** Every key of the recorded history was there before or belongs to a pairing of the round. */
  lemma {:induction false} RecordRoundFrom(history: set<string>, round: seq<Pairing>, k: string)
    ensures k in RecordRound(history, round) <==>
      k in history || exists i :: 0 <= i < |round| && EdgeKey(round[i].nodeA, round[i].nodeB) == k
    decreases |round|
  {
    if round != [] {
      var init := round[..|round| - 1];
      RecordRoundFrom(history, init, k);
      assert forall i :: 0 <= i < |init| ==> init[i] == round[i];
    }
  }

  // ---------------------------------------------------------------------
  // is_valid_event_id

  /** A UUID value: its 128-bit integer. */
  datatype Uuid = Uuid(value: nat)

  /**
   * is_valid_event_id: `parse` stands for `UUID(s, version=4)` (`None` for
   * the `ValueError`), `render` for `str(uuid)`. Accepted exactly when the
   * string parses and is its own canonical rendering.
   */
  function IsValidEventId(eventId: string, parse: string -> Option<Uuid>, render: Uuid -> string): bool {
    match parse(eventId)
    case None => false
    case Some(uuid) => render(uuid) == eventId
  }

  /** Every canonical rendering that parses back to its UUID is accepted. */
  lemma CanonicalEventIdAccepted(uuid: Uuid, parse: string -> Option<Uuid>, render: Uuid -> string)
    requires parse(render(uuid)) == Some(uuid)
    ensures IsValidEventId(render(uuid), parse, render)
  {
  }

  /** A string whose canonical rendering differs from it is rejected. */
  lemma NonCanonicalEventIdRejected(eventId: string, parse: string -> Option<Uuid>, render: Uuid -> string)
    requires parse(eventId).Some? && render(parse(eventId).value) != eventId
    ensures !IsValidEventId(eventId, parse, render)
  {
  }

  /** Two accepted ids denoting the same UUID are the same string. */
  lemma AcceptedEventIdsUnique(s: string, t: string, parse: string -> Option<Uuid>, render: Uuid -> string)
    requires IsValidEventId(s, parse, render) && IsValidEventId(t, parse, render)
    requires parse(s) == parse(t)
    ensures s == t
  {
  }
}
