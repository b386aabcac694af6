/**
 * The logic of the `Graphs` resource: roster ("graph") identifier validation,
 * participant-name sanitising and de-duplication, identifier generation, the
 * bounded retry loop that allocates an identifier, and the construction of a
 * new roster document. Store access is modelled by a `taken` predicate
 * (does a graph document with this id exist?) and randomness by the letter
 * samples the generator would draw.
 */
module Graphs {
  import opened Wrappers
  import opened Strings

  // ---------------------------------------------------------------------
  // is_valid_graph_id

  /**
   * is_valid_graph_id: drop every character outside `A`-`Z`, strip, and
   * accept when exactly four characters remain. The strip never removes
   * anything, because no uppercase letter is whitespace.
   */
  function IsValidGraphId(graphId: string): (valid: bool)
    ensures valid <==> |KeepOnly(graphId, UpperLetters)| == 4
  {
    var letters := KeepOnly(graphId, UpperLetters);
    StripNoSpace(letters);
    |Strip(letters)| == 4
  }

  /** An id is valid exactly when it contains four uppercase letters, wherever they stand. */
  lemma ValidGraphIdCountsLetters(graphId: string)
    ensures IsValidGraphId(graphId) <==> |Positions(graphId, UpperLetters)| == 4
  {
    KeepOnlyCount(graphId, UpperLetters);
  }

  /**
   * Validation ignores everything except the uppercase letters: inserting
   * non-letters anywhere does not change the verdict.
   */
  lemma {:induction false} ValidGraphIdIgnoresNonLetters(a: string, junk: string, b: string)
    requires forall i :: 0 <= i < |junk| ==> !IsUpper(junk[i])
    ensures IsValidGraphId(a + junk + b) == IsValidGraphId(a + b)
  {
    KeepOnlyAppend(a + junk, b, UpperLetters);
    KeepOnlyAppend(a, junk, UpperLetters);
    KeepOnlyAppend(a, b, UpperLetters);
    KeepOnlyCount(junk, UpperLetters);
    assert Positions(junk, UpperLetters) == {};
  }

  /**
   * "AB-CD" cleans to "ABCD" and is valid. The pieces are parameters pinned
   * by the precondition: Dafny unfolds recursive definitions such as
   * `KeepOnly` without bound on literal arguments, which makes the proof
   * with the literals written in place far more expensive.
   */
  lemma ValidGraphIdExampleDash(a: string, dash: string, b: string)
    requires a == "AB" && dash == "-" && b == "CD"
    ensures IsValidGraphId(a + dash + b)
  {
    ValidGraphIdIgnoresNonLetters(a, dash, b);
    KeepOnlyAllAllowed(a + b, UpperLetters);
  }

  /** "abcd" cleans to the empty string and is invalid. */
  lemma InvalidGraphIdExampleLowercase()
    ensures !IsValidGraphId("abcd")
  {
    assert forall i :: 0 <= i < 4 ==> !IsUpper("abcd"[i]);
    KeepOnlyCount("abcd", UpperLetters);
    assert Positions("abcd", UpperLetters) == {};
  }

  /** "ABCDE" keeps all five letters and is invalid. */
  lemma InvalidGraphIdExampleTooLong()
    ensures !IsValidGraphId("ABCDE")
  {
    KeepOnlyAllAllowed("ABCDE", UpperLetters);
  }

  // ---------------------------------------------------------------------
  // filter_names

  /** A name as `filter_names` keeps it: non-empty, name characters only, no outer spaces. */
  predicate IsCleanName(name: string) {
    && name != []
    && (forall i :: 0 <= i < |name| ==> IsNameChar(name[i]))
    && name[0] != ' ' && name[|name| - 1] != ' '
  }

  /** The cleaning step of filter_names: drop characters outside `[a-zA-Z0-9 ]`, then strip. */
  function SanitizeName(name: string): (cleaned: string)
    ensures |cleaned| <= |name|
    ensures forall i :: 0 <= i < |cleaned| ==> IsNameChar(cleaned[i])
    ensures cleaned == [] || IsCleanName(cleaned)
  {
    var kept := KeepOnly(name, NameChars);
    StripKeepsClass(kept, NameChars);
    Strip(kept)
  }

  /** A clean name sanitises to itself, so sanitising is idempotent. */
  lemma SanitizeClean(name: string)
    requires IsCleanName(name)
    ensures SanitizeName(name) == name
  {
    KeepOnlyAllAllowed(name, NameChars);
    assert !IsSpace(name[0]) && !IsSpace(name[|name| - 1]);
    assert Strip(name) == name;
  }

  lemma SanitizeIdempotent(name: string)
    ensures SanitizeName(SanitizeName(name)) == SanitizeName(name)
  {
    var cleaned := SanitizeName(name);
    if cleaned != [] {
      SanitizeClean(cleaned);
    }
  }

  /** Sanitised names contain no comma, so they survive `split(',')` as whole pieces. */
  lemma CleanNameHasNoComma(name: string)
    requires IsCleanName(name)
    ensures ',' !in name
  {
  }

  /**
   * What filter_names has collected after the given names: the loop's list,
   * extended with each cleaned name that is non-empty and not yet present.
   */
  function FilteredNames(names: seq<string>): (filtered: seq<string>)
    ensures forall i :: 0 <= i < |filtered| ==> IsCleanName(filtered[i])
    ensures Distinct(filtered)
    decreases |names|
  {
    if names == [] then []
    else
      var kept := FilteredNames(names[..|names| - 1]);
      var cleaned := SanitizeName(names[|names| - 1]);
      if |cleaned| > 0 && cleaned !in kept then kept + [cleaned] else kept
  }

  /** filter_names: the loop of the source, appending each new non-empty cleaned name. */
  method FilterNames(names: seq<string>) returns (filteredNames: seq<string>)
    ensures filteredNames == FilteredNames(names)
    ensures Distinct(filteredNames)
    ensures forall i :: 0 <= i < |filteredNames| ==> IsCleanName(filteredNames[i])
  {
    filteredNames := [];
    for k := 0 to |names|
      invariant filteredNames == FilteredNames(names[..k])
    {
      assert names[..k + 1][..k] == names[..k];
      var cleaned := SanitizeName(names[k]);
      if |cleaned| > 0 && cleaned !in filteredNames {
        filteredNames := filteredNames + [cleaned];
      }
    }
    assert names[..|names|] == names;
  }

  /** The sanitised input, position by position. */
  function SanitizedNames(names: seq<string>): (s: seq<string>)
    ensures |s| == |names|
    ensures forall i :: 0 <= i < |names| ==> s[i] == SanitizeName(names[i])
  {
    if names == [] then []
    else SanitizedNames(names[..|names| - 1]) + [SanitizeName(names[|names| - 1])]
  }

  /** The position of the first occurrence of `x` in `xs`. */
  function FirstIndex(xs: seq<string>, x: string): (k: nat)
    requires x in xs
    ensures k < |xs| && xs[k] == x && x !in xs[..k]
  {
    if xs[0] == x then 0
    else
      var k := 1 + FirstIndex(xs[1..], x);
      assert xs[..k] == [xs[0]] + xs[1..][..k - 1];
      k
  }

  /** The output holds exactly the non-empty sanitised inputs. */
  lemma {:induction false} FilteredNamesMembers(names: seq<string>, x: string)
    ensures x in FilteredNames(names) <==> x != [] && x in SanitizedNames(names)
    decreases |names|
  {
    if names != [] {
      var init := names[..|names| - 1];
      FilteredNamesMembers(init, x);
      assert SanitizedNames(names) == SanitizedNames(init) + [SanitizeName(names[|names| - 1])];
    }
  }

  lemma {:induction false} FirstIndexExtend(xs: seq<string>, y: string, x: string)
    requires x in xs
    ensures x in xs + [y] && FirstIndex(xs + [y], x) == FirstIndex(xs, x)
    decreases |xs|
  {
    if xs[0] != x {
      assert (xs + [y])[1..] == xs[1..] + [y];
      FirstIndexExtend(xs[1..], y, x);
    }
  }

  lemma {:induction false} FirstIndexLast(xs: seq<string>, x: string)
    requires x !in xs
    ensures x in xs + [x] && FirstIndex(xs + [x], x) == |xs|
    decreases |xs|
  {
    if xs != [] {
      assert (xs + [x])[1..] == xs[1..] + [x];
      FirstIndexLast(xs[1..], x);
    }
  }

  /**
   * The output lists names in the order of their first occurrence among
   * the sanitised inputs.
   */
  lemma {:induction false} FilteredNamesOrder(names: seq<string>, p: nat, q: nat)
    requires p < q < |FilteredNames(names)|
    ensures FilteredNames(names)[p] in SanitizedNames(names)
    ensures FilteredNames(names)[q] in SanitizedNames(names)
    ensures FirstIndex(SanitizedNames(names), FilteredNames(names)[p])
          < FirstIndex(SanitizedNames(names), FilteredNames(names)[q])
    decreases |names|
  {
    var init := names[..|names| - 1];
    var kept := FilteredNames(init);
    var s := SanitizedNames(init);
    var cleaned := SanitizeName(names[|names| - 1]);
    var r := FilteredNames(names);
    assert SanitizedNames(names) == s + [cleaned];
    assert r == kept || r == kept + [cleaned];
    if q < |kept| {
      assert r[p] == kept[p] && r[q] == kept[q];
      FilteredNamesOrder(init, p, q);
      FirstIndexExtend(s, cleaned, kept[p]);
      FirstIndexExtend(s, cleaned, kept[q]);
    } else {
      assert r == kept + [cleaned] && r[p] == kept[p] && r[q] == cleaned;
      FilteredNamesMembers(init, kept[p]);
      FilteredNamesMembers(init, cleaned);
      FirstIndexExtend(s, cleaned, kept[p]);
      FirstIndexLast(s, cleaned);
    }
  }

  /** Names that are already clean and distinct pass through unchanged. */
  lemma {:induction false} FilteredNamesFixed(names: seq<string>)
    requires Distinct(names)
    requires forall i :: 0 <= i < |names| ==> IsCleanName(names[i])
    ensures FilteredNames(names) == names
    decreases |names|
  {
    if names != [] {
      var init := names[..|names| - 1];
      var last := names[|names| - 1];
      assert names == init + [last];
      DistinctInit(init, last);
      assert forall i :: 0 <= i < |init| ==> init[i] == names[i];
      FilteredNamesFixed(init);
      SanitizeClean(last);
    }
  }

  /** filter_names is idempotent. */
  lemma FilteredNamesIdempotent(names: seq<string>)
    ensures FilteredNames(FilteredNames(names)) == FilteredNames(names)
  {
    FilteredNamesFixed(FilteredNames(names));
  }

  /**
   * "Al!ice" loses its punctuation; case is kept. As in
   * `ValidGraphIdExampleDash`, the pieces are parameters pinned by the
   * precondition, to keep literal arguments away from `KeepOnly`.
   */
  lemma SanitizeNameExamplePunctuation(a: string, bang: string, c: string)
    requires a == "Al" && bang == "!" && c == "ice"
    ensures SanitizeName(a + bang + c) == "Alice"
  {
    KeepOnlyAppend(a + bang, c, NameChars);
    KeepOnlyAppend(a, bang, NameChars);
    KeepOnlyAllAllowed(a, NameChars);
    KeepOnlyAllAllowed(c, NameChars);
    assert KeepOnly(bang, NameChars) == [] by { assert bang[..0] == []; }
    assert a + c == "Alice";
    StripNoSpace("Alice");
  }

  /** Clean names such as "alice" and "Bob 2" pass unchanged (pinned as above). */
  lemma SanitizeNameExampleClean(name: string)
    requires name == "alice" || name == "Bob 2"
    ensures SanitizeName(name) == name
  {
    assert forall i :: 0 <= i < |name| ==> IsNameChar(name[i]);
    SanitizeClean(name);
  }

  // ---------------------------------------------------------------------
  // generate_identifier

  /** A draw of `random.sample(ascii_uppercase, k=4)`: four distinct letter indices. */
  predicate IsLetterSample(sample: seq<nat>) {
    |sample| == 4 && Distinct(sample) && forall i :: 0 <= i < 4 ==> sample[i] < 26
  }

  type LetterSample = s: seq<nat> | IsLetterSample(s) witness [0, 1, 2, 3]

  /** The letter with the given index in `string.ascii_uppercase`. */
  function Letter(index: nat): (c: char)
    requires index < 26
    ensures IsUpper(c)
  {
    (65 + index) as char
  }

  /** The index of an uppercase letter in `string.ascii_uppercase`. */
  function LetterIndex(c: char): (index: nat)
    requires IsUpper(c)
    ensures index < 26 && Letter(index) == c
  {
    (c as int - 65) as nat
  }

  /** The letters with the given indices, in order. */
  function Letters(indices: seq<nat>): (word: string)
    requires forall i :: 0 <= i < |indices| ==> indices[i] < 26
    ensures |word| == |indices|
    ensures forall i :: 0 <= i < |indices| ==> word[i] == Letter(indices[i])
  {
    if indices == [] then [] else [Letter(indices[0])] + Letters(indices[1..])
  }

  /** generate_identifier: the sampled letters joined in sampled order. */
  function GenerateIdentifier(sample: LetterSample): (graphId: string)
    ensures |graphId| == 4
    ensures forall i :: 0 <= i < 4 ==> IsUpper(graphId[i])
  {
    Letters(sample)
  }

  /** A sample draws distinct letters, so the identifier has no repeated letter. */
  lemma GeneratedIdDistinct(sample: LetterSample)
    ensures Distinct(GenerateIdentifier(sample))
  {
  }

  /** The inverse of generation: each letter back to its index in the alphabet. */
  function LetterIndices(graphId: string): (indices: seq<nat>)
    requires forall i :: 0 <= i < |graphId| ==> IsUpper(graphId[i])
    ensures |indices| == |graphId|
    ensures forall i :: 0 <= i < |graphId| ==> indices[i] < 26 && Letter(indices[i]) == graphId[i]
  {
    if graphId == [] then []
    else [LetterIndex(graphId[0])] + LetterIndices(graphId[1..])
  }

  /** Every generated identifier passes is_valid_graph_id. */
  lemma GeneratedIdIsValid(sample: LetterSample)
    ensures IsValidGraphId(GenerateIdentifier(sample))
  {
    KeepOnlyAllAllowed(GenerateIdentifier(sample), UpperLetters);
  }

  /** The generated identifier determines the sample it came from. */
  lemma GenerateIdentifierInverse(sample: LetterSample)
    ensures LetterIndices(GenerateIdentifier(sample)) == sample
  {
    var indices := LetterIndices(GenerateIdentifier(sample));
    forall i | 0 <= i < 4 ensures indices[i] == sample[i] {
      assert Letter(indices[i]) == Letter(sample[i]);
    }
  }

  /** Every identifier of four distinct uppercase letters can be generated. */
  lemma GenerateIdentifierOnto(graphId: string)
    requires |graphId| == 4 && Distinct(graphId)
    requires forall i :: 0 <= i < 4 ==> IsUpper(graphId[i])
    ensures IsLetterSample(LetterIndices(graphId))
    ensures GenerateIdentifier(LetterIndices(graphId)) == graphId
  {
    var indices := LetterIndices(graphId);
    forall i, j | 0 <= i < j < 4 ensures indices[i] != indices[j] {
      assert Letter(indices[i]) == graphId[i] != graphId[j] == Letter(indices[j]);
    }
  }

  // ---------------------------------------------------------------------
  // The identifier retry loop of Graphs.post

  /**
   * The id the retry loop settles on: the first of the three candidates the
   * store does not hold, or the third when the store holds all of them.
   */
  function ChosenCandidate(taken: string -> bool, draws: seq<LetterSample>): string
    requires |draws| >= 3
  {
    if !taken(GenerateIdentifier(draws[0])) then GenerateIdentifier(draws[0])
    else if !taken(GenerateIdentifier(draws[1])) then GenerateIdentifier(draws[1])
    else GenerateIdentifier(draws[2])
  }

  /**
   * The loop of Graphs.post as written: up to three draws, stopping at the
   * first candidate the store does not hold. `taken` answers
   * `graphs_ref.document(id).get().exists`; `draws` are the generator's
   * successive samples. After three collisions `graphId` still holds the
   * last (taken) candidate, so the following `graphId is None` guard never
   * fires.
   */
  method AllocateGraphId(taken: string -> bool, draws: seq<LetterSample>)
    returns (graphId: Option<string>, success: bool, attempt: nat)
    requires |draws| >= 3
    ensures 1 <= attempt <= 3
    ensures graphId == Some(GenerateIdentifier(draws[attempt - 1]))
    ensures success <==> !taken(graphId.value)
    ensures forall k :: 0 <= k < attempt - 1 ==> taken(GenerateIdentifier(draws[k]))
    ensures !success ==> attempt == 3
    ensures graphId == Some(ChosenCandidate(taken, draws))
  {
    success := false;
    attempt := 0;
    graphId := None;
    while !success && attempt < 3
      invariant 0 <= attempt <= 3
      invariant attempt == 0 <==> graphId == None
      invariant attempt == 0 ==> !success
      invariant attempt > 0 ==> graphId == Some(GenerateIdentifier(draws[attempt - 1]))
      invariant attempt > 0 ==> (success <==> !taken(graphId.value))
      invariant forall k :: 0 <= k < attempt - 1 ==> taken(GenerateIdentifier(draws[k]))
      decreases 3 - attempt
    {
      graphId := Some(GenerateIdentifier(draws[attempt]));
      attempt := attempt + 1;
      if !taken(graphId.value) {
        success := true;
      }
    }
  }

  /** A store that holds every id: the loop gives up after three draws yet returns an id. */
  method CollisionCounterexample() returns (graphId: Option<string>, success: bool)
    ensures !success && graphId == Some("CDEF")
  {
    var attempt;
    graphId, success, attempt := AllocateGraphId(id => true, [[0, 1, 2, 3], [1, 2, 3, 4], [2, 3, 4, 5]]);
    assert GenerateIdentifier([2, 3, 4, 5]) == "CDEF";
  }

  /**
   * The allocation the error return evidently intends: `None` exactly when
   * all three candidates collided, otherwise a free identifier.
   */
  method AllocateFreshGraphId(taken: string -> bool, draws: seq<LetterSample>)
    returns (graphId: Option<string>)
    requires |draws| >= 3
    ensures graphId.Some? ==> !taken(graphId.value) && IsValidGraphId(graphId.value)
    ensures graphId.None? <==> forall k :: 0 <= k < 3 ==> taken(GenerateIdentifier(draws[k]))
    ensures graphId.Some? ==>
      graphId.value in [GenerateIdentifier(draws[0]), GenerateIdentifier(draws[1]), GenerateIdentifier(draws[2])]
    ensures graphId.Some? ==> graphId.value == ChosenCandidate(taken, draws)
  {
    var candidate, success, attempt := AllocateGraphId(taken, draws);
    if success {
      assert IsValidGraphId(candidate.value) by {
        GeneratedIdIsValid(draws[attempt - 1]);
      }
      graphId := candidate;
    } else {
      graphId := None;
    }
  }

  // ---------------------------------------------------------------------
  // The initial roster document of Graphs.post

  /** The value stored for one participant: `{'edges': [...]}`. */
  datatype NodeRecord = NodeRecord(edges: seq<string>)

  /** One item of the `nodes` dictionary, keyed by participant name. */
  datatype Entry = Entry(key: string, value: NodeRecord)

  /** A graph document: `{'created': ..., 'events': [...], 'nodes': {...}}`; the dict in insertion order. */
  datatype Graph = Graph(created: string, events: seq<string>, nodes: seq<Entry>)

  /** The keys of an insertion-ordered dictionary. */
  function Keys(d: seq<Entry>): (keys: seq<string>)
    ensures |keys| == |d|
    ensures forall i :: 0 <= i < |d| ==> keys[i] == d[i].key
  {
    if d == [] then [] else [d[0].key] + Keys(d[1..])
  }

  /** `d[k]`, or `None` when `k` is not a key. */
  function Lookup(d: seq<Entry>, k: string): Option<NodeRecord>
    decreases |d|
  {
    if d == [] then None
    else if d[0].key == k then Some(d[0].value)
    else Lookup(d[1..], k)
  }

  /** `d[k] = v` on a Python dict: replace the value in place, or append a new key at the end. */
  function DictSet(d: seq<Entry>, k: string, v: NodeRecord): (r: seq<Entry>)
    ensures Keys(r) == if k in Keys(d) then Keys(d) else Keys(d) + [k]
    ensures Lookup(r, k) == Some(v)
    ensures forall k' :: k' != k ==> Lookup(r, k') == Lookup(d, k')
    decreases |d|
  {
    if d == [] then [Entry(k, v)]
    else if d[0].key == k then [Entry(k, v)] + d[1..]
    else
      var r := [d[0]] + DictSet(d[1..], k, v);
      assert r[1..] == DictSet(d[1..], k, v);
      r
  }

  /** The roster invariant of the initial graph for the names `prefix`. */
  ghost predicate RosterOf(nodes: seq<Entry>, prefix: seq<string>) {
    && Distinct(Keys(nodes))
    && (forall k :: k in Keys(nodes) <==> k in prefix)
    && (forall k :: k in prefix ==> Lookup(nodes, k) == Some(NodeRecord([])))
    && (Distinct(prefix) ==> Keys(nodes) == prefix)
  }

  /** Writing `nodes[name] = {'edges': []}` extends the roster by one name. */
  lemma InsertNameStep(nodes: seq<Entry>, prefix: seq<string>, name: string)
    requires RosterOf(nodes, prefix)
    ensures RosterOf(DictSet(nodes, name, NodeRecord([])), prefix + [name])
  {
    if name !in Keys(nodes) {
      DistinctAppend(Keys(nodes), name);
    }
    if Distinct(prefix + [name]) {
      DistinctInit(prefix, name);
    }
  }

  /**
   * The initial graph of Graphs.post: every name mapped to an empty edge
   * list, no events yet. `created` is the creation timestamp string.
   */
  method BuildInitialGraph(names: seq<string>, created: string) returns (graph: Graph)
    ensures graph.created == created && graph.events == []
    ensures Distinct(Keys(graph.nodes))
    ensures forall k :: k in Keys(graph.nodes) <==> k in names
    ensures forall k :: k in names ==> Lookup(graph.nodes, k) == Some(NodeRecord([]))
    ensures Distinct(names) ==> Keys(graph.nodes) == names
  {
    var nodes: seq<Entry> := [];
    for i := 0 to |names|
      invariant RosterOf(nodes, names[..i])
    {
      assert names[..i + 1] == names[..i] + [names[i]];
      InsertNameStep(nodes, names[..i], names[i]);
      nodes := DictSet(nodes, names[i], NodeRecord([]));
    }
    assert names[..|names|] == names;
    graph := Graph(created, [], nodes);
  }

  // ---------------------------------------------------------------------
  // Graphs.post

  datatype PostError = AllocationExhausted

  /**
   * Graphs.post as written, without the transport and the document write:
   * split the `names` argument on commas, filter the names, run the retry
   * loop, apply its `graphId is None` guard and build the initial graph.
   * The guard never fires, so the post always succeeds; when all three
   * candidates are taken, the id it returns names an existing document,
   * which the final write then replaces.
   */
  method CreateGraph(namesArg: string, created: string, taken: string -> bool, draws: seq<LetterSample>)
    returns (r: Result<(string, Graph), PostError>)
    requires |draws| >= 3
    ensures r.Success?
    ensures var (graphId, graph) := r.value;
      && graphId == ChosenCandidate(taken, draws) && IsValidGraphId(graphId)
      && (taken(graphId) <==> forall k :: 0 <= k < 3 ==> taken(GenerateIdentifier(draws[k])))
      && graph.created == created && graph.events == []
      && Keys(graph.nodes) == FilteredNames(Split(namesArg, ','))
      && forall k :: k in Keys(graph.nodes) ==> Lookup(graph.nodes, k) == Some(NodeRecord([]))
  {
    var names := FilterNames(Split(namesArg, ','));
    var graphId, success, attempt := AllocateGraphId(taken, draws);
    if graphId.None? {
      return Failure(AllocationExhausted);
    }
    assert IsValidGraphId(graphId.value) by {
      GeneratedIdIsValid(draws[attempt - 1]);
    }
    var graph := BuildInitialGraph(names, created);
    r := Success((graphId.value, graph));
  }

  /**
   * Graphs.post as its error return intends: the same steps, but with the
   * allocation that reports failure when all three candidates are taken.
   */
  method CreateGraphIntended(namesArg: string, created: string, taken: string -> bool, draws: seq<LetterSample>)
    returns (r: Result<(string, Graph), PostError>)
    requires |draws| >= 3
    ensures r.Failure? <==> forall k :: 0 <= k < 3 ==> taken(GenerateIdentifier(draws[k]))
    ensures r.Success? ==> var (graphId, graph) := r.value;
      && graphId == ChosenCandidate(taken, draws)
      && IsValidGraphId(graphId) && !taken(graphId)
      && graph.created == created && graph.events == []
      && Keys(graph.nodes) == FilteredNames(Split(namesArg, ','))
      && forall k :: k in Keys(graph.nodes) ==> Lookup(graph.nodes, k) == Some(NodeRecord([]))
  {
    var names := FilterNames(Split(namesArg, ','));
    var graphId := AllocateFreshGraphId(taken, draws);
    if graphId.None? {
      return Failure(AllocationExhausted);
    }
    var graph := BuildInitialGraph(names, created);
    r := Success((graphId.value, graph));
  }

  /**
   * A store that holds every id: the post as written still succeeds, with
   * the third candidate, an id whose document already exists; the intended
   * post fails instead.
   */
  method OverwriteCounterexample(namesArg: string, created: string, draws: seq<LetterSample>)
    returns (written: Result<(string, Graph), PostError>, intended: Result<(string, Graph), PostError>)
    requires |draws| >= 3
    ensures written.Success? && written.value.0 == GenerateIdentifier(draws[2])
    ensures intended.Failure?
  {
    var everyId := (id: string) => true;
    written := CreateGraph(namesArg, created, everyId, draws);
    intended := CreateGraphIntended(namesArg, created, everyId, draws);
  }

  /** With distinct keys, looking up the key of an entry finds that entry's value. */
  lemma {:induction false} LookupAt(d: seq<Entry>, i: int)
    requires Distinct(Keys(d)) && 0 <= i < |d|
    ensures Lookup(d, d[i].key) == Some(d[i].value)
    decreases |d|
  {
    if i > 0 {
      assert Keys(d)[0] != Keys(d)[i];
      assert forall j :: 0 <= j < |d| - 1 ==> Keys(d[1..])[j] == Keys(d)[j + 1];
      LookupAt(d[1..], i - 1);
    }
  }
}
