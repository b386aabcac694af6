# chat-match core, modelled in Dafny

chat-match keeps rosters of participants ("graphs" of "nodes") and records matching
rounds ("events") over them. This project models the logic inside the service's one
module, `chat_match/__init__.py`:

- **Roster-id validation** (`is_valid_graph_id`). All characters outside `A`-`Z` are dropped, the rest is stripped, and the id is accepted when exactly four characters remain.
- **Participant-name sanitising and de-duplication** (`filter_names`).
- **Roster-id generation** (`generate_identifier`) and the **bounded retry loop** of `Graphs.post`. The loop makes up to three draws and stops at the first id the store does not hold.
- **The initial roster document** built by `Graphs.post`, with the comma splitting of its `names` argument.
- **The edge-key set** built by `Events.algorithm`. An undirected edge between two nodes is keyed with the smaller node key first.
- **The event-id check** (`is_valid_event_id`).
- **The contract of a matching round**. The matching step itself is a comment in the source.

Files:

- `wrappers.dfy`: `Option` and `Result`.
- `strings.dfy`: the Python string built-ins the code relies on. These are `re.sub` with a negated character class, `str.strip()`, `str.split`/`str.join`, and `<` on strings.
- `graphs.dfy`: the `Graphs` resource.
- `events.dfy`: the `Events` resource.

Two things come in as inputs instead of being executed:

- **The store.** It is a predicate `taken` ("does a graph document with this id exist?").
- **Randomness.** It is the letter samples `random.sample` would draw. Each sample is four distinct indices below 26.

The timestamp `str(datetime.now(timezone.utc))` is a string parameter. `UUID(s, version=4)` and `str(uuid)` are function parameters.

Some behaviour of the code worth knowing in advance:

- **Empty names.** `Graphs.post` builds a graph with no nodes when the names filter to nothing.
- **Exhausted allocation.** `Graphs.post` never returns its "unable to generate graph" error. When all three candidates are taken, it writes the new graph under the third one, over the existing document (see Findings). `Graphs.CreateGraph` models this as written. `Graphs.CreateGraphIntended` models the post with the failure its error return intends.
- **Node keys.** The nodes of a graph are a dictionary keyed by participant name. Edge keys are therefore built from names, compared with Python's string order.
- **Matching.** The code has no matching algorithm, only a comment where it would go, so none is modelled.

## Model

| member | source | states |
|---|---|---|
| `Strings.KeepOnly` | chat_match/__init__.py:100 | the result is no longer than the input and holds only characters of the class |
| `Strings.KeepOnlyAllAllowed` | chat_match/__init__.py:100 | a string made only of characters of the class is returned unchanged |
| `Strings.KeepOnlyAppend` | chat_match/__init__.py:100 | filtering a concatenation is the concatenation of the filtered parts |
| `Strings.KeepOnlyCount` | chat_match/__init__.py:100 | the filtered length is the number of input positions whose character is in the class |
| `Strings.KeepOnlyMembers` | chat_match/__init__.py:108 | a character is in the result iff it occurs in the input and is in the class |
| `Strings.TrimStart` | chat_match/__init__.py:108 | the result is no longer than the input and does not start with whitespace |
| `Strings.TrimStartSuffix` | chat_match/__init__.py:108 | the result of trimming the start is a suffix of the input |
| `Strings.TrimStartDropsSpace` | chat_match/__init__.py:108 | every character trimming the start drops is whitespace |
| `Strings.TrimStartAllSpace` | chat_match/__init__.py:108 | trimming the start of an all-whitespace string leaves nothing |
| `Strings.TrimEnd` | chat_match/__init__.py:108 | the result is a prefix of the input and does not end with whitespace |
| `Strings.TrimEndDropsSpace` | chat_match/__init__.py:108 | every character trimming the end drops is whitespace |
| `Strings.Strip` | chat_match/__init__.py:108 | the result is no longer than the input, neither starts nor ends with whitespace, and is the input itself when the input has no outer whitespace |
| `Strings.StripKeepsClass` | chat_match/__init__.py:108 | when every input character is in a class, so is every character of the stripped string |
| `Strings.StripAllSpace` | chat_match/__init__.py:108 | an all-whitespace string strips to the empty string |
| `Strings.StripIdempotent` | chat_match/__init__.py:108 | stripping twice equals stripping once |
| `Strings.StripNoSpace` | chat_match/__init__.py:100 | a string with no whitespace character is unchanged by strip |
| `Strings.Split` | chat_match/__init__.py:53 | splitting on a separator yields at least one piece and no piece contains the separator |
| `Strings.JoinSplit` | chat_match/__init__.py:53 | joining the pieces of a split with the separator gives back the string |
| `Strings.SplitJoin` | chat_match/__init__.py:53 | splitting a join of at least one separator-free piece gives back the pieces |
| `Strings.LessTrichotomy` | chat_match/__init__.py:188 | for Python's string order exactly one of a < b, a == b, b < a holds |
| `Graphs.IsValidGraphId` | chat_match/__init__.py:99-103 | an id is valid iff its subsequence of `A`-`Z` letters has length exactly 4 (the strip never changes it) |
| `Graphs.ValidGraphIdCountsLetters` | chat_match/__init__.py:99-103 | an id is valid iff exactly four of its positions hold an uppercase letter |
| `Graphs.ValidGraphIdIgnoresNonLetters` | chat_match/__init__.py:100 | inserting characters that are not uppercase letters anywhere does not change validity |
| `Graphs.ValidGraphIdExampleDash` | chat_match/__init__.py:99-103 | "AB" + "-" + "CD" is valid |
| `Graphs.InvalidGraphIdExampleLowercase` | chat_match/__init__.py:99-103 | "abcd" is invalid |
| `Graphs.InvalidGraphIdExampleTooLong` | chat_match/__init__.py:99-103 | "ABCDE" is invalid |
| `Graphs.SanitizeName` | chat_match/__init__.py:108 | a sanitised name is no longer than the input, holds only ASCII letters, digits and spaces, and is empty or has no leading or trailing space |
| `Graphs.SanitizeClean` | chat_match/__init__.py:108 | a clean name sanitises to itself |
| `Graphs.SanitizeIdempotent` | chat_match/__init__.py:108 | sanitising twice equals sanitising once |
| `Graphs.SanitizeNameExamplePunctuation` | chat_match/__init__.py:108 | "Al!ice" sanitises to "Alice" (punctuation dropped, case kept) |
| `Graphs.SanitizeNameExampleClean` | chat_match/__init__.py:108 | "alice" and "Bob 2" sanitise to themselves |
| `Graphs.CleanNameHasNoComma` | chat_match/__init__.py:108 | a sanitised name contains no comma |
| `Graphs.FilteredNames` | chat_match/__init__.py:105-111 | every kept name is non-empty, made of ASCII letters, digits and spaces with no outer space, and no name is kept twice |
| `Graphs.FilterNames` | chat_match/__init__.py:105-111 | the loop's list equals `FilteredNames` of the input, is duplicate-free and holds only clean names |
| `Graphs.FilteredNamesMembers` | chat_match/__init__.py:105-111 | a string is in the output iff it is non-empty and is the sanitised form of some input |
| `Graphs.FilteredNamesOrder` | chat_match/__init__.py:105-111 | output names appear in the order of their first occurrence among the sanitised inputs |
| `Graphs.FilteredNamesFixed` | chat_match/__init__.py:105-111 | a duplicate-free list of clean names is returned unchanged |
| `Graphs.FilteredNamesIdempotent` | chat_match/__init__.py:105-111 | filtering the output again returns it unchanged |
| `Graphs.GenerateIdentifier` | chat_match/__init__.py:113-114 | a generated id is four uppercase letters |
| `Graphs.GeneratedIdDistinct` | chat_match/__init__.py:113-114 | the four letters of a generated id are pairwise distinct |
| `Graphs.GeneratedIdIsValid` | chat_match/__init__.py:113-114 | every generated id passes `is_valid_graph_id` |
| `Graphs.GenerateIdentifierInverse` | chat_match/__init__.py:113-114 | the generated id determines the letter sample it came from |
| `Graphs.GenerateIdentifierOnto` | chat_match/__init__.py:113-114 | every id of four distinct uppercase letters is generated by some sample |
| `Graphs.AllocateGraphId` | chat_match/__init__.py:56-65 | 1 to 3 draws are made; every candidate before the last was taken; the loop stops at the first free one; after three collisions it still holds the last (taken) candidate, so `graphId` is never `None`; the id is `ChosenCandidate`, the first free candidate or else the third |
| `Graphs.CollisionCounterexample` | chat_match/__init__.py:56-65 | with a store that holds every id, the loop ends unsuccessful yet with an id |
| `Graphs.AllocateFreshGraphId` | chat_match/__init__.py:56-65 | the result is a valid id the store does not hold, namely the first free one of the three candidates, or `None` exactly when all three candidates were taken |
| `Graphs.DictSet` | chat_match/__init__.py:70 | a dictionary assignment keeps existing key order, appends a new key at the end, maps the key to the new value and leaves every other key's value unchanged |
| `Graphs.InsertNameStep` | chat_match/__init__.py:69-70 | adding one name to a roster of distinct empty-edge entries keeps it distinct with the new name as a key, in order when the names are distinct |
| `Graphs.BuildInitialGraph` | chat_match/__init__.py:67-75 | the new graph has the given timestamp, no events, exactly the given names as keys (in order when distinct), each with an empty edge list |
| `Graphs.LookupAt` | chat_match/__init__.py:70 | in a dictionary with distinct keys, looking up an entry's key finds that entry's value |
| `Graphs.CreateGraph` | chat_match/__init__.py:48-77 | the post as written always succeeds; the id is the first free candidate, or else the third; it is valid, and it is taken exactly when all three candidates are taken; the graph is keyed by the filtered comma-separated names, all with empty edge lists |
| `Graphs.CreateGraphIntended` | chat_match/__init__.py:48-77 | the post as its error return intends fails exactly when all three candidates are taken; otherwise it returns the first free candidate, which is valid and not taken, and the same graph |
| `Graphs.OverwriteCounterexample` | chat_match/__init__.py:56-76 | with a store that holds every id, the post as written succeeds with the third candidate while the intended post fails |
| `Events.EdgeKeySymmetric` | chat_match/__init__.py:188 | the key of an edge is the same in both orientations |
| `Events.EdgeKeyDecode` | chat_match/__init__.py:188 | for comma-free keys, splitting an edge key at the comma gives its two ends, the smaller first |
| `Events.EdgeKeyInjective` | chat_match/__init__.py:188 | for comma-free keys, two edges have the same key iff they join the same two nodes |
| `Events.NodeEdgeKeysMembers` | chat_match/__init__.py:187-188 | a key belongs to one node's edge keys iff one of its listed edges has that key |
| `Events.EdgeSetMembers` | chat_match/__init__.py:185-188 | a key is in the edge set iff some node lists an edge with that key |
| `Events.EdgeSetOrientationFree` | chat_match/__init__.py:185-188 | for comma-free keys, the pair a, b is in the edge set iff some node records an edge joining a and b, on either end's list |
| `Events.InitialGraphHasNoEdges` | chat_match/__init__.py:70 | a graph whose edge lists are all empty has an empty edge set |
| `Events.InitialRosterIsCommaFree` | chat_match/__init__.py:67-70 | the roster a post creates keeps only comma-free names and has an empty edge set |
| `Events.ParseGraph` | chat_match/__init__.py:184-188 | the loop collects the node names in dictionary order and exactly the edge set of the nodes |
| `Events.RecordRound` | chat_match/__init__.py:190-195 | recording a round keeps the earlier history and adds each pairing's key |
| `Events.RecordRoundFrom` | chat_match/__init__.py:190-195 | a recorded key was in the history before or is the key of a pairing of the round |
| `Events.RoundsNeverRepeat` | chat_match/__init__.py:190-195 | no pair of one valid round is paired again, in either orientation, in a valid later round |
| `Events.RecordRoundSize` | chat_match/__init__.py:190-195 | over comma-free names, a valid round adds exactly one new key per pairing |
| `Events.CanonicalEventIdAccepted` | chat_match/__init__.py:207-212 | a canonical rendering that parses back to its UUID is accepted |
| `Events.NonCanonicalEventIdRejected` | chat_match/__init__.py:207-212 | a string that parses but differs from its canonical rendering is rejected |
| `Events.AcceptedEventIdsUnique` | chat_match/__init__.py:207-212 | two accepted ids that parse to the same UUID are the same string |

## Left out

- **Transport.** The Flask and flask_restful resources, request parsing, status codes and routing are not modelled (chat_match/__init__.py:16-22, 240-245). They are plumbing with no logic of their own.
- **Store queries.** The Firestore reads, writes, deletes, `where`/`order_by`/`limit` queries and the cascade delete are not modelled (chat_match/__init__.py:28-46, 79-97, 120-171). The existence check of the retry loop is the `taken` predicate.
- **Randomness.** `random.sample` and `uuid.uuid4` are inputs: the letter samples, and no event id is generated at all.
- **UUID parsing.** `UUID(s, version=4)` and `str(uuid)` are uninterpreted function parameters, so the UUID text format and version-bit handling are not modelled.
- **Atomic allocation.** The store is one fixed predicate `taken`, a snapshot. The existence check at chat_match/__init__.py:62 and the write at chat_match/__init__.py:76 are not atomic in the code, so a concurrent post can take the same id in between and the write overwrites it. The model does not capture that gap, and `!taken(graphId)` speaks only of the snapshot.
- **Timestamps.** The `created` timestamps are string parameters.
- **`is_valid_graph_id` copies.** The three copies (chat_match/__init__.py:99-103, 201-205, 233-237) are character-for-character the same. The model defines the check once as `Graphs.IsValidGraphId`, so the copies agree by construction and no separate lemma states it.
- **`Nodes` resource.** Its methods are empty stubs (chat_match/__init__.py:215-237).
- **Broken code in `Events.algorithm`.** `Events.post` calls `algorithm` with one argument where two are required (chat_match/__init__.py:165, 173). Iterating the `nodes` dictionary yields its keys, which are strings, and neither `node.key` nor `node['name']` works on a string (chat_match/__init__.py:185-188). The stored values `{'edges': []}` have no `'name'` either (chat_match/__init__.py:70). `ParseGraph` reads each dictionary item as one entry whose name is its key.
- **The matching step.** It is only a TODO comment (chat_match/__init__.py:190-197). The model states the contract a round must meet (`Events.ValidRound`: no self-pairing, no repeated edge, no node twice) and its effect on the edge history. It does not invent an algorithm. Appending a round's edges to the per-node lists is not modelled.
- **Four-name `filter_names` example.** `Graphs.FilteredNamesMembers`, `Graphs.FilteredNamesOrder` and `Graphs.FilteredNames` cover the general property. A worked four-name example is not stated.

## Findings

| source | as written | input that shows it | evidently intended | confidence | as-written member | corrected member |
|---|---|---|---|---|---|---|
| chat_match/__init__.py:56-65 | after three collisions `graphId` still holds the last candidate, so the guard `graphId is None` never fires | a store in which every candidate id already exists | return the "unable to generate graph" error when no free id was found | high; not executed | `Graphs.CollisionCounterexample` | `Graphs.AllocateFreshGraphId` |
| chat_match/__init__.py:64-76 | the post goes on past the dead guard and writes the new graph under the third candidate, replacing the document already stored there, then reports success | a store in which every candidate id already exists | fail with the "unable to generate graph" error and leave the existing graph alone | high; not executed | `Graphs.OverwriteCounterexample` | `Graphs.CreateGraphIntended` |
