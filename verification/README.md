# kanji_companion in Dafny

kanji_companion orders kanji so that each character comes after the simpler characters it is
built from (its parents), and among the characters ready to be learnt it puts the most used
one first. The core is modelled here:

- **`Graph::sort_by`.** A Kahn-style traversal of the character dependency graph with a
  re-ranked frontier. It is modelled as the imperative method `Graphs.Graph.SortBy`. That method
  is proved equal to the state machine `Traversal.Run`, and `TraversalProps` proves what the
  traversal guarantees.
- **The node metrics.** `descendent_count` and `ancestor_count` (`descendent_len` and
  `ancestor_len` in the command-line program) are in `Metrics`.
- **`parse_characters`.** Both the web front end's and the command-line program's versions are
  in `Characters`. It builds the graph, and the model proves it establishes what `sort_by`
  relies on.
- **`parse_term`, `parse_terms` and `group_terms_by_chars`.** These are in `Terms`, `Patterns`
  and `Grouping`. They are built on the string operations in `Text`.
- **The two comparators.** The web front end counts popular dictionary entries and the
  command-line program counts all entries. They are in `Ranking`.

Shared handles become an arena. Every node lives in one sequence, its `id` is its index, and
its parent and child lists are sequences of ids (`Arena`). `Node::val` is the datatype field
`val`. The graph is a class (`Graphs.Graph`) whose fields are the arena and the node sequence.
`sort_by` replaces the node sequence.

## Model

| member | source | states |
|---|---|---|
| Graphs.Graph.SortBy | src/graph.rs:35-62 | The node sequence becomes `SortOrder` of the old one: the visiting order the traversal specification defines. The arena is left unchanged, so no node's id, value, parents or children change. The same code is at src/lib.rs:66-93 and src/main.rs:37-64. |
| Graphs.PopNext | src/graph.rs:40-44 | Sorting, reversing and popping yields `Pick` of the frontier. The popped node was on the frontier, and the rest plus the popped node is the frontier as a multiset. |
| Graphs.Learn | src/graph.rs:47-57 | The inner child loop, with its per-id counters and its pushes, computes `Arrive` over the child list. |
| Graphs.Graph.constructor | src/graph.rs:29-33 | `Graph::new` stores the given node sequence. |
| Graphs.Graph.Nodes | src/graph.rs:64-66 | `nodes()` returns one view per entry of the node sequence, in order. Each view is the arena node with that id. |
| Graphs.Graph.ChildrenOf | src/graph.rs:91-93 | `children()` returns one view per child entry, in list order: view k is the arena node that child entry k names. |
| Graphs.Graph.ParentsOf | src/graph.rs:95-97 | `parents()` returns one view per parent entry, in list order: view k is the arena node that parent entry k names. |
| Graphs.Graph.SetChildren | src/graph.rs:99-101 | `set_children` replaces the child list of that one node. Every other node, every other field and the node sequence are unchanged. The new children name nodes of the graph, as `Rc` handles always do, so the graph stays valid. |
| Graphs.Graph.SetParents | src/graph.rs:103-105 | `set_parents` replaces the parent list of that one node and changes nothing else. The new parents name nodes of the graph, so the graph stays valid. |
| Graphs.Views | src/graph.rs:91-97 | A view list has the length of the id list, and entry k is the arena node whose id is entry k of the list. |
| Graphs.ViewsLinkBack | src/graph.rs:91-97 | With consistent links the accessors mirror each other. Every child view lists the node among its parents, and every parent view lists it among its children. |
| Arena.NewNode | src/graph.rs:78-85 | `Node::new` keeps the id and the value, with empty parent and child lists. |
| Metrics.DescendentCount | src/graph.rs:107-114 | Whenever no downward walk from the node reaches the ghost bound, so that the recursion ends, `descendent_count` equals the number of downward walks from the node. Cycles it cannot reach and parent links are unconstrained. This counts a node once per route. The same code is at src/lib.rs:121-128 and src/main.rs:92-99. |
| Metrics.AncestorCount | src/graph.rs:116-123 | Whenever no upward walk from the node reaches the ghost bound, `ancestor_count` equals the number of upward walks from the node. Child links and unreachable cycles are unconstrained. The same code is at src/lib.rs:130-137 and src/main.rs:101-108. |
| Metrics.WalksUnfold | src/graph.rs:107-123 | The recursion of both metrics: a node's walks are its link count plus the walks from each linked node. |
| Metrics.WalksAppend | src/graph.rs:110-112 | Walks from a concatenation are the sum of walks from each part, which is how the accumulating loop adds up its children. |
| Metrics.WalksSettle | src/graph.rs:107-123 | Once no walk has as many links as the bound, one more link adds nothing. |
| Metrics.WalksBeyond | src/graph.rs:107-123 | Any larger bound gives the same count, so a metric's result does not depend on the bound chosen. |
| Metrics.LevelMember | src/graph.rs:110-112 | A bound on the walks from a list of links bounds the walks from each of them, so every recursive call ends. |
| Metrics.RankedBounded | src/graph.rs:107-123 | On an acyclic arena (a rank) the arena size bounds the walks from every node, in both directions. |
| Metrics.UnreachableCyclesAllowed | src/graph.rs:107-114 | A node beside an unrelated cycle has descendant count 0. A node whose child is also its parent, with no further children, has count 1. |
| Metrics.DiamondCountsEachRoute | src/graph.rs:107-123 | In a diamond, the top node has descendant count 4 and the bottom node has ancestor count 4. The shared node is counted once per route. |
| Traversal.Step | src/graph.rs:39-60 | One round keeps every frontier id inside the arena and strictly lowers the measure (frontier size plus ids still pending). So the loop terminates on every well-formed arena. |
| Traversal.Run | src/graph.rs:39-61 | The loop ends with an empty frontier. The order only grows, and the order before the run is a prefix of the final one. |
| Traversal.SortOrder | src/graph.rs:35-62 | The visiting order names only nodes of the arena. |
| Traversal.StepEmitsLeast | src/graph.rs:40-51 | Each round appends exactly one node, which was on the frontier. Under a total preorder no frontier node is smaller than it. No counter decreases. |
| Traversal.PickIsLeast | src/graph.rs:40-44 | Sorting ascending, reversing and popping the last element gives a comparator-least element of the frontier. |
| Traversal.Pick | src/graph.rs:40-44 | The popped element and the rest together are the frontier as a multiset. |
| Traversal.StepParts | src/graph.rs:44-59 | A round pops a frontier node, runs the inner loop over its children from the rest of the frontier, and appends the popped node to the order. |
| Traversal.RoundAdvances | src/graph.rs:44-59 | A round as the method performs it leads to the same final state as the next round of `Step`, and lowers the measure. |
| Traversal.ArriveCounts | src/graph.rs:47-53 | The inner loop adds to each counter the number of times the child list names that id. |
| Traversal.ArriveKeepsFrontier | src/graph.rs:54-56 | The inner loop only appends: the old frontier is a prefix of the new one. |
| Traversal.ArrivePushes | src/graph.rs:50-56 | The inner loop appends exactly the ids whose counters newly reach their parent count, as a multiset. |
| Traversal.ArriveAppendsPushed | src/graph.rs:52-56 | Every id the inner loop appends has a counter equal to or above its number of parents. |
| Traversal.ArriveMeasure | src/graph.rs:52-56 | Each append trades one pending id for one frontier entry. |
| Traversal.ArriveOneMore | src/graph.rs:47-57 | One more child of the loop is one more `Visit`. |
| Traversal.VisitFacts | src/graph.rs:50-56 | One arrival bumps one counter by one. It appends the child exactly when the counter reaches the parent count, and moves the child from pending to pushed. |
| Traversal.Visit | src/graph.rs:50-56 | One arrival appends the child or leaves the frontier alone, sets the child's counter to one more than before, and leaves every other counter unchanged. |
| Traversal.Arrive | src/graph.rs:47-57 | The inner loop only appends to the frontier, at most once per child. Exactly which ids it appends is stated by `Traversal.ArrivePushes`. |
| TraversalProps.SortOrderContents | src/graph.rs:39-61 | On any well-formed arena, the output as a multiset is the starting nodes plus each node whose child-edge arrivals reached its nonzero parent count. |
| TraversalProps.UnderLinkedNodeOmitted | src/graph.rs:52-61 | A non-starting node whose parent count is never met is missing from the output, with no error. |
| TraversalProps.ParentlessEmittedAsStarted | src/graph.rs:50-57 | A parentless node is never pushed by a counter. It is emitted exactly as often as it starts on the frontier. |
| TraversalProps.AtMostOnce | src/graph.rs:50-57 | Starting from distinct parentless nodes, no id is on the frontier and in the order more than once in total. |
| TraversalProps.StepAccounted | src/graph.rs:39-60 | One round keeps the counters equal to the arrivals from emitted nodes. It also keeps emitted plus frontier equal to starting plus pushed. |
| TraversalProps.RunAccounted | src/graph.rs:39-60 | The whole loop keeps that invariant. |
| TraversalProps.StepReady | src/graph.rs:39-60 | With consistent links, one round keeps three facts: counters count emitted parent entries, emitted nodes follow their parents, and frontier nodes have all parents emitted. |
| TraversalProps.StepReadyCounts | src/graph.rs:47-53 | The counters keep counting the parent entries already emitted. |
| TraversalProps.StepReadyOrder | src/graph.rs:44-59 | Emitted nodes keep following all their parents. |
| TraversalProps.StepReadyFrontier | src/graph.rs:52-57 | A node on the frontier has all its parents emitted. |
| TraversalProps.RunReady | src/graph.rs:39-60 | The whole loop keeps those facts. |
| TraversalProps.SortOrderRespectsParents | src/graph.rs:39-61 | Dependency order, given consistent links and distinct parentless starting nodes. No node is emitted twice, and every emitted node comes strictly after each of its parents. |
| TraversalProps.EmittedByRank | src/graph.rs:39-61 | On an acyclic graph whose parentless nodes all start, every node is emitted by the end, by induction on rank. |
| TraversalProps.EmittedOnce | src/graph.rs:39-61 | On such a graph each node occurs exactly once in the output. |
| TraversalProps.SortOrderComplete | src/graph.rs:39-61 | Completeness: on such a graph the output holds every node exactly once and has the arena's length. |
| Sorting.StableSort | src/graph.rs:40-42 | The stable sort keeps the length and is a permutation of its input. |
| Sorting.StableSortStable | src/graph.rs:40-42 | Under a total preorder, the elements tying with any y keep their input order. |
| Sorting.InsertKeepsTies | src/graph.rs:40-42 | An insertion puts the new element ahead of every element it ties with. |
| Sorting.StableSortUnique | src/graph.rs:40-42 | Any ordered permutation that keeps every tie class in input order equals `StableSort`. So `Vec::sort_by` gives the same sequence. |
| Sorting.SortedTiesEqual | src/graph.rs:40-42 | Two ordered sequences with the same elements and the same tie classes in the same orders are equal. |
| Sorting.StableSortSorted | src/graph.rs:40-42 | Under a total preorder the result is ordered by the comparator. |
| Sorting.StableSortHeadIsLeast | src/graph.rs:40-42 | The head of the sorted frontier is not greater than any frontier element. |
| Sorting.Insert | src/graph.rs:40-42 | One insertion step adds the element to the multiset. |
| Sorting.InsertSorted | src/graph.rs:40-42 | Inserting into a sorted sequence keeps it sorted. |
| Sorting.Reverse | src/graph.rs:43 | `reverse` puts element k at position n-1-k and keeps the multiset. |
| Ranking.ByScoreOrders | src/lib.rs:194-198 | `b_score.cmp(&a_score)` is a total preorder, and node a is smaller than b exactly when a's score is higher. |
| Ranking.ByScore | src/lib.rs:197 | `b_score.cmp(&a_score)`: a is smaller than b exactly when a's score is higher, and they tie exactly when the scores are equal. The same comparison is at src/main.rs:138. |
| Ranking.HighestScoreFirst | src/lib.rs:194-198 | With such a comparator, each round emits a frontier node whose score no frontier node exceeds. |
| Ranking.FirstIsHighest | src/lib.rs:194-198 | The first node of the output is a starting node of highest score. |
| Ranking.PopularityCounts | src/lib.rs:195-196 | The web score of a node is the number of popular entries whose writings contain its character. It is 0 when there are none. |
| Ranking.Popularity | src/lib.rs:195-196 | A node's web score is at most its command-line score, and 0 when its character has no list (`unwrap_or(0)`). Its meaning is stated by `Ranking.PopularityCounts`. |
| Ranking.MostPopularFirst | src/lib.rs:194-198 | Web front end: each round emits a frontier character contained in at least as many popular entries as any other frontier character. |
| Ranking.FrequencyCounts | src/main.rs:123-136 | The command-line score of a node is the number of entries whose writings contain its character. It is 0 when there are none. |
| Ranking.Frequency | src/main.rs:123-136 | A node's command-line score is the length of its character's list, and 0 when there is none. Its meaning is stated by `Ranking.FrequencyCounts`. |
| Ranking.MostFrequentFirst | src/main.rs:122-139 | Command-line program: each round emits a frontier character contained in at least as many entries as any other. |
| Grouping.AddTerm | src/lib.rs:271-274 | One fold step adds keys for exactly the entry's characters. |
| Grouping.GroupedTerms | src/lib.rs:262-277 | A character is a key iff some writing contains it. Its list is the input entries containing it, once each, in input order. The same code is at src/main.rs:155-170. |
| Grouping.GroupTermsByChars | src/lib.rs:262-277 | Every key's list is non-empty and no longer than the input. Its exact contents are stated by `Grouping.GroupedTerms`. The same code is at src/main.rs:155-170. |
| Grouping.TermCount | src/main.rs:126-136 | The command-line score is 0 exactly when the character has no list or an empty one. |
| Grouping.GroupedList | src/lib.rs:262-277 | For one character, the list is the entries that contain it, and the key is absent when there are none. |
| Grouping.Mentioned | src/lib.rs:264-269 | Some entry contains the character iff filtering on it keeps something. |
| Grouping.GroupedOnce | src/main.rs:155-170 | An entry is listed under a character as often as it occurs in the input if its writings contain the character, otherwise never. |
| Grouping.PopularScore | src/lib.rs:195 | The popular score never exceeds the total score. |
| Grouping.ScoresCount | src/lib.rs:194-198 | On the index of a dictionary, both scores count the entries containing the character. The web score counts popular entries only. |
| Terms.Fields | src/lib.rs:292 | The fields are non-empty and free of `/`. |
| Terms.SortMiddle | src/lib.rs:294-302 | The flag is set iff some middle field is `(P)` ignoring ASCII case. Markers are dropped, and every other field is kept as often as it occurs. |
| Terms.MeaningsInOrder | src/lib.rs:294-302 | The meanings keep the order of the middle fields: the filter distributes over concatenation, a marker gives nothing and any other field gives itself. The same code is at src/main.rs:189-197. |
| Terms.Pieces | src/lib.rs:304-305 | A group yields one piece more than it has `;`. Untrimmed pieces join back to the group (src/main.rs:198-202), and trimmed pieces are the trimmed split pieces. |
| Terms.ParseTerm | src/lib.rs:291-320 | Fewer than two non-empty fields is an error. Otherwise: the id is the last field; meanings and popularity come from the middle fields; the writings are the `;`-pieces of the first group of whichever pattern matches, and the readings, present iff the writing-reading pattern matches, are the pieces of its second group; an error occurs exactly when neither pattern matches. The untrimmed version is at src/main.rs:185-214. |
| Terms.ParseFormat | src/lib.rs:291-320 | Round trip: parsing the dictionary line of a well-formed entry gives that entry back. This holds for both the trimming and the non-trimming version. |
| Terms.ParseTermOfFields | src/lib.rs:291-320 | The parse of a line, given its head, middle fields and id. |
| Terms.FieldsOfFormat | src/lib.rs:292 | The non-empty fields of a formatted entry are its head, middle fields and id. |
| Terms.FieldsOfJoin | src/lib.rs:292 | Non-empty, `/`-free fields joined by `/` are read back unchanged. |
| Terms.MiddleOfFormat | src/lib.rs:294-302 | The middle fields of a formatted entry give back its meanings and its flag. |
| Terms.MeaningsOfMiddle | src/lib.rs:295-302 | Filtering out the marker leaves exactly the meanings. |
| Terms.MarkedIffPopular | src/lib.rs:296-298 | A marker is among the middle fields iff the entry is popular. |
| Terms.PiecesOfJoin | src/lib.rs:304-305 | Splitting the `;`-join of plain pieces gives the pieces back, trimmed or not. |
| Terms.HeadFacts | src/lib.rs:303-309 | How the two patterns read the head of a formatted entry, with readings and without. |
| Terms.HeadWithReadings | src/lib.rs:303-306 | `W [R] ` matches the writing-reading pattern with groups W and R. |
| Terms.HeadWithoutReadings | src/lib.rs:307-309 | `W ` fails the writing-reading pattern and matches the writing pattern with group W. |
| Terms.Entries | src/lib.rs:281-286 | `parse_term` receives every line after the header, minus the blank ones where they are skipped. |
| Terms.PreparedLines | src/lib.rs:282 | The lines the fold keeps are the input filtered on non-emptiness, or all of it. |
| Terms.Trimmed | src/lib.rs:280 | Every line is trimmed, in place. |
| Terms.ParseTerms | src/lib.rs:279-289 | The web `parse_terms` parses the kept lines of the trimmed text in order and stops at the first failure. |
| Terms.ParseTermLines | src/main.rs:172-183 | The command-line `parse_terms` parses every line after the header, without trimming or skipping. |
| Terms.CollectTermsSpec | src/lib.rs:281-287 | From any line on, the `try_fold` equals parsing the remaining kept lines after the accumulator. |
| Terms.CollectTermsFromStart | src/lib.rs:281-287 | The whole fold equals parsing the kept lines after the header. |
| Terms.CollectTerms | src/lib.rs:281-288 | The `try_fold` only extends its accumulator, by at most one term per remaining line. A failure is the error of some remaining line. Its exact result is stated by `Terms.CollectTermsSpec`. |
| Patterns.MatchWriting | src/lib.rs:29 | On a match, the group is the longest first group with which `^([^ ]+).+$` matches. Otherwise no group makes it match. |
| Patterns.WritingGroupBound | src/lib.rs:29 | A first group never reaches past the first space. |
| Patterns.MatchWritingReading | src/lib.rs:30 | On a match, both groups are where `^([^ ]+) \[([^\[\]]+)\].+$` matches. Otherwise there is no match at all. |
| Patterns.WritingReadingGroups | src/lib.rs:30 | The groups are forced: the first ends at the first space, the second at the next bracket. |
| Patterns.WritingReadingMatchUnique | src/lib.rs:30 | The pattern matches in at most one way. |
| Patterns.RunWithout | src/lib.rs:29-30 | The run is the longest one free of the given characters. |
| Text.Split | src/lib.rs:280 | `split` returns at least one piece, and no piece holds the separator. |
| Text.SplitCount | src/lib.rs:304 | There is one piece more than separators. |
| Text.JoinSplit | src/lib.rs:280 | Joining the pieces gives the string back. |
| Text.SplitJoin | src/lib.rs:304 | Splitting undoes joining separator-free pieces. |
| Text.SplitEmpty | src/lib.rs:332-335 | `split("")` yields an empty piece, one piece per character, then an empty piece. |
| Text.CharsOfSplitEmpty | src/lib.rs:332-335 | Keeping first characters of those pieces gives the string's characters in order, repetitions included. |
| Text.FirstCharsAppend | src/lib.rs:334 | `filter_map` of first characters distributes over concatenation. |
| Text.FirstChars | src/lib.rs:334 | `filter_map` of first characters gives at most one character per piece. Its distribution over concatenation is stated by `Text.FirstCharsAppend`. |
| Text.Trim | src/lib.rs:280 | `trim` leaves the slice between the leading and the trailing whitespace runs. The result neither starts nor ends with whitespace. |
| Text.TrimTrimmed | src/lib.rs:280 | A string without whitespace at either end is its own trim. |
| Text.TrimIdempotent | src/lib.rs:280 | Trimming twice trims no further. |
| Text.AsciiLower | src/lib.rs:296 | ASCII lowering shifts `A`..`Z` by 32 and leaves every other character alone. |
| Text.PopularMarkerSpellings | src/lib.rs:296 | `eq_ignore_ascii_case("(P)")` holds for exactly `(P)` and `(p)`. |
| Text.EqIgnoreAsciiCase | src/lib.rs:296 | Equal strings match, and matching strings have the same length. The spellings it accepts are stated by `Text.PopularMarkerSpellings` and `Text.RadicalFlagSpelling`. |
| Text.RadicalFlagSpelling | src/lib.rs:339 | `eq_ignore_ascii_case("1")` holds for exactly `1`. |
| Text.ParseU8 | src/lib.rs:336 | `parse::<u8>` yields values below 256. It rejects empty strings, a lone `+` and a leading `-`. A success means that only decimal digits follow the optional `+`, and the value is theirs. |
| Text.ParseU8RejectsNonDigits | src/lib.rs:336 | Any character other than a digit after the optional `+` makes the parse fail, as in `1a`, ` 4`, `4 ` and `+-1`. |
| Text.ParseU8Decimal | src/lib.rs:336 | The decimal spelling of n, with or without `+`, parses to n exactly when n < 256. |
| Text.ParseU8LeadingZero | src/lib.rs:336 | Leading zeros do not change the result. |
| Text.DecimalValue | src/lib.rs:336 | The decimal spelling of n has value n. |
| Characters.CharacterLine | src/lib.rs:330-344 | The errors, in the order the fields are read: an empty first field, a missing field 1 or 2, a stroke count that is not a `u8`, then a missing field 3 to 6. Otherwise the line yields its first character, the characters of field 1 as parents, the stroke count, the trimmed `、`-split readings, the meaning, the radical flag and the note. |
| Characters.CharLine | src/main.rs:224-229 | An empty first field or a missing field 1 is an error. Otherwise the line yields its first character and the characters of field 1. |
| Characters.IdOf | src/lib.rs:359 | The id found for a character is that of a line defining it, or the line count. |
| Characters.IdOfFirst | src/lib.rs:359 | No earlier line defines the character. |
| Characters.DefinesSome | src/lib.rs:372 | A character is defined iff some line has it. |
| Characters.IdOfLine | src/lib.rs:346-359 | With one line per character, line j's character has id j. |
| Characters.IdsOf | src/lib.rs:372 | The ids of a character list have its length. |
| Characters.IdsOfAt | src/lib.rs:372 | Entry k is the id of character k. |
| Characters.Repeat | src/lib.rs:361-364 | n copies. |
| Characters.RepeatAll | src/lib.rs:361-364 | Every entry of n copies of x is x. |
| Characters.KidIdsBelow | src/lib.rs:361-364 | The children recorded from the first n lines are nodes below n. |
| Characters.Roots | src/lib.rs:375-377 | The roots of the first n lines are ids below n. |
| Characters.RootsExactly | src/lib.rs:375-377 | The roots are exactly the parentless lines, each once, in ascending order. |
| Characters.Built | src/lib.rs:371-382 | The built arena has one node per line, node i wired from line i. |
| Characters.BuiltWellFormed | src/lib.rs:346-382 | The built arena is well formed. Node i carries line i's payload, and parent k of node i is the node defining character k of field 1. |
| Characters.BuiltConsistent | src/lib.rs:361-382 | Inverse edges with multiplicity: node c lists p as a parent exactly as often as p lists c as a child. |
| Characters.KidIdsTally | src/lib.rs:361-364 | Node j occurs among c's children as often as line j names c. |
| Characters.RepeatTally | src/lib.rs:361-364 | n copies of x hold x n times and nothing else. |
| Characters.IdsOfTally | src/lib.rs:372 | With one line per character, id p occurs in a list's ids as often as p's character occurs in the list. |
| Characters.BuiltRoots | src/lib.rs:375-377 | The roots are distinct parentless nodes and include every parentless node: a valid start for the traversal. |
| Characters.KidCharsDefined | src/lib.rs:361-364 | Every recorded child is a defined character. |
| Characters.IdsOfAppend | src/lib.rs:372 | Ids of a concatenation are the concatenated ids. |
| Characters.IdsOfRepeat | src/lib.rs:373 | The ids of copies of line i's character are copies of i. |
| Characters.KidCharsIds | src/lib.rs:373 | Looking the recorded children's characters up gives the children's ids. |
| Characters.KidCharsPrefix | src/lib.rs:361-364 | Later lines do not change the children recorded from earlier ones. |
| Characters.KidCharsSnoc | src/lib.rs:361-364 | One more line files its character under each of its parents, once per mention. |
| Characters.Lookup | src/lib.rs:372-373 | The lookup succeeds iff every character is in the index, and then gives their indices in order. On failure it names a missing character of the list. |
| Characters.RecordAdds | src/lib.rs:361-364 | Filing w under the parents adds w to c's children once per mention of c, after the existing ones. |
| Characters.Record | src/lib.rs:361-364 | Filing keeps every existing key and adds at most one key per parent. Its exact effect is stated by `Characters.RecordAdds`. |
| Characters.RecordChildren | src/lib.rs:361-364 | The inner `for p in &p` loop computes `Record`. |
| Characters.KidMapChars | src/lib.rs:361-366 | The children map after the first pass lists each character's children in line order, with multiplicity. |
| Characters.IndexMapIndexes | src/lib.rs:359 | The node map knows every line's character, and each entry leads to a line defining it. |
| Characters.IndexIds | src/lib.rs:359 | With one line per character, the node map holds exactly the defined characters, each with its id. |
| Characters.LookupIds | src/lib.rs:372-373 | With all characters defined, lookup gives their ids. |
| Characters.Unlinked | src/lib.rs:346-358 | The first pass makes one node per line. |
| Characters.UnlinkedAt | src/lib.rs:346-358 | Node i has id i, line i's payload and no links. |
| Characters.ReadLines | src/lib.rs:326-367 | The first pass stops at the first line that fails to parse. Otherwise it yields the parsed lines with the unlinked nodes, the node map and the children map. |
| Characters.WiredByLookup | src/lib.rs:372-381 | When the parent lookup succeeds, the child lookup succeeds too, and the node is wired exactly as specified. |
| Characters.RootsStep | src/lib.rs:375-377 | Visiting line i adds i to the roots exactly when it has no parents. |
| Characters.WireNode | src/lib.rs:372-381 | Wiring node i succeeds iff its parents are defined, and then gives the specified node. On failure it reports an undefined parent named on line i. |
| Characters.LinkOne | src/lib.rs:371-382 | Wiring node i extends the wired prefix by one. |
| Characters.AllWired | src/lib.rs:371-382 | Once every node is wired, the arena is `Built`. |
| Characters.Link | src/lib.rs:369-382 | The second pass succeeds iff every named parent is defined. It then yields `Built` and the parentless nodes. Otherwise it reports an undefined parent named on some line. |
| Characters.DistinctLines | src/lib.rs:326-331 | One line per character gives parsed lines with distinct characters. |
| Characters.Assemble | src/lib.rs:322-387 | A line that fails to parse is the error. Otherwise the result is a graph iff every parent is defined, with arena `Built` and the parentless nodes as node sequence. That graph is well formed and consistent, and its roots are a valid start for `sort_by`. |
| Characters.ParseCharacters | src/lib.rs:322-387 | The web `parse_characters` over the text of the character file, with those guarantees. |
| Characters.ParseCharGraph | src/main.rs:216-265 | The command-line `parse_characters` over the text of the character file, with those guarantees. |
| Common.Compare | src/lib.rs:197 | `cmp` on counts is `Less` iff a < b and `Greater` iff b < a. |
| Common.Filter | src/lib.rs:195 | `filter` keeps at most the input's length. |
| Common.FilterKeeps | src/lib.rs:195 | Every kept element is an input element satisfying the predicate. |
| Common.FilterOcc | src/lib.rs:195 | A satisfying element is kept as often as it occurs, and other elements never. |
| Common.FilterAppend | src/lib.rs:263-276 | Filtering distributes over concatenation, which is how the fold grows each list. |
| Common.FilterFilter | src/lib.rs:195 | Filtering twice is filtering on the conjunction. |
| Common.FilterAllOrNone | src/lib.rs:195 | The filter is empty iff no element satisfies the predicate. |
| Common.ParseAllEach | src/lib.rs:281-287 | The `try_fold` succeeds iff every entry parses, and then yields their values in order. |
| Common.ParseAllFirstError | src/lib.rs:281-287 | The error reported is that of the first entry that fails. |
| Common.ParseAllSnoc | src/lib.rs:281-287 | Parsing one more entry at the end keeps an earlier error, and otherwise adds the new value or error. |
| Common.ParseAllUpTo | src/lib.rs:329-367 | Parsing the lines up to i+1 from the parse up to i. A failing line after a clean prefix is the failure of all lines. |

## Left out

- Browser glue is not modelled. This covers fetching the data files, creating DOM elements, click handlers, the overlay and `console` logging (src/lib.rs:140-251), and src/html.rs. It is foreign `web_sys` code with no algorithmic content.
- Reading files in the command-line program is not modelled: `std::fs::read_to_string`, `File::open` and `BufReader::lines`. The parsers take the file text, or for `parse_terms` the lines, as a parameter. An I/O error is not modelled.
- The error type of src/error.rs and its conversions are not modelled. Every panic of the parsers becomes an `Err` value of `TermError` or `CharError`, without the source's messages.
- `Rc<RefCell<…>>` sharing, runtime borrow checks and `ReadOnly` are replaced by the arena of ids. A view is the node value.
- The `regex` crate is not modelled. Its two patterns are matched by hand in `Patterns`.
- Characters.Assemble: requires that no two lines start with the same character (`UniqueCharacters`). The source lets a later line silently replace an earlier node in its `HashMap` (src/lib.rs:359). Characters.ParseCharacters and Characters.ParseCharGraph carry the same precondition.
- Characters.Link: visits the lines in line order. The source visits its `HashMap` in hash order, which is unspecified. So the roots come out in ascending id order. When several parents are undefined, the one reported is the first in line order. The set of roots and the fact that an error occurs are the same as in the source.
- Metrics.DescendentCount: requires a ghost bound on the length of the downward walks from the node. This holds exactly when the source's recursion ends. When a cycle can be reached, the source recurses until the stack overflows, and the model has no result. The model also does not model `usize` overflow of the count. Metrics.AncestorCount is the same for upward walks.
- Arena.WellFormed: a node's id is its index in the arena, so two nodes never share an id. `Node::new` (src/graph.rs:78-85) accepts any id, and nodes sharing an id would share one arrival counter in `sort_by`. Both parsers give node i the id i, so their graphs have distinct ids.
- Graphs.Graph.SortBy: does not model `usize` overflow of the counters. A counter never exceeds the number of edges.
- `sort_by` in src/lib.rs:66-93 and src/main.rs:37-64 is textually the same as src/graph.rs:35-62. Likewise the node accessors and metrics. They are modelled once, in `Graphs`, `Arena` and `Metrics`.
- The command-line comparator's `HashMap::get` with a missing key is modelled through `TermCount`, which gives 0.
- Sorting.StableSort: is an insertion sort. It equals `Vec::sort_by`'s result when the comparator is a total preorder, as both comparators are (`Ranking.ByScoreOrders`). This follows from `Sorting.StableSortStable` and `Sorting.StableSortUnique`. The model does not capture how the library sort behaves under an inconsistent comparator.
- Integer widths are not modelled beyond the stroke count, which is parsed as a `u8` with its range check.
