# Acquaintance-graph deduction game: generator and data structures

The model covers the core of a Unity deduction game. The puzzle is a graph of
people. Each vertex carries a name, a country and three miscellaneous facts. Edges
stand for acquaintance. The player reveals fields, confirms edges and asks for
clues. The model covers:

- `Graph.cs`: the vertices and the graph, with its adjacency matrix and its
  connectivity check.
- `Helpers.cs`: the generator that reads the data file, rolls one profile per
  vertex and rolls the edges so that the graph is connected.
- The hand-written containers under `Assets/Scripts/DataStructures/`: the
  chained hash table, the linked stack, the score tree behind the leaderboard,
  and the doubly linked list.

Modules, one per source file:

| module | file | source |
|---|---|---|
| `Options` | `options.dfy` | `Option`, standing for C#'s `null` results |
| `HashTables` | `hashtable.dfy` | `HashTable.cs` |
| `Stacks` | `stack.dfy` | `StackLL.cs` |
| `Paths` | `paths.dfy` | walks, reachability and degrees over a set of matrix cells; shared by the graph and the generator |
| `Graphs` | `graph.dfy` | `Graph.cs` |
| `UnityRandom` | `random.dfy` | Unity's `Random.Range`, as an injected number source |
| `Sections` | `sections.dfy` | the data-file reading of `Helpers.cs` (`readSection` and the reading loop of `buildGraph`) |
| `Helpers` | `helpers.dfy` | `generateProfile`, `generateEdge`, `buildGraph` |
| `ScoreIndex` | `bst.dfy` | `BST.cs` |
| `LinkedLists` | `linkedlist.dfy` | `LinkedList.cs` |

Objects whose fields the source updates in place are Dafny classes. Each class
has a ghost abstraction and a `Valid()` invariant:

- a hash table's key set;
- a stack's contents;
- a graph's set of set matrix cells, `Edges`;
- a tree's abstract `Tree` value;
- a list's node sequence.

Each method's `ensures` ties the new state to the old one through that
abstraction.

The central theorem is `Helpers.GenerateEdge`. After `generateEdge(g, null, 0)`, every
vertex below `size` is reachable from vertex 0, whatever the random source
answers. `Helpers.BuildGraph` carries this through the whole of `buildGraph`.
`Graphs.Graph.GraphConnected` proves that the game's own breadth-first check
answers `true` exactly when this holds.

Several accessors are modelled as plain functions with no contract of their
own, since their results are used in the contracts above:

- `Graphs.Graph.GetSize` and `Graphs.Graph.GetCount` (`Graph.cs:122`, `Graph.cs:125`);
- `Graphs.Graph.CheckField` (`Graph.cs:206`);
- `Graphs.Graph.GetClue` (`Graph.cs:228`).

Behaviour of the code worth noting:

- `setStatus` (`Graph.cs:163-175`) marks a vertex complete once all its edges
  are confirmed. It does not also ask that the name be revealed.
- The forced edge of `generateEdge` draws from `Random.Range(0, index - 1)`
  (`Helpers.cs:95`), so it never targets `index - 1`. When `index` is 1 it
  targets vertex 0.
- `generateProfile` adds one vertex before it tests the count
  (`Helpers.cs:61-66`), so a graph of size 0 still gets one vertex. This is
  `Helpers.ProfilesAdded`.
- The degree cap of `generateEdge` tests `== 4` after each roll
  (`Helpers.cs:114-115`), so a vertex entering its roll loop with fewer than 4
  edges ends with at most 4. A vertex entering with more than 4 edges is not
  capped, and neither is one entering with exactly 4 whose first roll adds an
  edge: the check then reads 5. One entering with exactly 4 whose first roll
  adds nothing stops there.
- `insertEdge(a, a)` sets one cell and adds 2 to the vertex's counter. The
  counter therefore equals `Paths.Degree`: one per set cell in the row, plus
  one more for a self-loop.
- `buildGraph` takes the `Graph` to fill (`Helpers.cs:132`). It does not take a size.
- `LinkedList.length` is never decremented. Neither `deleteNode` nor
  `deleteList` lowers it (`LinkedList.cs:66-70`, `LinkedList.cs:101-133`).

## Model

| member | source | states |
|---|---|---|
| `HashTables.CsRem` | Assets/Scripts/DataStructures/HashTable.cs:47 | C#'s truncating `%`: the remainder lies strictly between `-b` and `b`; it agrees with Euclidean `%` on non-negative dividends, is non-positive on negative ones, and is zero exactly on multiples |
| `HashTables.DivisibleNeg` | Assets/Scripts/DataStructures/HashTable.cs:47 | a key and its negation are multiples of the table size together, which decides when a negative key hashes to bucket 0 |
| `HashTables.HTNode.constructor` | Assets/Scripts/DataStructures/HashTable.cs:10-15 | a node pushed on a chain holds its key followed by the chain's keys, one node deeper |
| `HashTables.BucketHashes` | Assets/Scripts/DataStructures/HashTable.cs:36-44 | every key in a well-formed bucket hashes to that bucket |
| `HashTables.BucketDistinct` | Assets/Scripts/DataStructures/HashTable.cs:36-44 | a bucket never holds a key twice: it has as many keys as nodes |
| `HashTables.BucketAt` | Assets/Scripts/DataStructures/HashTable.cs:50-69 | each bucket of a well-formed table is a well-formed chain |
| `HashTables.BucketsAfterUpdate` | Assets/Scripts/DataStructures/HashTable.cs:40-42 | replacing one bucket by another well-formed chain keeps the table well formed |
| `HashTables.KeysAfterPush` | Assets/Scripts/DataStructures/HashTable.cs:40-42 | pushing a key on a bucket adds exactly that key to the table's key set |
| `HashTables.KeysAreHashed` | Assets/Scripts/DataStructures/HashTable.cs:50-69 | a key is in the table exactly when it is in the chain of the bucket it hashes to |
| `HashTables.EmptyBuckets` | Assets/Scripts/DataStructures/HashTable.cs:24-33 | a table of null buckets is well formed and holds no key |
| `HashTables.HashTable.ContentsAreStored` | Assets/Scripts/DataStructures/HashTable.cs:50-69 | the abstract key set is exactly the keys found where their hash points |
| `HashTables.HashTable.constructor` | Assets/Scripts/DataStructures/HashTable.cs:24-33 | a new table has the requested bucket count and no keys |
| `HashTables.HashTable.HashFunction` | Assets/Scripts/DataStructures/HashTable.cs:47 | the bucket is the truncated remainder, and it is a valid (non-negative) index exactly when the key is non-negative or a multiple of the size |
| `HashTables.HashTable.InsertItem` | Assets/Scripts/DataStructures/HashTable.cs:36-44 | the key set grows by exactly the key; a key already present leaves the buckets unchanged |
| `HashTables.HashTable.SearchItem` | Assets/Scripts/DataStructures/HashTable.cs:50-69 | the answer is true exactly when the key is in the table |
| `Stacks.StackNode.constructor` | Assets/Scripts/DataStructures/StackLL.cs:12 | a node on top of a chain holds its key followed by the chain's keys |
| `Stacks.StackLL.constructor` | Assets/Scripts/DataStructures/StackLL.cs:27 | a new stack is empty |
| `Stacks.StackLL.DeleteStack` | Assets/Scripts/DataStructures/StackLL.cs:32 | the stack is empty afterwards |
| `Stacks.StackLL.Push` | Assets/Scripts/DataStructures/StackLL.cs:35-41 | the key goes on top and the rest of the stack is kept |
| `Stacks.StackLL.Pop` | Assets/Scripts/DataStructures/StackLL.cs:44-57 | an empty stack answers null and stays empty; otherwise the top key is returned and removed |
| `Stacks.StackLL.IsEmpty` | Assets/Scripts/DataStructures/StackLL.cs:60-68 | true exactly when the stack holds nothing |
| `Stacks.PushThenPop` | Assets/Scripts/DataStructures/StackLL.cs:35-57 | a pop right after a push returns the pushed key and restores the stack |
| `Stacks.PushAllThenPopAll` | Assets/Scripts/DataStructures/StackLL.cs:35-57 | pushing keys and popping as many gives them back in reverse order and restores the stack |
| `Paths.RowCount` | Assets/Scripts/DataStructures/Graph.cs:85-95 | a row of `n` cells counts at most `n` set cells |
| `Paths.RowCountEmpty` | Assets/Scripts/DataStructures/Graph.cs:63-73 | a row with no set cell counts zero |
| `Paths.RowCountAfterInsert` | Assets/Scripts/DataStructures/Graph.cs:85-95 | setting a new pair of cells adds one to each of the two rows it touches, within range |
| `Paths.DegreeAfterInsert` | Assets/Scripts/DataStructures/Graph.cs:85-95 | a new edge raises both endpoints' degree by one (a self-loop by two) and no other vertex's degree |
| `Paths.DegreesAfterInsert` | Assets/Scripts/DataStructures/Graph.cs:85-95 | the same, for every vertex at once |
| `Paths.DegreeStep` | Assets/Scripts/Helpers.cs:109 | an edge from `a` to another vertex raises a's degree by at most one, whether or not it was there |
| `Paths.InsertKeepsEdgesWithin` | Assets/Scripts/DataStructures/Graph.cs:85-95 | inserting an edge between existing vertices keeps every edge within range and paired with its reverse |
| `Paths.ReachableRefl` | Assets/Scripts/DataStructures/Graph.cs:307-326 | every vertex reaches itself |
| `Paths.ReachableStep` | Assets/Scripts/DataStructures/Graph.cs:329-351 | a walk extended by one edge is a walk |
| `Paths.ReachableMono` | Assets/Scripts/Helpers.cs:101-117 | adding edges never breaks reachability |
| `Paths.ClosedSetHoldsReachable` | Assets/Scripts/DataStructures/Graph.cs:329-351 | a set containing `u` and closed under edges contains everything reachable from `u` |
| `Paths.PathStaysInClosedSet` | Assets/Scripts/DataStructures/Graph.cs:329-351 | every vertex of a walk that starts in an edge-closed set stays in the set |
| `Graphs.Vertex.constructor` | Assets/Scripts/DataStructures/Graph.cs:33-41 | a new vertex has its name, country and facts, all fields hidden, an empty clue cache marked stale, the clue header, no edges and nothing confirmed |
| `Graphs.Vertex.RecordFound` | Assets/Scripts/DataStructures/Graph.cs:209-225 | confirming an edge adds the neighbour to the found table, bumps the found counter and marks the clue cache stale |
| `Graphs.Vertex.ClearClues` | Assets/Scripts/DataStructures/Graph.cs:241-246 | a rebuild starts from an empty cache, marks it complete and opens a new block in the clue log |
| `Graphs.Vertex.ShowNextClue` | Assets/Scripts/DataStructures/Graph.cs:264-265 | the top clue, if any, moves from the cache to the end of the clue log; an empty cache changes nothing |
| `Graphs.CluePoolEmpty` | Assets/Scripts/DataStructures/Graph.cs:248-260 | the rebuilt cache is empty exactly when every neighbour in the scan is already confirmed |
| `Graphs.CluePoolTop` | Assets/Scripts/DataStructures/Graph.cs:248-260 | the first four clues dispensed are the country and the three facts (last fact first) of the highest-indexed unconfirmed neighbour |
| `Graphs.VerticesStayValid` | Assets/Scripts/DataStructures/Graph.cs:209-225 | a change to one vertex's objects leaves every untouched vertex well formed |
| `Graphs.PushFacts` | Assets/Scripts/DataStructures/Graph.cs:253-257 | the neighbour's three facts, then its country, go on top of the clue cache |
| `Graphs.Graph.constructor` | Assets/Scripts/DataStructures/Graph.cs:63-73 | a new graph has the given size, no vertices and no edges |
| `Graphs.Graph.AddVertex` | Assets/Scripts/DataStructures/Graph.cs:76-80 | exactly one vertex is appended with the given profile and nothing revealed; earlier vertices and the edges are unchanged |
| `Graphs.Graph.Adopt` | Assets/Scripts/DataStructures/Graph.cs:76-80 | the graph takes ownership of a fresh vertex's objects, which it shares with no existing vertex |
| `Graphs.Graph.Push` | Assets/Scripts/DataStructures/Graph.cs:79 | the vertex list grows by the given vertex |
| `Graphs.Graph.FindEdge` | Assets/Scripts/DataStructures/Graph.cs:98-107 | true exactly when the pair is an edge; indices outside the matrix read as no edge |
| `Graphs.Graph.InsertEdge` | Assets/Scripts/DataStructures/Graph.cs:85-95 | the edge set gains both directions of the pair; every counter still equals its vertex's degree |
| `Graphs.Graph.BumpCounts` | Assets/Scripts/DataStructures/Graph.cs:89-90 | after a new edge's cells are set, the counters of both endpoints rise so that every counter equals the degree again |
| `Graphs.Graph.CountsAfterInsert` | Assets/Scripts/DataStructures/Graph.cs:89-90 | counters bumped at both ends of a new edge match the degrees |
| `Graphs.Graph.SetCells` | Assets/Scripts/DataStructures/Graph.cs:92-93 | the matrix gains both cells of the pair and nothing else |
| `Graphs.Graph.GetVertex` | Assets/Scripts/DataStructures/Graph.cs:110-119 | the vertex at a listed index, and null exactly past the end of the list |
| `Graphs.Graph.GetVertexEdgeCount` | Assets/Scripts/DataStructures/Graph.cs:128 | the stored counter is the vertex's degree in the matrix |
| `Graphs.Graph.EdgeUnique` | Assets/Scripts/DataStructures/Graph.cs:159 | true exactly when the player has not confirmed that neighbour |
| `Graphs.Graph.SetStatus` | Assets/Scripts/DataStructures/Graph.cs:163-175 | answers whether every edge of the vertex is confirmed, sets the flag then, and never clears it |
| `Graphs.Graph.OpenField` | Assets/Scripts/DataStructures/Graph.cs:184-203 | afterwards the chosen field, or every field for -1, is open, and no other flag changes |
| `Graphs.Graph.SetEdgesFound` | Assets/Scripts/DataStructures/Graph.cs:209-225 | each endpoint records the other as confirmed, its found counter rises by one (by two for a self-loop), and both clue caches go stale |
| `Graphs.Graph.RecordAt` | Assets/Scripts/DataStructures/Graph.cs:209-225 | one endpoint's share of confirming an edge, as above |
| `Graphs.Graph.NewClue` | Assets/Scripts/DataStructures/Graph.cs:234-271 | mode false rebuilds a stale cache from the unconfirmed neighbours, opening a new log block, then moves one clue to the log; mode true changes nothing |
| `Graphs.Graph.Rebuild` | Assets/Scripts/DataStructures/Graph.cs:241-261 | the cache becomes the clue pool of the current confirmations and is marked complete |
| `Graphs.Graph.ShowNext` | Assets/Scripts/DataStructures/Graph.cs:263-265 | one clue, if any, moves from the cache to the log |
| `Graphs.Graph.FillCache` | Assets/Scripts/DataStructures/Graph.cs:248-260 | the scan over indices below size - 1 pushes exactly the clue pool |
| `Graphs.Graph.GraphConnected` | Assets/Scripts/DataStructures/Graph.cs:307-326 | true exactly when every vertex below size is reachable from vertex 0 |
| `Graphs.Graph.BFT` | Assets/Scripts/DataStructures/Graph.cs:329-351 | the traversal marks exactly the vertices reachable from vertex 0 |
| `UnityRandom.Range` | Assets/Scripts/Helpers.cs:32 | an answer lies in `[lo, hi)`; an empty range answers `lo` |
| `UnityRandom.TwoAdicOf` | Assets/Scripts/Helpers.cs:40-41 | the ruler sequence hits every exponent, which is what makes it a fair source |
| `UnityRandom.RulerIsFair` | Assets/Scripts/Helpers.cs:40-41 | a fair source exists, so the fairness assumption of the reroll loops can be met |
| `Sections.LineReader.constructor` | Assets/Scripts/Helpers.cs:134 | a new reader stands before the first line of the file |
| `Sections.LineReader.ReadLine` | Assets/Scripts/Helpers.cs:143 | the next line, advancing by one, or null at the end of the file |
| `Sections.StringList.constructor` | Assets/Scripts/Helpers.cs:137-139 | a new list is empty |
| `Sections.StringList.Add` | Assets/Scripts/Helpers.cs:20 | the string is appended |
| `Sections.FindStop` | Assets/Scripts/Helpers.cs:14-23 | the position of the first stop word at or after a line, or none when no stop word follows |
| `Sections.AddSection` | Assets/Scripts/Helpers.cs:145-159 | a section's lines are appended to the list its header names |
| `Sections.ParseSkips` | Assets/Scripts/Helpers.cs:145-159 | lines that are not headers are ignored |
| `Sections.FindStopAt` | Assets/Scripts/Helpers.cs:18 | the stop word that is found is the first one |
| `Sections.ParseSection` | Assets/Scripts/Helpers.cs:143-160 | a header, its lines and a stop word add exactly those lines to the header's list |
| `Sections.ParseLayout` | Assets/Scripts/Helpers.cs:143-160 | a file laid out as the three sections reads back as the lists written into it |
| `Sections.ParseThree` | Assets/Scripts/Helpers.cs:143-160 | any lines laid out as three closed sections read back as their lists |
| `Sections.LayoutParts` | Assets/Scripts/Helpers.cs:143-160 | the standard layout has its three sections where the reader looks for them |
| `Sections.ReadSection` | Assets/Scripts/Helpers.cs:14-23 | when a stop word follows, the lines before it are appended and the stream passes it; otherwise the call does not complete |
| `Sections.ReadSections` | Assets/Scripts/Helpers.cs:143-160 | the lists end up as the sections of the file, and the loop completes exactly when every section closes |
| `Helpers.FreeValue` | Assets/Scripts/Helpers.cs:40-41 | fewer used values than the range leave one free, so a reroll can succeed |
| `Helpers.RollUnused` | Assets/Scripts/Helpers.cs:40-41 | the reroll ends with an unused index in range; a first draw that is unused is kept; every discarded draw was used |
| `Helpers.TakeUnused` | Assets/Scripts/Helpers.cs:40-43 | the same roll, after which the index is recorded in the table, which grows by one |
| `Helpers.FactsStep` | Assets/Scripts/Helpers.cs:46-54 | one round of the misc loop keeps the picks distinct, in range and written to their slots |
| `Helpers.RollFacts` | Assets/Scripts/Helpers.cs:30-54 | the three facts come from three pairwise distinct misc indices, the first being the initial roll |
| `Helpers.OpenFlags` | Assets/Scripts/Helpers.cs:58 | the access flags with exactly the one chosen field open |
| `Helpers.AppendProfile` | Assets/Scripts/Helpers.cs:57-58 | exactly one vertex is appended, with the rolled profile and exactly one non-name field open; the edges are unchanged |
| `Helpers.ProfilesCons` | Assets/Scripts/Helpers.cs:61-66 | a profile put before a run of profiles with other name indices gives a run of profiles with distinct names |
| `Helpers.ProfileAt` | Assets/Scripts/Helpers.cs:61-66 | every vertex of a generated run is the profile its picks describe |
| `Helpers.DistinctAt` | Assets/Scripts/Helpers.cs:40-43 | two positions of a distinct sequence hold different values |
| `Helpers.NewProfile` | Assets/Scripts/Helpers.cs:30-58 | one pass appends a vertex whose name index was unused, records it, and opens exactly one of the fields 1 to 3 |
| `Helpers.GenerateProfile` | Assets/Scripts/Helpers.cs:28-67 | appends `max(size, 1)` vertices (for count 0), each a rolled profile, with pairwise distinct names, and adds no edge |
| `Helpers.RecordedCons` | Assets/Scripts/Helpers.cs:43 | a pick recorded before further picks is distinct from them, and the table holds exactly the picks added |
| `Helpers.ProfilesFrom` | Assets/Scripts/Helpers.cs:61-66 | the recursion appends its profiles with distinct names, none of them already used |
| `Helpers.JoinedAfterEdge` | Assets/Scripts/Helpers.cs:109-110 | an edge from a connected vertex brings its other end into the connected table without breaking the invariant |
| `Helpers.JoinedNext` | Assets/Scripts/Helpers.cs:119-125 | a vertex already in the table extends the invariant to the next index |
| `Helpers.JoinedAll` | Assets/Scripts/Helpers.cs:119-125 | once the invariant covers every index, every vertex is reachable from vertex 0 |
| `Helpers.GrownAfterEdge` | Assets/Scripts/Helpers.cs:109 | an edge from the current vertex to another one only adds edges at the current vertex |
| `Helpers.Link` | Assets/Scripts/Helpers.cs:107-111 | the rolled edge is inserted, its other end joins the connected table, and the degree grows by at most one |
| `Helpers.RollRunStopped` | Assets/Scripts/Helpers.cs:114-115 | once a check has read 4, the loop passes the remaining vertices without drawing, linking or checking |
| `Helpers.RollRunKeeps` | Assets/Scripts/Helpers.cs:101-117 | at every point of the roll loop: edges stay in range and paired, new edges join `index` to another vertex, each check takes one draw, each check reads the degree so far (one more or the same as before), and only the last check can read 4 |
| `Helpers.RollRunEnds` | Assets/Scripts/Helpers.cs:101-117 | after the roll loop: the checks visit every vertex but `index` unless one reads exactly 4, and then the loop stops at the first such check; the last check reads the final degree; no check means no new edge; a vertex entering with fewer than 4 edges ends with at most 4 |
| `Helpers.CapBelow` | Assets/Scripts/Helpers.cs:114-115 | a trace of checks that starts below 4, rises by at most one per check and reads 4 at no check before the last never reads more than 4 |
| `Helpers.TrackedSnoc` | Assets/Scripts/Helpers.cs:105-115 | one more check, at most one above the last, extends the trace, which stops exactly when that check reads 4 |
| `Helpers.RollOne` | Assets/Scripts/Helpers.cs:105-115 | one round for another vertex `i` draws from `[i / 2, size)`, adds the edge between the current vertex and `i` exactly when the draw is `i`, and reads the new degree: one step of the loop's specification |
| `Helpers.RollEdges` | Assets/Scripts/Helpers.cs:101-117 | the roll loop keeps every connected vertex reachable, and its edges, draws and checks are exactly those of the loop's specification `RollRunTo` run over every vertex, whose properties are `Helpers.RollRunEnds` |
| `Helpers.RollAt` | Assets/Scripts/Helpers.cs:101-117 | the roll loop keeps every connected vertex reachable and adds only edges at the current vertex |
| `Helpers.GrownTrans` | Assets/Scripts/Helpers.cs:93-117 | growth at one vertex composes across the forced edge and the roll loop |
| `Helpers.Join` | Assets/Scripts/Helpers.cs:93-98 | the forced edge links the current vertex to an earlier, connected one, and the table gains exactly the current vertex |
| `Helpers.Attach` | Assets/Scripts/Helpers.cs:80-98 | after the first half of generateEdge, the current vertex is connected. The first call starts the table with vertex 0, and a vertex already in the table adds no edge and draws nothing. Any other vertex gets exactly one edge, to the next draw from `[0, index - 1)` (vertex 0 when `index` is 1), and joins the table |
| `Helpers.GenerateEdge` | Assets/Scripts/Helpers.cs:72-126 | from vertex 0 with no table, every vertex below size ends up reachable from vertex 0; edges are only added, and never as self-loops |
| `Helpers.BuildGraph` | Assets/Scripts/Helpers.cs:132-165 | the graph is built exactly when every section of the file closes; it then holds profiles with distinct names from the file's lists, is connected from vertex 0 and has no self-loop, and otherwise the graph is untouched |
| `Helpers.RollGraph` | Assets/Scripts/Helpers.cs:162-163 | profiling then edge rolling yields a connected graph of distinct-name profiles with no self-loop |
| `Helpers.BuildThenCheck` | Assets/Scripts/DataStructures/Graph.cs:307-326 | once the file has been read, the game's connectivity check on the built graph answers true |
| `ScoreIndex.InsertKeys` | Assets/Scripts/DataStructures/BST.cs:34-50 | insertion adds exactly the new key to the key set |
| `ScoreIndex.InsertOrdered` | Assets/Scripts/DataStructures/BST.cs:34-50 | insertion keeps the search-tree order: smaller keys on the left, equal or larger keys on the right |
| `ScoreIndex.InsertEntries` | Assets/Scripts/DataStructures/BST.cs:34-50 | insertion adds exactly the new entry, as a multiset |
| `ScoreIndex.InsertSize` | Assets/Scripts/DataStructures/BST.cs:34-50 | insertion adds exactly one node |
| `ScoreIndex.InsertGrows` | Assets/Scripts/DataStructures/BST.cs:34-50 | insertion hangs a new leaf and moves no existing node |
| `ScoreIndex.NumberedAppend` | Assets/Scripts/DataStructures/BST.cs:63-71 | numbering a concatenation numbers the second part from where the first stopped |
| `ScoreIndex.SavedAppend` | Assets/Scripts/DataStructures/BST.cs:73-78 | file lines of a concatenation are the concatenation of the file lines |
| `ScoreIndex.NumberedAt` | Assets/Scripts/DataStructures/BST.cs:63-71 | the i-th leaderboard line has place `place + i` and the i-th entry |
| `ScoreIndex.TraverseRanks` | Assets/Scripts/DataStructures/BST.cs:63-71 | leaderboard mode appends the entries from the largest key down, numbered from the counter, and advances the counter by the tree's size |
| `ScoreIndex.NumberedAround` | Assets/Scripts/DataStructures/BST.cs:63-71 | an entry between two runs gets the place right after the first run |
| `ScoreIndex.TraverseSaves` | Assets/Scripts/DataStructures/BST.cs:73-78 | file mode appends the entries in preorder and leaves the counter alone |
| `ScoreIndex.DescendingSize` | Assets/Scripts/DataStructures/BST.cs:63-71 | the leaderboard has one line per node |
| `ScoreIndex.DescendingKeys` | Assets/Scripts/DataStructures/BST.cs:63-71 | every listed key is a key of the tree |
| `ScoreIndex.DescendingSorted` | Assets/Scripts/DataStructures/BST.cs:63-71 | on an ordered tree the listed keys never increase |
| `ScoreIndex.DescendingEntries` | Assets/Scripts/DataStructures/BST.cs:63-71 | the leaderboard lists every entry exactly once |
| `ScoreIndex.InsertAllAppend` | Assets/Scripts/DataStructures/BST.cs:53 | inserting two runs one after the other is inserting their concatenation |
| `ScoreIndex.InsertAllLeft` | Assets/Scripts/DataStructures/BST.cs:43-44 | keys below a node's key all land in its left subtree |
| `ScoreIndex.InsertAllRight` | Assets/Scripts/DataStructures/BST.cs:45-46 | keys at or above a node's key all land in its right subtree |
| `ScoreIndex.PreorderKeys` | Assets/Scripts/DataStructures/BST.cs:73-78 | every key in the file listing is a key of the tree |
| `ScoreIndex.PreorderRebuilds` | Assets/Scripts/DataStructures/BST.cs:73-78 | re-inserting the file listing, in order, into an empty tree rebuilds the same tree |
| `ScoreIndex.BSTNode.constructor` | Assets/Scripts/DataStructures/BST.cs:13-18 | a new node is a one-entry tree with no children |
| `ScoreIndex.InsertHelper` | Assets/Scripts/DataStructures/BST.cs:34-50 | the returned root holds the old subtree with the new entry inserted where the order puts it |
| `ScoreIndex.GrowLeft` | Assets/Scripts/DataStructures/BST.cs:43-44 | a smaller key goes into the left subtree |
| `ScoreIndex.GrowRight` | Assets/Scripts/DataStructures/BST.cs:45-46 | an equal or larger key goes into the right subtree |
| `ScoreIndex.ScoreHelper` | Assets/Scripts/DataStructures/BST.cs:59-82 | the linked walk produces the abstract traversal's lines and counter |
| `ScoreIndex.BST.constructor` | Assets/Scripts/DataStructures/BST.cs:27 | a new index is empty |
| `ScoreIndex.BST.DeleteTree` | Assets/Scripts/DataStructures/BST.cs:30 | the index is empty afterwards |
| `ScoreIndex.BST.Insert` | Assets/Scripts/DataStructures/BST.cs:53 | the tree becomes the old tree with the entry inserted, and stays ordered |
| `ScoreIndex.BST.GetScore` | Assets/Scripts/DataStructures/BST.cs:87-91 | mode false gives the leaderboard numbered from 1, largest key first; mode true gives the preorder file lines |
| `ScoreIndex.Leaderboard` | Assets/Scripts/DataStructures/BST.cs:63-71 | the leaderboard has one line per entry, places 1 to n in order, and keys from the highest down |
| `ScoreIndex.ScoresAfterDelete` | Assets/Scripts/DataStructures/BST.cs:30 | after deleteTree, getScore gives nothing in either mode |
| `LinkedLists.LLNode.constructor` | Assets/Scripts/DataStructures/LinkedList.cs:17-20 | a new node holds its key and no links |
| `LinkedLists.KeysOf` | Assets/Scripts/DataStructures/LinkedList.cs:80-97 | the key sequence has one key per node, in node order |
| `LinkedLists.DistinctCons` | Assets/Scripts/DataStructures/LinkedList.cs:53-63 | a new node in front of distinct nodes keeps them distinct |
| `LinkedLists.KeysCons` | Assets/Scripts/DataStructures/LinkedList.cs:53-63 | a node in front puts its key in front |
| `LinkedLists.LinkedList.constructor` | Assets/Scripts/DataStructures/LinkedList.cs:36-39 | a new list is empty with counter 0 |
| `LinkedLists.LinkedList.IsEmpty` | Assets/Scripts/DataStructures/LinkedList.cs:42-50 | true exactly when the list holds no keys |
| `LinkedLists.LinkedList.ListLength` | Assets/Scripts/DataStructures/LinkedList.cs:73-76 | the counter is never below the number of keys |
| `LinkedLists.LinkedList.AddNode` | Assets/Scripts/DataStructures/LinkedList.cs:53-63 | the key goes in front, the old head points back at the new one, and the counter grows by one |
| `LinkedLists.LinkedList.LinkFront` | Assets/Scripts/DataStructures/LinkedList.cs:58-62 | the new node becomes the head in front of the old nodes |
| `LinkedLists.LinkedList.DeleteList` | Assets/Scripts/DataStructures/LinkedList.cs:66-70 | the list is empty afterwards and the counter is unchanged |
| `LinkedLists.LinkedList.GetKey` | Assets/Scripts/DataStructures/LinkedList.cs:80-97 | as written: null out of bounds, the head's key for index 0, and a null dereference for any other index below the counter |
| `LinkedLists.LinkedList.GetKeyAdvancing` | Assets/Scripts/DataStructures/LinkedList.cs:80-97 | with the counter advanced: the key at that index within the list, null out of bounds |
| `LinkedLists.LinkedList.WalkTo` | Assets/Scripts/DataStructures/LinkedList.cs:109-113 | the walk reaches position `index` exactly when it lies within the list, or one past its end |
| `LinkedLists.LinkedList.Unlink` | Assets/Scripts/DataStructures/LinkedList.cs:121-127 | a node other than the head is spliced out and the rest stay in order |
| `LinkedLists.LinkedList.DropHead` | Assets/Scripts/DataStructures/LinkedList.cs:116-119 | the second node becomes the head |
| `LinkedLists.LinkedList.DeleteNode` | Assets/Scripts/DataStructures/LinkedList.cs:101-133 | as written: an empty list, or an index at or past the counter, changes nothing; a negative index, or one past the list's end but below the counter, dereferences null; the only node throws; any other index within the list removes exactly that node |
| `LinkedLists.LinkedList.DeleteNodeGuarded` | Assets/Scripts/DataStructures/LinkedList.cs:101-133 | with the head case guarded: any index within the list removes exactly that node |
| `LinkedLists.SecondKeyAsWritten` | Assets/Scripts/DataStructures/LinkedList.cs:87-90 | on a two-key list getKey(1) dereferences null |
| `LinkedLists.SecondKeyAdvancing` | Assets/Scripts/DataStructures/LinkedList.cs:87-90 | with the counter advanced, getKey(1) returns the second key |
| `LinkedLists.OnlyNodeAsWritten` | Assets/Scripts/DataStructures/LinkedList.cs:116-119 | on a one-node list deleteNode(0) dereferences null |
| `LinkedLists.OnlyNodeGuarded` | Assets/Scripts/DataStructures/LinkedList.cs:116-119 | with the guard, deleteNode(0) on a one-node list empties it |

## Left out

- Output text and logging are left out: `Debug.Log`, `printVertices` (`Graph.cs:278-304`) and `StackLL.print` (`StackLL.cs:71-81`). So is the text layout of getScore's lines; a line is modelled as the data it prints.
- Rendering is left out. `BFT(int, int)` (`Graph.cs:131-153`) only positions game objects, and `setVisual` (`Graph.cs:179`) stores one.
- File I/O: the data file is a sequence of lines and a `StreamReader` is a position in it. Opening the file and its path are left out.
- Randomness: `Random.Range` answers from an injected source `raw`. The reroll loops end only if the source keeps producing every value, so `Helpers.RollUnused` and the methods above it require `Fair(raw)`. `UnityRandom.RulerIsFair` shows that such a source exists.
- Scores are C# `float`s that are only compared, so they are modelled as integers.
- C# `int` overflow of the counters (`length`, `edgeCount`, the leaderboard place) is not modelled. Integers are unbounded.
- `HashTables.HashTable.InsertItem`, `SearchItem` and `Graphs.Graph.EdgeUnique` require a non-negative bucket index. In the source, a negative key that is not a multiple of the table size indexes out of range. The generator only stores non-negative indices.
- `HashTables.HashTable.InsertItem`, `SearchItem` and `HashFunction` require `tableSize > 0`. The source always builds tables of 7 buckets; with 0 buckets `%` would divide by zero.
- `Helpers.GenerateProfile` states the distinct names and profiles of the appended vertices. That exactly one field is open is stated per vertex by `Helpers.NewProfile`, not for the whole run.
- `Helpers.GenerateProfile` and `Helpers.BuildGraph` require enough data: at least one name per vertex added, a country, and three facts. With fewer names, the source's name reroll never ends.
- `Sections.ReadSection`: a section with no stop word makes the source append `null` and recurse until the stack overflows. The model reports this as an incomplete read (`built == false` in `Helpers.BuildGraph`).
- `ScoreIndex.BST.Insert` states the new abstract tree and its order. That the entries, size and node positions change as expected is stated by `ScoreIndex.InsertEntries`, `ScoreIndex.InsertSize` and `ScoreIndex.InsertGrows` about that tree.
- `Graphs.Graph.NewClue` requires that the facts of the neighbours it scans can be read (each vertex has three). The generator guarantees this for every vertex it creates.
- `Graphs.Graph.BFT` and `Graphs.Graph.GraphConnected` require `size > 0`. The source reads `visited[0]` unconditionally.
- `Graphs.Graph.GetVertex`, `InsertEdge`, `OpenField`, `SetStatus`, `SetEdgesFound` and `EdgeUnique` require in-range indices: `GetVertex` a non-negative id, the others listed vertices and, for `OpenField`, a field index in range. The source would throw an index exception instead (`Graph.cs:113-114`, `Graph.cs:89-90`, `Graph.cs:193`, `Graph.cs:163-175`, `Graph.cs:209-225`, `Graph.cs:159`); the game and the generator only ever pass listed indices.
- `Driver.cs` and the rest of the game (UI, scoring screens, input) are not part of this model.

## Findings

| source | as written | input that shows it | evidently intended | confidence | as-written member | corrected member |
|---|---|---|---|---|---|---|
| Assets/Scripts/DataStructures/LinkedList.cs:89-90 | the walk `while (i != _index) walker = walker.next;` never increments `i` | a list holding "b", "a" and `getKey(1)`: the walker runs past the end and dereferences null | `i++` on each step, returning the key at that index | high (not executed) | `LinkedLists.LinkedList.GetKey`, `LinkedLists.SecondKeyAsWritten` | `LinkedLists.LinkedList.GetKeyAdvancing`, `LinkedLists.SecondKeyAdvancing` |
| Assets/Scripts/DataStructures/LinkedList.cs:116-119 | deleting the head always runs `head.next.prev = null` | a one-node list and `deleteNode(0)`: `head.next` is null | removing the only node empties the list | high (not executed) | `LinkedLists.LinkedList.DeleteNode`, `LinkedLists.OnlyNodeAsWritten` | `LinkedLists.LinkedList.DeleteNodeGuarded`, `LinkedLists.OnlyNodeGuarded` |
