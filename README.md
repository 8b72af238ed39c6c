# topo-order-commits and chorus-lapilli in Dafny

This project models two small programs and proves properties of them.

**The commit-graph reporter** (`assign6/topo_order_commits.py`). It:

- starts from the local branches of a git repository and reads each commit's loose object, collecting the hashes after its `parent` tokens up to the first `author` token;
- builds a hash-keyed table of commit nodes by a depth-first walk with an explicit stack, recording every parent/child edge at both ends;
- orders the commits with Kahn's algorithm on child counts. The frontier is a stack seeded with the childless commits in ascending hash order, and parents are released in ascending hash order;
- prints one line per commit. Where the lineage breaks, it adds "sticky" lines and appends the sorted names of the branches whose head the commit is.

**The chorus-lapilli game** (`assign3/chorus-lapilli/src/index.js`). This is tic-tac-toe in which each player places three pieces during steps 0 to 5. After that, a player moves one of their pieces to an adjacent empty square. A player holding the centre must either win with the move or move the centre piece. The `Game` component keeps:

- the history of boards;
- the step shown;
- whose turn it is;
- the selected square;
- an invalid-move flag.

Modules:

- `CommitObject` (`commit_object.dfy`): `object_path` and the parent-header scan.
- `CommitGraph` (`commit_graph.dfy`): `populate_tree`, with the walk invariant and its lemmas.
- `BranchHeads` (`branch_heads.dfy`): the `branch_heads` grouping.
- `TopoSort` (`topo_sort.dfy`): the sort loop `SortCommits`, the order `KahnOrder` it produces, and the facts behind `__topo_sort`.
- `Serialize` (`serialize.dfy`): the text `__str__` produces, and the proof that the commits can be read back from it.
- `Strings` (`strings.dfy`): Python's string order, `sorted`, `join` and line splitting.
- `Repository` (`git_repo.dfy`): the `GitRepo` class, whose fields are filled in place by `BuildCommitGraph` and `TopoSort` (both run by `Load`, as `__init__` runs them) and printed by `ToString`; `Report` loads, then renders.
- `ChorusLapilli` (`chorus_lapilli.dfy`): the game rules and the `Game` class with `HandleClick` and `JumpTo`.
- `Wrappers` (`wrappers.dfy`): `Option` and `Result`.

The modelling decisions:

- **The object store.** A finite map `ObjectStore` from the object path (relative to `.git`) to the whitespace tokens of the inflated object stands for the files under `.git`. A missing key is the `OSError` exit, reported as `PackfilesUnsupported`. Because the map is finite and object paths are injective (`ObjectPathInjective`), the walk terminates.
- **Branch heads.** The branches arrive already resolved to `(name, head hash)` pairs (`BranchRef`).
- **Acyclicity.** A ranking of the commits that puts each commit strictly above its parents (`Acyclic`) states that the graph has no cycle.
- **Set iteration order.** Python leaves the order in which a node's `parents` and `children` sets are iterated unspecified. The sticky lines print in that order, so it is a parameter (`SetOrder`).
- **Line 91 of `index.js`.** It compares a field the state does not have (`pieceSelected`) with -1. The comparison is always false, so `hasSelected` is always false and the selection branch is open even when a piece is already selected. `HasSelected` models this as written.

The model follows the code on these points:

- **Pop order.** Both the seed and the released parents are popped from the end of the stack. The first commit emitted is therefore the greatest childless hash, not the smallest (`SeedTop`).
- **Freed parents.** They are pushed in ascending order without re-sorting the stack.
- **A trailing `parent`.** A header whose last token is `parent` with no token after it makes the code index past the end of the token list. That is modelled as the error `MissingParentHash`.

## Model

| member | source | states |
|---|---|---|
| CommitObject.ObjectPath | assign6/topo_order_commits.py:43-49 | the path is `objects/`, the first two hash characters (all of them if shorter), `/`, then the rest of the hash; it is nine characters longer than the hash |
| CommitObject.ObjectPathRoundTrip | assign6/topo_order_commits.py:43-49 | the hash is recovered from its object path |
| CommitObject.ObjectPathInjective | assign6/topo_order_commits.py:43-49 | distinct commits are stored in distinct files |
| CommitObject.HeaderEndFrom | assign6/topo_order_commits.py:165-171 | the header region ends at the first `author` token at or after the start, or at the end of the tokens |
| CommitObject.ScanParents | assign6/topo_order_commits.py:159-171 | the scan loop returns exactly `ParseParents`: the tokens following each `parent` before the first `author`, in order, or failure when the header ends in a `parent` with nothing after it |
| CommitObject.FollowersMembership | assign6/topo_order_commits.py:161-163 | a hash is collected exactly when it follows a `parent` token inside the header region |
| CommitObject.ParsedCount | assign6/topo_order_commits.py:161-163 | one hash is collected per `parent` token before the first `author` |
| CommitObject.AuthorEndsHeader | assign6/topo_order_commits.py:165-171 | tokens after the first `author`, such as `parent` in the message, change nothing in the result |
| CommitObject.TwoParentsInOrder | assign6/topo_order_commits.py:159-171 | a merge commit with two `parent` lines before `author` yields both hashes in encounter order |
| CommitGraph.Distinct | assign6/topo_order_commits.py:136-140 | the seed stack holds each head hash exactly once: heads with equal hashes collapse to one node |
| CommitGraph.Link | assign6/topo_order_commits.py:182-183 | the child gains the parent and the parent gains the child; no other node or edge changes |
| CommitGraph.AddNode | assign6/topo_order_commits.py:176-180 | a parent hash not yet in the table gets a fresh node with no edges; the other nodes are unchanged |
| CommitGraph.AttachParents | assign6/topo_order_commits.py:173-185 | after the loop over the parsed hashes the table has a node for each of them, the current commit's parents grew by exactly those hashes, each of them gained the current commit as a child, nothing else changed, and the stack grew by the hashes in order |
| CommitGraph.AttachedShape | assign6/topo_order_commits.py:182-183 | linking keeps the adjacency symmetric: `p` is a parent of `c` exactly when `c` is a child of `p` |
| CommitGraph.WalkSkip | assign6/topo_order_commits.py:144-147 | popping a visited commit keeps the walk invariant |
| CommitGraph.WalkPop | assign6/topo_order_commits.py:144-185 | popping a new commit, recording it and attaching its parents keeps the walk invariant; the commit is a head or named as a parent by a commit read before |
| CommitGraph.WalkDone | assign6/topo_order_commits.py:143-196 | when the stack is empty the commits have no duplicates, are exactly the nodes of the table, the adjacency is symmetric and each node's parents are what its object lists |
| CommitGraph.PathsCardinality | assign6/topo_order_commits.py:141-156 | distinct visited commits open distinct object files |
| CommitGraph.ReadBound | assign6/topo_order_commits.py:141-156 | the walk visits no more commits than there are objects, which bounds the loop |
| CommitGraph.Visit | assign6/topo_order_commits.py:149-194 | reading a new commit fails with `PackfilesUnsupported` exactly when its object is missing, and with `MissingParentHash` when its header ends in a bare `parent`; the failing commit is the end of a parent chain from a head; it succeeds exactly when the commit is readable, and the walk invariant then holds with the commit recorded |
| CommitGraph.PopulateTree | assign6/topo_order_commits.py:129-196 | on success: no duplicate commits, commits equal the table's nodes, every head is present, edges are recorded at both ends, parents are exactly the listed hashes, and every commit is a head or a parent of an earlier one; on failure: the failing commit ends a chain of parent links that starts at a head, and the error says why; when every commit so reachable is readable, the walk succeeds |
| CommitGraph.ChainDiscovered | assign6/topo_order_commits.py:140-185 | every commit reachable from a branch head by following parent links is discovered |
| CommitGraph.ExtendChain | assign6/topo_order_commits.py:173-185 | a parent listed by the last commit of a chain from a head extends the chain |
| CommitGraph.DiscoveredReached | assign6/topo_order_commits.py:140-185 | every discovered commit ends a chain of parent links from a head |
| CommitGraph.AnnouncedReached | assign6/topo_order_commits.py:140-185 | every hash on the stack is a head or a parent listed by a discovered commit, so it ends a chain from a head |
| BranchHeads.GroupBranchHeads | assign6/topo_order_commits.py:200-201 | the table's keys are exactly the head hashes; the list under a hash is `BranchesAt`, the branches with that head in branch-list order |
| BranchHeads.BranchesAtMembership | assign6/topo_order_commits.py:200-201 | a name is listed under `h` exactly when a branch of that name has head `h` |
| BranchHeads.BranchesAtLength | assign6/topo_order_commits.py:200-201 | the list under `h` has one entry per branch whose head is `h`, so duplicate names are kept |
| BranchHeads.BranchesAtUnused | assign6/topo_order_commits.py:200-201 | a hash no branch points at has no branches listed |
| Strings.LexLeTotal | assign6/topo_order_commits.py:219 | Python's string order is total |
| Strings.LexLeAntisymmetric | assign6/topo_order_commits.py:219 | Python's string order is antisymmetric |
| Strings.LexLeTransitive | assign6/topo_order_commits.py:219 | Python's string order is transitive |
| Strings.SortStrings | assign6/topo_order_commits.py:270-272 | `sorted` returns an ascending permutation of its input |
| Strings.SplitJoin | assign6/topo_order_commits.py:279 | splitting the newline-joined lines at newlines gives the lines back when none contains a newline |
| TopoSort.Childless | assign6/topo_order_commits.py:210-216 | the seed holds exactly the commits with no children, each once |
| TopoSort.SeedMembers | assign6/topo_order_commits.py:214-219 | the sorted seed holds each childless commit exactly once |
| TopoSort.SeedTop | assign6/topo_order_commits.py:219-222 | the first commit popped is the greatest childless hash |
| TopoSort.InitialFrontier | assign6/topo_order_commits.py:210-219 | before the first pop, every count is the number of children and the stack is exactly the childless commits |
| TopoSort.Ascending | assign6/topo_order_commits.py:224-226 | the ascending listing of a set of hashes: sorted, without duplicates, with exactly its members |
| TopoSort.SortedUnique | assign6/topo_order_commits.py:224-226 | two ascending duplicate-free sequences with the same members are equal, so `sorted` of a set is determined |
| TopoSort.SortedHashes | assign6/topo_order_commits.py:224-226 | `sorted(current.parents)`: every parent exactly once, ascending; it is `Ascending` of the set |
| TopoSort.PopStarts | assign6/topo_order_commits.py:221-222 | popping the top of the stack starts the release of a commit whose children are all emitted |
| TopoSort.ReleaseStep | assign6/topo_order_commits.py:227-229 | a parent's count drops to zero exactly when the popped commit was its last pending child, and then it is pushed |
| TopoSort.ReleaseParents | assign6/topo_order_commits.py:224-229 | after the loop over the parents, each parent's count dropped by one (`Decremented`), the others are unchanged, and the stack grew by exactly the freed parents in the order given; the caller gives them ascending |
| TopoSort.ReleasedUpTo | assign6/topo_order_commits.py:227-229 | after the first `j` parents, the counts are `Decremented` by those parents and the stack grew by the ones freed among them |
| TopoSort.ReleaseAll | assign6/topo_order_commits.py:224-229 | releasing all parents of the popped commit reaches the next frontier with the counts `Decremented` and the freed parents pushed |
| TopoSort.KahnStep | assign6/topo_order_commits.py:221-231 | the order `Kahn` produces from a frontier starts with the top of the stack, followed by what the released frontier produces |
| TopoSort.KahnAfter | assign6/topo_order_commits.py:221-231 | one turn moves the popped commit from the rest of the order to the end of the output without changing their concatenation |
| TopoSort.SortAdvance | assign6/topo_order_commits.py:221-231 | one turn of the loop keeps the loop state and the output followed by the rest of `Kahn`'s order equal to the whole order |
| TopoSort.PopEnds | assign6/topo_order_commits.py:224-231 | once all its parents are released the popped commit counts as emitted |
| TopoSort.ChildrenFirstAppend | assign6/topo_order_commits.py:231 | appending a commit whose children were all emitted keeps every child before its parents |
| TopoSort.Exhausted | assign6/topo_order_commits.py:221-231 | on an acyclic graph, an empty frontier means every commit was emitted |
| TopoSort.OrderRanks | assign6/topo_order_commits.py:221-231 | an order that lists every commit after its children proves the graph acyclic |
| TopoSort.SortOutcome | assign6/topo_order_commits.py:221-231 | the sort emits every commit exactly when the graph has no cycle |
| TopoSort.SortCommits | assign6/topo_order_commits.py:205-231 | the output is exactly `KahnOrder`: starting from the child counts and the sorted childless seed, repeatedly pop the top, release its parents in ascending order and push those with no pending child; only nodes are emitted, each at most once and after all its children; all of them are emitted exactly when the graph is acyclic; the first emitted is the greatest childless hash |
| Serialize.HashLineDecodes | assign6/topo_order_commits.py:269-273 | a commit's line with its branch names is read back as its hash |
| Serialize.EntryJoin | assign6/topo_order_commits.py:259-275 | an entry is its lines (sticky end, blank, sticky start, hash line) joined with newlines |
| Serialize.StickyDecode | assign6/topo_order_commits.py:259-267 | the sticky lines carry no hash line |
| Serialize.EntryDecode | assign6/topo_order_commits.py:259-275 | each entry yields exactly its commit's hash when read back |
| Serialize.RenderedDecodes | assign6/topo_order_commits.py:233-279 | reading the hash lines of the output gives back the sorted commits in order |
| Repository.CurrentLine | assign6/topo_order_commits.py:242-273 | the loop body builds `Entry`: the sticky pair only where the previous commit is not a child, then the hash, then a space and the sorted branch names on heads |
| Repository.GitRepo.constructor | assign6/topo_order_commits.py:85-89 | the branch list is set and the tables and lists start empty |
| Repository.GitRepo.BuildCommitGraph | assign6/topo_order_commits.py:198-203 | fills `branch_heads` as `GroupBranchHeads` does and the commits and nodes with what `PopulateTree` promises, or reports a failing commit at the end of a parent chain from a head; it fails only when such a commit is unreadable |
| Repository.GitRepo.TopoSort | assign6/topo_order_commits.py:205-231 | fills `topo_sorted_commits` with `KahnOrder` of the commits, with the facts `SortCommits` promises, and lists only nodes; nothing else changes |
| Repository.GitRepo.Load | assign6/topo_order_commits.py:91-92 | builds the graph, then sorts it. `branch_heads` is the grouping of the branches. On success: the graph is what `PopulateTree` promises, every head is a node, and the order is `KahnOrder`, lists only nodes, each once and after its children, holds every commit exactly when the graph is acyclic, and starts with the greatest childless hash. A failure names a commit reachable from a head, says why, and leaves the order empty |
| Repository.GitRepo.Report | assign6/topo_order_commits.py:282-287 | `GitRepo()` followed by `str`: on success the text is `Rendered` of the `KahnOrder`, and its hash lines read back as that order; a failure names a commit reachable from a head |
| Repository.GitRepo.ToString | assign6/topo_order_commits.py:233-279 | returns `Rendered`: the entries joined with newlines |
| ChorusLapilli.FirstWinLines | assign3/chorus-lapilli/src/index.js:224-230 | the search from line `k` finds a player only on a line that player holds with no claimed line before it, and finds none exactly when no later line is claimed |
| ChorusLapilli.WinnerLines | assign3/chorus-lapilli/src/index.js:213-231 | the winner is the holder of the first fully held line in list order; there is none exactly when no line is held |
| ChorusLapilli.CalculateWinner | assign3/chorus-lapilli/src/index.js:213-231 | the loop returns `Winner` of the squares |
| ChorusLapilli.Adjacent | assign3/chorus-lapilli/src/index.js:67-83 | false with no selection; otherwise true exactly when the squares differ and are at most one row and one column apart |
| ChorusLapilli.AdjacentSymmetric | assign3/chorus-lapilli/src/index.js:67-83 | adjacency does not depend on which square is selected |
| ChorusLapilli.InitialValid | assign3/chorus-lapilli/src/index.js:52-65 | the initial state is a reachable state |
| ChorusLapilli.WinnerFreezes | assign3/chorus-lapilli/src/index.js:97-100 | once the board shown has a winner a click changes nothing |
| ChorusLapilli.Placement | assign3/chorus-lapilli/src/index.js:105-148 | in the placement phase a click on an empty square writes the mover's symbol, appends the board to the truncated history, sets the step to the truncated length and passes the turn |
| ChorusLapilli.OccupiedDuringPlacement | assign3/chorus-lapilli/src/index.js:129-131 | in the placement phase a click on an occupied square changes nothing |
| ChorusLapilli.Selection | assign3/chorus-lapilli/src/index.js:108-148 | in the movement phase a click on one of the mover's pieces only selects it; the truncated history, step and turn stay |
| ChorusLapilli.RefusedMove | assign3/chorus-lapilli/src/index.js:111-148 | a move that leaves the mover's centre piece in place without winning sets the flag, drops the selection, keeps the truncated history and does not pass the turn |
| ChorusLapilli.AcceptedMove | assign3/chorus-lapilli/src/index.js:111-148 | any other move to an adjacent empty square moves the selected piece, appends the board and passes the turn |
| ChorusLapilli.IgnoredMove | assign3/chorus-lapilli/src/index.js:129-131 | in the movement phase a click on the opponent's piece, or on an empty square not adjacent to the selection, changes nothing |
| ChorusLapilli.PlacementCounts | assign3/chorus-lapilli/src/index.js:105-107 | a placement adds one piece for the mover |
| ChorusLapilli.MoveCounts | assign3/chorus-lapilli/src/index.js:125-128 | a move keeps three pieces each |
| ChorusLapilli.AppendValid | assign3/chorus-lapilli/src/index.js:133-148 | appending a board with the next step's piece counts and passing the turn reaches a reachable state |
| ChorusLapilli.StayValid | assign3/chorus-lapilli/src/index.js:133-148 | keeping the truncated history, the step and the turn, with an allowed selection, reaches a reachable state |
| ChorusLapilli.ClickedValid | assign3/chorus-lapilli/src/index.js:85-149 | every click takes a reachable state to a reachable state: X moves at even steps, a selection is the mover's own piece in the movement phase, and each board holds the pieces its step implies |
| ChorusLapilli.JumpedValid | assign3/chorus-lapilli/src/index.js:151-158 | jumping to any step of the history reaches a reachable state |
| ChorusLapilli.AtMostThree | assign3/chorus-lapilli/src/index.js:85-149 | in a reachable state neither player has more than three pieces, and in the movement phase both have exactly three |
| ChorusLapilli.Slice | assign3/chorus-lapilli/src/index.js:88 | `slice()` gives a fresh array with the board's squares |
| ChorusLapilli.Game.constructor | assign3/chorus-lapilli/src/index.js:52-65 | one empty board, step 0, X to move, no selection, no invalid move; the state is reachable |
| ChorusLapilli.Game.HandleClick | assign3/chorus-lapilli/src/index.js:85-149 | the new state is `Clicked` of the old one; the lemmas above state what each branch does and `ClickedValid` that reachability is kept |
| ChorusLapilli.Game.JumpTo | assign3/chorus-lapilli/src/index.js:151-158 | sets the step, X to move exactly at even steps, clears the selection and the flag, keeps the history; a reachable state stays reachable |

## Left out

- The search for `.git`, listing the branches and resolving nested refs (`get_dot_git`, `get_local_branches`, `get_head_commits`) are filesystem walks. The branches arrive as `(name, head hash)` pairs.
- Opening an object file and inflating it (zlib) are I/O and a decompressor. The object store is a map from object path to tokens.
- The error exit prints a message and exits the process. It is the `Failure` outcome, carrying the commit and the reason.
- Python's set iteration order, used for the sticky lines, is unspecified. It is the caller-supplied `SetOrder`. `RenderedDecodes` assumes only that the order lists each member of the set once and nothing else (`ListsMembers`).
- Serialize.RenderedDecodes: stated for hashes free of spaces, `=` and newlines (`HashText`) and for branch names without `=` or newlines (`PlainNames`). Git allows `=` in a branch name. Such a name puts `=` on a head line, which `IsHashLine` then takes for a sticky line, so the read-back is not claimed for it.
- CommitGraph.Distinct: states that each head hash is kept exactly once, not that the first occurrences keep their order, which `list(existing.values())` also gives.
- Repository.GitRepo.TopoSort: requires `topo_sorted_commits` to be empty, as it is when `__init__` calls it. A second call appends again, which the model does not describe.
- Printing the result (the `print` in `topo_order_commits`), `__repr__` and `location` are output only. `Report` stops at the text.
- ChorusLapilli.Game.HandleClick: requires the state to be well shaped: the history is non-empty, every board has nine squares, and the step and the selection are in range. Every state the component reaches has that shape. Reachability is preserved by `ClickedValid` rather than in the method's own contract.
- ChorusLapilli.Game.JumpTo: requires the step to index the history. The component only offers buttons for existing steps.
- The React rendering (`Square`, `Board`, `Game.render`) and the bootstrap are user interface only.
- `assign2/shuf.py` is not part of this model. It is an unrelated randomised shuffling utility.
