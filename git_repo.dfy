/**
 * `GitRepo`: the branch list, the `branch_heads` table, the commits found
 * from the branch heads with their links, and the topological order, filled
 * in place by `__build_commit_graph` and `__topo_sort` and printed by
 * `__str__`.
 */
module Repository {
  import opened Wrappers
  import opened Strings
  import opened CommitObject
  import opened CommitGraph
  import opened BranchHeads
  import opened TopoSort
  import opened Serialize

  /** Every branch's head is in a table that holds every head hash. */
  lemma HeadsPresent(refs: seq<BranchRef>, g: Graph)
    requires forall h :: h in HeadHashes(refs) ==> h in g
    ensures forall b :: b in refs ==> b.head in g
  {
    forall b | b in refs ensures b.head in g {
      var k :| 0 <= k < |refs| && refs[k] == b;
      assert HeadHashes(refs)[k] == b.head;
    }
  }

  /**
   * The body of the loop of `__str__` for entry `i`: the sticky end and
   * start when the previous commit is not a child of this one, the hash,
   * then the sorted branch names.
   */
  method CurrentLine(nodes: Graph, branchHeads: map<Hash, seq<string>>, order: SetOrder, topo: seq<Hash>,
                     i: nat, prev: Option<Hash>) returns (currentLine: string)
    requires i < |topo| && forall h :: h in topo ==> h in nodes
    requires prev == if i == 0 then None else Some(topo[i - 1])
    ensures currentLine == Entry(nodes, branchHeads, order, topo, i)
  {
    var commit := topo[i];
    ghost var sticky := if Breaks(nodes, topo, i) then
        Join(order(nodes[topo[i - 1]].parents), " ") + "=" + "\n\n=" + Join(order(nodes[commit].children), " ") + "\n"
      else "";
    ghost var names := Label(branchHeads, commit);
    assert Entry(nodes, branchHeads, order, topo, i) == sticky + commit + names;
    currentLine := commit;
    if prev.Some? && prev.value !in nodes[commit].children {
      var stickyEnd := Join(order(nodes[prev.value].parents), " ") + "=";
      var stickyStart := "\n\n=" + Join(order(nodes[commit].children), " ") + "\n";
      StickyPair(Join(order(nodes[prev.value].parents), " "), Join(order(nodes[commit].children), " "), commit);
      currentLine := stickyEnd + stickyStart + currentLine;
    } else {
      EmptyUnit(commit);
    }
    assert currentLine == sticky + commit;
    if commit in branchHeads {
      var branchNames := SortStrings(branchHeads[commit]);
      Associative(currentLine, " ", Join(branchNames, " "));
      currentLine := currentLine + " " + Join(branchNames, " ");
    } else {
      EmptyUnit(currentLine);
    }
  }

  /** The sticky end and start, put in front of the hash, are the concatenation `Entry` spells out. */
  lemma StickyPair(ps: string, cs: string, h: string)
    ensures (ps + "=") + ("\n\n=" + cs + "\n") + h == ps + "=" + "\n\n=" + cs + "\n" + h
  {
  }

  class GitRepo {
    /** The local branches with the hash each head file holds. */
    var localBranches: seq<BranchRef>
    var branchHeads: map<Hash, seq<string>>
    /** The commits in discovery order; `nodes` holds each one's parents and children. */
    var commits: seq<Hash>
    var nodes: Graph
    var topoSortedCommits: seq<Hash>

    /** The fields as `__init__` sets them before building the graph. */
    constructor (branches: seq<BranchRef>)
      ensures localBranches == branches
      ensures branchHeads == map[] && commits == [] && nodes == map[] && topoSortedCommits == []
    {
      localBranches := branches;
      branchHeads := map[];
      commits := [];
      nodes := map[];
      topoSortedCommits := [];
    }

    /**
     * `__build_commit_graph`: group the branches by head, then walk the
     * commits from the heads. A failure is the exit on an unreadable object.
     */
    method BuildCommitGraph(objects: ObjectStore) returns (err: Option<BuildError>)
      modifies this
      ensures localBranches == old(localBranches) && topoSortedCommits == old(topoSortedCommits)
      ensures forall h :: h in branchHeads <==> h in HeadHashes(localBranches)
      ensures forall h :: h in branchHeads ==> branchHeads[h] == BranchesAt(localBranches, h)
      ensures err.None? ==> WellFormed(Discovery(commits, nodes)) && ParentsAsRead(objects, nodes)
      ensures err.None? ==> forall b :: b in localBranches ==> b.head in nodes
      ensures err.None? ==> DiscoveredFrom(HeadHashes(localBranches), Discovery(commits, nodes))
      ensures err.Some? ==> Reached(HeadHashes(localBranches), objects, err.value.commit)
      ensures (forall h :: Reached(HeadHashes(localBranches), objects, h) ==> Readable(objects, h)) ==> err.None?
      ensures err.Some? && err.value.PackfilesUnsupported? ==> ObjectPath(err.value.commit) !in objects
      ensures err.Some? && err.value.MissingParentHash? ==>
        ObjectPath(err.value.commit) in objects && ParseParents(objects[ObjectPath(err.value.commit)]).None?
    {
      var heads := HeadHashes(localBranches);
      branchHeads := GroupBranchHeads(localBranches);
      var r := PopulateTree(heads, objects);
      if r.Failure? {
        return Some(r.error);
      }
      HeadsPresent(localBranches, r.value.nodes);
      commits, nodes := r.value.commits, r.value.nodes;
      return None;
    }

    /** `__topo_sort`: fills `topo_sorted_commits` with the order `SortCommits` computes. */
    method TopoSort()
      modifies this
      requires WellFormed(Discovery(commits, nodes)) && topoSortedCommits == []
      ensures localBranches == old(localBranches) && branchHeads == old(branchHeads)
      ensures commits == old(commits) && nodes == old(nodes)
      ensures topoSortedCommits == KahnOrder(nodes, commits)
      ensures NoDup(topoSortedCommits) && ChildrenFirst(nodes, topoSortedCommits)
      ensures forall h :: h in topoSortedCommits ==> h in nodes
      ensures Elems(topoSortedCommits) == nodes.Keys <==> Acyclic(nodes)
      ensures topoSortedCommits != [] ==>
        && |nodes[topoSortedCommits[0]].children| == 0
        && forall c :: c in nodes && |nodes[c].children| == 0 ==> LexLe(c, topoSortedCommits[0])
    {
      var sorted := SortCommits(nodes, commits);
      assert topoSortedCommits + sorted == sorted;
      topoSortedCommits := topoSortedCommits + sorted;
    }

    /**
     * The end of `__init__`: build the commit graph, then sort it. A failure
     * leaves the order empty, as the exit on an unreadable object does.
     */
    method Load(objects: ObjectStore) returns (err: Option<BuildError>)
      modifies this
      requires topoSortedCommits == []
      ensures localBranches == old(localBranches)
      ensures forall h :: h in branchHeads <==> h in HeadHashes(localBranches)
      ensures forall h :: h in branchHeads ==> branchHeads[h] == BranchesAt(localBranches, h)
      ensures err.Some? ==> Reached(HeadHashes(localBranches), objects, err.value.commit) && topoSortedCommits == []
      ensures err.Some? && err.value.PackfilesUnsupported? ==> ObjectPath(err.value.commit) !in objects
      ensures err.Some? && err.value.MissingParentHash? ==>
        ObjectPath(err.value.commit) in objects && ParseParents(objects[ObjectPath(err.value.commit)]).None?
      ensures (forall h :: Reached(HeadHashes(localBranches), objects, h) ==> Readable(objects, h)) ==> err.None?
      ensures err.None? ==> WellFormed(Discovery(commits, nodes)) && ParentsAsRead(objects, nodes)
      ensures err.None? ==> forall b :: b in localBranches ==> b.head in nodes
      ensures err.None? ==> DiscoveredFrom(HeadHashes(localBranches), Discovery(commits, nodes))
      ensures err.None? ==> topoSortedCommits == KahnOrder(nodes, commits)
      ensures err.None? ==> NoDup(topoSortedCommits) && ChildrenFirst(nodes, topoSortedCommits)
      ensures err.None? ==> forall h :: h in topoSortedCommits ==> h in nodes
      ensures err.None? ==> (Elems(topoSortedCommits) == nodes.Keys <==> Acyclic(nodes))
      ensures err.None? && topoSortedCommits != [] ==>
        && |nodes[topoSortedCommits[0]].children| == 0
        && forall c :: c in nodes && |nodes[c].children| == 0 ==> LexLe(c, topoSortedCommits[0])
    {
      err := BuildCommitGraph(objects);
      if err.None? {
        TopoSort();
      }
    }

    /**
     * `print(GitRepo())` in `topo_order_commits`, without the printing: load
     * the repository, then render it. The text reads back as the order.
     */
    method Report(objects: ObjectStore, order: SetOrder) returns (err: Option<BuildError>, s: string)
      modifies this
      requires topoSortedCommits == []
      ensures err.Some? ==> Reached(HeadHashes(localBranches), objects, err.value.commit) && s == ""
      ensures err.None? ==> WellFormed(Discovery(commits, nodes)) && topoSortedCommits == KahnOrder(nodes, commits)
      ensures err.None? ==>
        && (forall h :: h in topoSortedCommits ==> h in nodes)
        && s == Rendered(nodes, branchHeads, order, topoSortedCommits)
      ensures err.None? && ListsMembers(order) && PlainNames(branchHeads) && (forall h :: h in nodes ==> HashText(h)) ==>
        Decode(SplitLines(s)) == topoSortedCommits
    {
      err := Load(objects);
      if err.Some? {
        return err, "";
      }
      s := ToString(order);
      if ListsMembers(order) && PlainNames(branchHeads) && (forall h :: h in nodes ==> HashText(h)) {
        RenderedDecodes(nodes, branchHeads, order, topoSortedCommits);
      }
    }

    /** `__str__`: one line per sorted commit, with sticky lines where the lineage breaks and branch names on heads. */
    method ToString(order: SetOrder) returns (s: string)
      requires forall h :: h in topoSortedCommits ==> h in nodes
      ensures s == Rendered(nodes, branchHeads, order, topoSortedCommits)
    {
      var output: seq<string> := [];
      var prev: Option<Hash> := None;
      for i := 0 to |topoSortedCommits|
        invariant |output| == i
        invariant forall k :: 0 <= k < i ==> output[k] == Entry(nodes, branchHeads, order, topoSortedCommits, k)
        invariant prev == if i == 0 then None else Some(topoSortedCommits[i - 1])
      {
        var currentLine := CurrentLine(nodes, branchHeads, order, topoSortedCommits, i, prev);
        output := output + [currentLine];
        prev := Some(topoSortedCommits[i]);
      }
      assert output == Entries(nodes, branchHeads, order, topoSortedCommits);
      return Join(output, "\n");
    }
  }

}
