/**
 * The `branch_heads` table of `GitRepo`: for every hash that some local
 * branch points at, the names of those branches in branch-list order.
 */
module BranchHeads {
  import opened CommitGraph

  /** A local branch together with the hash stored in its head file. */
  datatype BranchRef = BranchRef(name: string, head: Hash)

  /** The hashes the branches point at. */
  function HeadHashes(refs: seq<BranchRef>): (hs: seq<Hash>)
    ensures |hs| == |refs|
    ensures forall i :: 0 <= i < |refs| ==> hs[i] == refs[i].head
  {
    if refs == [] then [] else HeadHashes(refs[..|refs| - 1]) + [refs[|refs| - 1].head]
  }

  /** The names of the branches whose head is `h`, in branch-list order. */
  function BranchesAt(refs: seq<BranchRef>, h: Hash): seq<string>
  {
    if refs == [] then []
    else
      var last := refs[|refs| - 1];
      BranchesAt(refs[..|refs| - 1], h) + (if last.head == h then [last.name] else [])
  }

  /** A name is listed under `h` exactly when some branch of that name has head `h`. */
  lemma {:induction false} BranchesAtMembership(refs: seq<BranchRef>, h: Hash, name: string)
    ensures name in BranchesAt(refs, h) <==> BranchRef(name, h) in refs
  {
    if refs != [] {
      var init := refs[..|refs| - 1];
      BranchesAtMembership(init, h, name);
      assert refs == init + [refs[|refs| - 1]];
    }
  }

  /** A hash no branch points at has no branches listed. */
  lemma {:induction false} BranchesAtUnused(refs: seq<BranchRef>, h: Hash)
    requires h !in HeadHashes(refs)
    ensures BranchesAt(refs, h) == []
  {
    if refs != [] {
      var init := refs[..|refs| - 1];
      assert HeadHashes(refs) == HeadHashes(init) + [refs[|refs| - 1].head];
      BranchesAtUnused(init, h);
    }
  }

  /** The positions in the branch list of the branches whose head is `h`. */
  ghost function HeadIndices(refs: seq<BranchRef>, h: Hash): set<int>
  {
    set i | 0 <= i < |refs| && refs[i].head == h
  }

  /** Appending a branch adds its position exactly when its head is `h`. */
  lemma HeadIndicesStep(refs: seq<BranchRef>, h: Hash)
    requires refs != []
    ensures |HeadIndices(refs, h)| ==
      |HeadIndices(refs[..|refs| - 1], h)| + (if refs[|refs| - 1].head == h then 1 else 0)
  {
    var n := |refs| - 1;
    var init := refs[..n];
    var at := HeadIndices(refs, h);
    var before := HeadIndices(init, h);
    forall i ensures i in at <==> i in before || (i == n && refs[n].head == h) {
      if 0 <= i < n {
        assert refs[i] == init[i];
      }
    }
    if refs[n].head == h {
      assert n !in before;
      assert at == before + {n};
    } else {
      assert at == before;
    }
  }

  /** The list under `h` has one entry per branch whose head is `h`. */
  lemma {:induction false} BranchesAtLength(refs: seq<BranchRef>, h: Hash)
    ensures |BranchesAt(refs, h)| == |HeadIndices(refs, h)|
  {
    if refs != [] {
      BranchesAtLength(refs[..|refs| - 1], h);
      HeadIndicesStep(refs, h);
    }
  }

  /**
   * The grouping loop of `__build_commit_graph`: for each branch and its
   * head, `branch_heads.setdefault(head, []).append(branch)`.
   */
  method GroupBranchHeads(refs: seq<BranchRef>) returns (branchHeads: map<Hash, seq<string>>)
    ensures forall h :: h in branchHeads <==> h in HeadHashes(refs)
    ensures forall h :: h in branchHeads ==> branchHeads[h] == BranchesAt(refs, h)
  {
    branchHeads := map[];
    for i := 0 to |refs|
      invariant forall h :: h in branchHeads <==> h in HeadHashes(refs[..i])
      invariant forall h :: h in branchHeads ==> branchHeads[h] == BranchesAt(refs[..i], h)
    {
      var head, branch := refs[i].head, refs[i].name;
      assert refs[..i + 1][..i] == refs[..i];
      assert HeadHashes(refs[..i + 1]) == HeadHashes(refs[..i]) + [head];
      if head !in branchHeads {
        BranchesAtUnused(refs[..i], head);
      }
      var listed := if head in branchHeads then branchHeads[head] else [];
      branchHeads := branchHeads[head := listed + [branch]];
    }
    assert refs[..|refs|] == refs;
  }
}
