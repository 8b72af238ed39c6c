/**
 * The commit graph built by `populate_tree`: a hash-keyed table of nodes
 * (`existing`), each holding the hashes of its parents and children, and
 * the list of discovered commits in the order the depth-first walk
 * reached them.
 */
module CommitGraph {
  import opened Wrappers
  import opened Strings
  import opened CommitObject

  type Hash = string

  /** The adjacency of one `CommitNode`, by hash. */
  datatype Node = Node(parents: set<Hash>, children: set<Hash>)

  /** The node table: one node per hash. */
  type Graph = map<Hash, Node>

  /** The loose objects under `.git`: object path -> tokens of the inflated object. */
  type ObjectStore = map<string, seq<string>>

  datatype BuildError =
    | PackfilesUnsupported(commit: Hash)  // no loose object file for the commit
    | MissingParentHash(commit: Hash)     // the header ends in a `parent` with no hash after it

  /** What `populate_tree` returns (`commits`) together with the table it filled (`existing`). */
  datatype Discovery = Discovery(commits: seq<Hash>, nodes: Graph)

  function Elems(s: seq<Hash>): set<Hash>
  {
    set x | x in s
  }

  lemma NoDupAppend(s: seq<Hash>, x: Hash)
    requires NoDup(s) && x !in s
    ensures NoDup(s + [x])
  {
  }

  lemma ElemsAppend(s: seq<Hash>, x: Hash)
    ensures Elems(s + [x]) == Elems(s) + {x}
  {
  }

  /**
   * Every edge is recorded at both ends: a parent `p` of node `c` is itself
   * a node listing `c` among its children, and a child `c` of node `p` is
   * itself a node listing `p` among its parents.
   */
  predicate Linked(g: Graph)
  {
    && (forall c, p {:trigger p in g[c].parents} :: c in g && p in g[c].parents ==> p in g && c in g[p].children)
    && (forall c, p {:trigger c in g[p].children} :: p in g && c in g[p].children ==> c in g && p in g[c].parents)
  }

  /** The shape `populate_tree` leaves behind. */
  predicate WellFormed(d: Discovery)
  {
    && NoDup(d.commits)
    && Elems(d.commits) == d.nodes.Keys
    && Linked(d.nodes)
  }

  /** The object of `c` is present and its header parses. */
  predicate Readable(objects: ObjectStore, c: Hash)
  {
    ObjectPath(c) in objects && ParseParents(objects[ObjectPath(c)]).Some?
  }

  /** The parent hashes listed in the object of `c`. */
  function ListedParents(objects: ObjectStore, c: Hash): seq<Hash>
    requires Readable(objects, c)
  {
    ParseParents(objects[ObjectPath(c)]).value
  }

  /** The object of `c` lists `h` as a parent. */
  predicate Names(objects: ObjectStore, c: Hash, h: Hash)
  {
    Readable(objects, c) && h in ListedParents(objects, c)
  }

  /** `path` follows parent links: each commit's object lists the next one as a parent. */
  ghost predicate ParentChain(objects: ObjectStore, path: seq<Hash>)
  {
    forall k :: 0 <= k < |path| - 1 ==> Names(objects, path[k], path[k + 1])
  }

  /** `path` starts at a branch head and follows parent links. */
  ghost predicate FromHead(heads: seq<Hash>, objects: ObjectStore, path: seq<Hash>)
  {
    |path| >= 1 && path[0] in heads && ParentChain(objects, path)
  }

  /** `h` is reached from a branch head by following parent links. */
  ghost predicate Reached(heads: seq<Hash>, objects: ObjectStore, h: Hash)
  {
    exists path :: FromHead(heads, objects, path) && path[|path| - 1] == h
  }

  /** A chain from a head extends by any parent its last commit's object lists. */
  lemma ExtendChain(heads: seq<Hash>, objects: ObjectStore, path: seq<Hash>, h: Hash)
    requires FromHead(heads, objects, path) && Names(objects, path[|path| - 1], h)
    ensures FromHead(heads, objects, path + [h])
  {
    var path' := path + [h];
    forall k | 0 <= k < |path'| - 1 ensures Names(objects, path'[k], path'[k + 1]) {
      if k < |path| - 1 {
        assert path'[k] == path[k] && path'[k + 1] == path[k + 1];
      }
    }
  }

  /** Each node's parents are exactly the hashes its commit object lists. */
  predicate ParentsAsRead(objects: ObjectStore, g: Graph)
  {
    forall c :: c in g ==> Readable(objects, c) && g[c].parents == Elems(ListedParents(objects, c))
  }

  /** `s` is a branch head or a parent of one of `commits`. */
  predicate Announced(heads: seq<Hash>, commits: seq<Hash>, g: Graph, s: Hash)
    requires forall c :: c in commits ==> c in g
  {
    s in heads || exists j :: 0 <= j < |commits| && s in g[commits[j]].parents
  }

  /** Every discovered commit is a head or a parent of a commit discovered before it. */
  predicate DiscoveredFrom(heads: seq<Hash>, d: Discovery)
    requires forall c :: c in d.commits ==> c in d.nodes
  {
    forall k :: 0 <= k < |d.commits| ==> Announced(heads, d.commits[..k], d.nodes, d.commits[k])
  }

  /** Every node of `g` is in `g'` with at least the same parents. */
  predicate ParentsGrow(g: Graph, g': Graph)
  {
    forall c :: c in g ==> c in g' && g[c].parents <= g'[c].parents
  }

  lemma AnnouncedGrows(heads: seq<Hash>, commits: seq<Hash>, commits': seq<Hash>, g: Graph, g': Graph, s: Hash)
    requires forall c :: c in commits ==> c in g
    requires ParentsGrow(g, g') && commits <= commits'
    requires forall c :: c in commits' ==> c in g'
    requires Announced(heads, commits, g, s)
    ensures Announced(heads, commits', g', s)
  {
    if s !in heads {
      var j :| 0 <= j < |commits| && s in g[commits[j]].parents;
      assert commits'[j] == commits[j];
    }
  }

  /** Python's dict built from the heads, read back as `list(existing.values())`: each head once. */
  function Distinct(s: seq<Hash>): (r: seq<Hash>)
    ensures NoDup(r)
    ensures forall x :: x in r <==> x in s
  {
    if s == [] then []
    else
      var d := Distinct(s[..|s| - 1]);
      var x := s[|s| - 1];
      assert s == s[..|s| - 1] + [x];
      if x in d then d else d + [x]
  }

  /** `parent.children.add(current)` followed by `current.parents.add(parent)`. */
  function Link(g: Graph, child: Hash, parent: Hash): (g': Graph)
    requires child in g && parent in g
    ensures g'.Keys == g.Keys
    ensures forall h :: h in g ==> g'[h].parents == g[h].parents + (if h == child then {parent} else {})
    ensures forall h :: h in g ==> g'[h].children == g[h].children + (if h == parent then {child} else {})
  {
    var g1 := g[parent := g[parent].(children := g[parent].children + {child})];
    g1[child := g1[child].(parents := g1[child].parents + {parent})]
  }

  /** `existing[h] = CommitNode(h)`: a node with no edges yet. */
  function AddNode(g: Graph, h: Hash): (g': Graph)
    requires h !in g
    ensures g'.Keys == g.Keys + {h}
    ensures g'[h] == Node({}, {})
    ensures forall c :: c in g ==> g'[c] == g[c]
  {
    g[h := Node({}, {})]
  }

  /** The facts the depth-first walk keeps between two pops. */
  ghost predicate Walk(heads: seq<Hash>, objects: ObjectStore, commits: seq<Hash>, existing: Graph, stack: seq<Hash>)
  {
    && NoDup(commits)
    && (forall c :: c in commits ==> c in existing)
    && (forall c :: c in existing ==> c in commits || c in stack)
    && (forall c :: c in stack ==> c in existing)
    && (forall h :: h in heads ==> h in existing)
    && Linked(existing)
    && (forall c :: c in existing ==> existing[c].children <= Elems(commits))
    && (forall c :: c in existing && c !in commits ==> existing[c].parents == {})
    && (forall c :: c in commits ==> Readable(objects, c) && existing[c].parents == Elems(ListedParents(objects, c)))
    && DiscoveredFrom(heads, Discovery(commits, existing))
    && (forall s :: s in stack ==> Announced(heads, commits, existing, s))
  }

  /**
   * `g` is `existing` after linking `current` to each hash of `ps`: the
   * new hashes have nodes, `current` gained `ps` as parents, each hash of
   * `ps` gained `current` as a child, and nothing else changed.
   */
  ghost predicate Attached(existing: Graph, current: Hash, ps: set<Hash>, g: Graph)
    requires current in existing
  {
    && (forall c :: c in g <==> c in existing || c in ps)
    && current in g
    && (forall c :: c in g[current].parents <==> c in existing[current].parents || c in ps)
    && (forall c :: c in g && c != current ==>
         g[c].parents == (if c in existing then existing[c].parents else {}))
    && (forall c :: c in g ==>
         g[c].children == (if c in existing then existing[c].children else {})
           + (if c in ps then {current} else {}))
  }

  lemma AttachedStep(existing: Graph, current: Hash, ps: set<Hash>, p: Hash, g: Graph, g': Graph)
    requires current in existing && Attached(existing, current, ps, g)
    requires p in g'
    requires g' == Link(if p in g then g else AddNode(g, p), current, p)
    ensures Attached(existing, current, ps + {p}, g')
  {
    if p in g {
      LinkedStep(existing, current, ps, p, g, g');
    } else {
      var g1 := AddNode(g, p);
      assert forall c :: c in g1 && c != p ==> g1[c] == g[c];
      LinkedStep(existing, current, ps, p, g1, g');
    }
  }

  /**
   * Linking `current` to `p` in a table that is `Attached` to `ps` apart
   * from a node for `p` gives a table `Attached` to `ps` and `p`.
   */
  lemma LinkedStep(existing: Graph, current: Hash, ps: set<Hash>, p: Hash, g: Graph, g': Graph)
    requires current in existing && current in g && p in g
    requires forall c :: c in g <==> c in existing || c in ps || c == p
    requires forall c :: c in g[current].parents <==> c in existing[current].parents || c in ps
    requires forall c :: c in g && c != current ==>
      g[c].parents == (if c in existing then existing[c].parents else {})
    requires forall c :: c in g ==>
      g[c].children == (if c in existing then existing[c].children else {}) + (if c in ps then {current} else {})
    requires g' == Link(g, current, p)
    ensures Attached(existing, current, ps + {p}, g')
  {
    assert g'.Keys == g.Keys;
    assert g'[current].parents == g[current].parents + {p};
    forall c | c in g' && c != current
      ensures g'[c].parents == (if c in existing then existing[c].parents else {})
    {
      assert g'[c].parents == g[c].parents;
    }
    forall c | c in g' ensures g'[c].children == (if c in existing then existing[c].children else {})
        + (if c in ps + {p} then {current} else {})
    {
      assert g'[c].children == g[c].children + (if c == p then {current} else {});
    }
  }

  /** Linking a well-shaped table to new parents keeps it symmetric and closed. */
  lemma AttachedShape(existing: Graph, current: Hash, ps: set<Hash>, g: Graph)
    requires current in existing && Linked(existing)
    requires Attached(existing, current, ps, g)
    ensures Linked(g)
  {
  }

  lemma TakeOneMore(s: seq<Hash>, j: int)
    requires 0 <= j < |s|
    ensures s[..j + 1] == s[..j] + [s[j]]
  {
  }

  /** One turn of the inner loop of `populate_tree` keeps its invariants. */
  lemma AttachTurn(existing: Graph, current: Hash, parentHashes: seq<Hash>, j: int, g: Graph, linked: Graph,
                   dfsStack: seq<Hash>, stack: seq<Hash>)
    requires 0 <= j < |parentHashes| && current in existing
    requires Attached(existing, current, Elems(parentHashes[..j]), g)
    requires stack == dfsStack + parentHashes[..j]
    requires parentHashes[j] in g ==> linked == Link(g, current, parentHashes[j])
    requires parentHashes[j] !in g ==> linked == Link(AddNode(g, parentHashes[j]), current, parentHashes[j])
    ensures Attached(existing, current, Elems(parentHashes[..j + 1]), linked)
    ensures stack + [parentHashes[j]] == dfsStack + parentHashes[..j + 1]
  {
    var p := parentHashes[j];
    var before := Elems(parentHashes[..j]);
    TakeOneMore(parentHashes, j);
    ElemsAppend(parentHashes[..j], p);
    assert Elems(parentHashes[..j + 1]) == before + {p};
    AttachedStep(existing, current, before, p, g, linked);
    Associative(dfsStack, parentHashes[..j], [p]);
  }

  /**
   * The inner loop of `populate_tree`: for each listed parent hash, reuse
   * or create its node, link it to `current` both ways and push it.
   */
  method AttachParents(existing: Graph, dfsStack: seq<Hash>, current: Hash, parentHashes: seq<Hash>)
    returns (g: Graph, stack: seq<Hash>)
    requires current in existing
    ensures Attached(existing, current, Elems(parentHashes), g)
    ensures stack == dfsStack + parentHashes
  {
    g, stack := existing, dfsStack;
    assert parentHashes[..0] == [];
    for j := 0 to |parentHashes|
      invariant Attached(existing, current, Elems(parentHashes[..j]), g)
      invariant stack == dfsStack + parentHashes[..j]
    {
      var parentHash := parentHashes[j];
      var withParent := if parentHash in g then g else AddNode(g, parentHash);
      var linked := Link(withParent, current, parentHash);
      AttachTurn(existing, current, parentHashes, j, g, linked, dfsStack, stack);
      g := linked;
      stack := stack + [parentHash];
    }
    assert parentHashes[..|parentHashes|] == parentHashes;
  }

  /** Recording a new commit and attaching its parents keeps the walk's facts. */
  lemma WalkVisit(heads: seq<Hash>, objects: ObjectStore, commits: seq<Hash>, existing: Graph,
                  rest: seq<Hash>, current: Hash, g: Graph, stack: seq<Hash>)
    requires Walk(heads, objects, commits, existing, rest + [current])
    requires current !in commits && Readable(objects, current)
    requires current in existing && Attached(existing, current, Elems(ListedParents(objects, current)), g)
    requires stack == rest + ListedParents(objects, current)
    ensures Walk(heads, objects, commits + [current], g, stack)
  {
    NoDupAppend(commits, current);
    AttachedShape(existing, current, Elems(ListedParents(objects, current)), g);
    VisitNodes(heads, objects, commits, existing, rest, current, g, stack);
    VisitEdges(heads, objects, commits, existing, rest, current, g, stack);
    VisitAnnounced(heads, objects, commits, existing, rest, current, g, stack);
  }

  /** After a visit the table holds the commits, the stack and the heads, and nothing else. */
  lemma VisitNodes(heads: seq<Hash>, objects: ObjectStore, commits: seq<Hash>, existing: Graph,
                   rest: seq<Hash>, current: Hash, g: Graph, stack: seq<Hash>)
    requires Walk(heads, objects, commits, existing, rest + [current])
    requires current !in commits && Readable(objects, current)
    requires current in existing && Attached(existing, current, Elems(ListedParents(objects, current)), g)
    requires stack == rest + ListedParents(objects, current)
    ensures forall c :: c in commits + [current] ==> c in g
    ensures forall c :: c in g ==> c in commits + [current] || c in stack
    ensures forall c :: c in stack ==> c in g
    ensures forall h :: h in heads ==> h in g
  {
    forall c | c in g ensures c in commits + [current] || c in stack {
      if c in existing && c != current {
        assert c in commits || c in rest + [current];
      }
    }
  }

  /** After a visit the edges are those of the commits read so far. */
  lemma VisitEdges(heads: seq<Hash>, objects: ObjectStore, commits: seq<Hash>, existing: Graph,
                   rest: seq<Hash>, current: Hash, g: Graph, stack: seq<Hash>)
    requires Walk(heads, objects, commits, existing, rest + [current])
    requires current !in commits && Readable(objects, current)
    requires current in existing && Attached(existing, current, Elems(ListedParents(objects, current)), g)
    requires stack == rest + ListedParents(objects, current)
    ensures forall c :: c in g ==> g[c].children <= Elems(commits + [current])
    ensures forall c :: c in g && c !in commits + [current] ==> g[c].parents == {}
    ensures forall c :: c in commits + [current] ==>
      Readable(objects, c) && g[c].parents == Elems(ListedParents(objects, c))
  {
    ElemsAppend(commits, current);
  }

  /** After a visit every stacked hash, and every commit in turn, is still announced. */
  lemma VisitAnnounced(heads: seq<Hash>, objects: ObjectStore, commits: seq<Hash>, existing: Graph,
                       rest: seq<Hash>, current: Hash, g: Graph, stack: seq<Hash>)
    requires Walk(heads, objects, commits, existing, rest + [current])
    requires current !in commits && Readable(objects, current)
    requires current in existing && Attached(existing, current, Elems(ListedParents(objects, current)), g)
    requires stack == rest + ListedParents(objects, current)
    ensures forall s :: s in stack ==> Announced(heads, commits + [current], g, s)
    ensures forall k :: 0 <= k < |commits| + 1 ==> Announced(heads, (commits + [current])[..k], g, (commits + [current])[k])
  {
    var commits' := commits + [current];
    var ps := ListedParents(objects, current);
    AttachedShape(existing, current, Elems(ps), g);
    assert ParentsGrow(existing, g);
    forall s | s in stack ensures Announced(heads, commits', g, s) {
      if s in rest {
        assert s in rest + [current];
        AnnouncedGrows(heads, commits, commits', existing, g, s);
      } else {
        assert s in ps && commits'[|commits|] == current;
      }
    }
    forall k | 0 <= k < |commits'| ensures Announced(heads, commits'[..k], g, commits'[k]) {
      if k < |commits| {
        assert commits'[..k] == commits[..k];
        AnnouncedGrows(heads, commits[..k], commits[..k], existing, g, commits[k]);
      } else {
        assert commits'[..k] == commits;
        assert current in rest + [current];
        AnnouncedGrows(heads, commits, commits, existing, g, current);
      }
    }
  }

  /** Every discovered commit is reached from a head along parent links. */
  lemma {:induction false} DiscoveredReached(heads: seq<Hash>, objects: ObjectStore, commits: seq<Hash>,
                                             existing: Graph, k: int)
    requires forall c :: c in commits ==> c in existing
    requires forall c :: c in commits ==>
      Readable(objects, c) && existing[c].parents == Elems(ListedParents(objects, c))
    requires DiscoveredFrom(heads, Discovery(commits, existing))
    requires 0 <= k < |commits|
    ensures Reached(heads, objects, commits[k])
    decreases k
  {
    var s := commits[k];
    assert Announced(heads, commits[..k], existing, s);
    if s in heads {
      assert FromHead(heads, objects, [s]);
    } else {
      var j :| 0 <= j < k && s in existing[commits[..k][j]].parents;
      var c := commits[j];
      assert commits[..k][j] == c;
      DiscoveredReached(heads, objects, commits, existing, j);
      var path :| FromHead(heads, objects, path) && path[|path| - 1] == c;
      assert Names(objects, c, s);
      ExtendChain(heads, objects, path, s);
      assert (path + [s])[|path + [s]| - 1] == s;
    }
  }

  /** A hash on the stack is reached from a head along parent links. */
  lemma AnnouncedReached(heads: seq<Hash>, objects: ObjectStore, commits: seq<Hash>, existing: Graph, s: Hash)
    requires forall c :: c in commits ==> c in existing
    requires forall c :: c in commits ==>
      Readable(objects, c) && existing[c].parents == Elems(ListedParents(objects, c))
    requires DiscoveredFrom(heads, Discovery(commits, existing))
    requires Announced(heads, commits, existing, s)
    ensures Reached(heads, objects, s)
  {
    if s in heads {
      assert FromHead(heads, objects, [s]);
    } else {
      var j :| 0 <= j < |commits| && s in existing[commits[j]].parents;
      var c := commits[j];
      DiscoveredReached(heads, objects, commits, existing, j);
      var path :| FromHead(heads, objects, path) && path[|path| - 1] == c;
      assert Names(objects, c, s);
      ExtendChain(heads, objects, path, s);
      assert (path + [s])[|path + [s]| - 1] == s;
    }
  }

  /** The object paths of a set of commits. */
  function Paths(hashes: set<Hash>): set<string>
  {
    set h | h in hashes :: ObjectPath(h)
  }

  /** Reading one more commit's object adds exactly its (new) path. */
  lemma PathsGrow(visited: set<Hash>, h: Hash)
    requires h !in visited
    ensures Paths(visited + {h}) == Paths(visited) + {ObjectPath(h)}
    ensures ObjectPath(h) !in Paths(visited)
  {
    if ObjectPath(h) in Paths(visited) {
      var v :| v in visited && ObjectPath(v) == ObjectPath(h);
      ObjectPathInjective(v, h);
    }
  }

  /** Distinct commits have distinct object paths, so there are as many paths as commits. */
  lemma {:induction false} PathsCardinality(hashes: set<Hash>)
    ensures |Paths(hashes)| == |hashes|
    decreases hashes
  {
    if hashes != {} {
      var h :| h in hashes;
      var rest := hashes - {h};
      assert rest + {h} == hashes;
      PathsCardinality(rest);
      PathsGrow(rest, h);
      assert |Paths(rest) + {ObjectPath(h)}| == |Paths(rest)| + 1;
    }
  }

  /** The walk reads each object at most once, so it reads no more commits than there are objects. */
  lemma ReadBound(objects: ObjectStore, commits: seq<Hash>)
    requires forall c :: c in commits ==> Readable(objects, c)
    ensures |Elems(commits)| <= |objects.Keys|
  {
    var visited := Elems(commits);
    PathsCardinality(visited);
    var read := Paths(visited);
    assert read <= objects.Keys;
    assert objects.Keys == read + (objects.Keys - read);
  }

  /** Popping a commit already visited keeps the walk's facts. */
  lemma WalkSkip(heads: seq<Hash>, objects: ObjectStore, commits: seq<Hash>, existing: Graph, stack: seq<Hash>)
    requires |stack| > 0 && Walk(heads, objects, commits, existing, stack)
    requires stack[|stack| - 1] in commits
    ensures Walk(heads, objects, commits, existing, stack[..|stack| - 1])
  {
    assert stack == stack[..|stack| - 1] + [stack[|stack| - 1]];
  }

  /** Popping a new commit, reading it and attaching its parents keeps the walk's facts. */
  lemma WalkPop(heads: seq<Hash>, objects: ObjectStore, commits: seq<Hash>, existing: Graph, stack: seq<Hash>,
                g: Graph, stack': seq<Hash>)
    requires |stack| > 0 && Walk(heads, objects, commits, existing, stack)
    requires stack[|stack| - 1] !in commits && Readable(objects, stack[|stack| - 1])
    requires Attached(existing, stack[|stack| - 1], Elems(ListedParents(objects, stack[|stack| - 1])), g)
    requires stack' == stack[..|stack| - 1] + ListedParents(objects, stack[|stack| - 1])
    ensures Walk(heads, objects, commits + [stack[|stack| - 1]], g, stack')
    ensures Reached(heads, objects, stack[|stack| - 1])
  {
    var current := stack[|stack| - 1];
    assert stack == stack[..|stack| - 1] + [current];
    WalkVisit(heads, objects, commits, existing, stack[..|stack| - 1], current, g, stack');
    AnnouncedReached(heads, objects, commits, existing, current);
  }

  /** A popped commit whose object cannot be read is still one the walk was led to. */
  lemma WalkPopFails(heads: seq<Hash>, objects: ObjectStore, commits: seq<Hash>, existing: Graph, stack: seq<Hash>)
    requires |stack| > 0 && Walk(heads, objects, commits, existing, stack)
    ensures Reached(heads, objects, stack[|stack| - 1])
  {
    AnnouncedReached(heads, objects, commits, existing, stack[|stack| - 1]);
  }

  /** The table of edgeless head nodes and the stack of distinct heads start the walk. */
  lemma WalkStart(heads: seq<Hash>, objects: ObjectStore)
    ensures Walk(heads, objects, [], map h | h in heads :: Node({}, {}), Distinct(heads))
  {
  }

  /** Once the stack is empty the walk's facts give everything `populate_tree` promises. */
  lemma WalkDone(heads: seq<Hash>, objects: ObjectStore, commits: seq<Hash>, existing: Graph)
    requires Walk(heads, objects, commits, existing, [])
    ensures WellFormed(Discovery(commits, existing)) && ParentsAsRead(objects, existing)
    ensures forall h :: h in heads ==> h in existing
    ensures DiscoveredFrom(heads, Discovery(commits, existing))
  {
    assert Elems(commits) == existing.Keys;
  }

  /**
   * Nothing is missed: every commit reached from a branch head by following
   * parent links was discovered.
   */
  lemma {:induction false} ChainDiscovered(heads: seq<Hash>, objects: ObjectStore, d: Discovery, path: seq<Hash>)
    requires WellFormed(d) && ParentsAsRead(objects, d.nodes)
    requires forall h :: h in heads ==> h in d.nodes
    requires FromHead(heads, objects, path)
    ensures path[|path| - 1] in d.commits
  {
    var n := |path| - 1;
    if n > 0 {
      var init := path[..n];
      assert ParentChain(objects, init) by {
        forall k | 0 <= k < |init| - 1 ensures Names(objects, init[k], init[k + 1]) {
          assert init[k] == path[k] && init[k + 1] == path[k + 1];
        }
      }
      assert FromHead(heads, objects, init);
      ChainDiscovered(heads, objects, d, init);
      var c := path[n - 1];
      assert Names(objects, c, path[n]);
      assert c in d.nodes;
      assert path[n] in d.nodes[c].parents;
    }
    assert path[n] in d.nodes;
    assert path[n] in Elems(d.commits);
  }

  /**
   * One pass of the walk's loop body for a commit not seen before: read its
   * object, give up on a missing object or a header ending in `parent`,
   * otherwise attach its parents and push them.
   */
  method Visit(heads: seq<Hash>, objects: ObjectStore, commits: seq<Hash>, existing: Graph, popped: seq<Hash>)
    returns (r: Result<(Graph, seq<Hash>), BuildError>)
    requires |popped| > 0 && Walk(heads, objects, commits, existing, popped)
    requires popped[|popped| - 1] !in commits
    ensures r.Failure? ==> r.error.commit == popped[|popped| - 1]
    ensures r.Failure? ==> Reached(heads, objects, popped[|popped| - 1])
    ensures r.Failure? && r.error.PackfilesUnsupported? ==> ObjectPath(r.error.commit) !in objects
    ensures r.Failure? && r.error.MissingParentHash? ==>
      ObjectPath(r.error.commit) in objects && ParseParents(objects[ObjectPath(r.error.commit)]).None?
    ensures r.Success? <==> Readable(objects, popped[|popped| - 1])
    ensures r.Success? ==> Walk(heads, objects, commits + [popped[|popped| - 1]], r.value.0, r.value.1)
  {
    var current := popped[|popped| - 1];
    WalkPopFails(heads, objects, commits, existing, popped);
    var path := ObjectPath(current);
    if path !in objects {
      return Failure(PackfilesUnsupported(current));
    }
    var parsed := ScanParents(objects[path]);
    if parsed.None? {
      return Failure(MissingParentHash(current));
    }
    var g, stack := AttachParents(existing, popped[..|popped| - 1], current, parsed.value);
    WalkPop(heads, objects, commits, existing, popped, g, stack);
    return Success((g, stack));
  }

  /**
   * `populate_tree`: a depth-first walk with an explicit stack from the
   * branch heads. Each newly popped commit is recorded, its object is read,
   * and each listed parent is found in (or added to) the table, linked both
   * ways and pushed.
   */
  method PopulateTree(heads: seq<Hash>, objects: ObjectStore) returns (r: Result<Discovery, BuildError>)
    ensures r.Success? ==> WellFormed(r.value) && ParentsAsRead(objects, r.value.nodes)
    ensures r.Success? ==> forall h :: h in heads ==> h in r.value.nodes
    ensures r.Success? ==> DiscoveredFrom(heads, r.value)
    ensures r.Failure? ==> Reached(heads, objects, r.error.commit)
    ensures (forall h :: Reached(heads, objects, h) ==> Readable(objects, h)) ==> r.Success?
    ensures r.Failure? && r.error.PackfilesUnsupported? ==> ObjectPath(r.error.commit) !in objects
    ensures r.Failure? && r.error.MissingParentHash? ==>
      ObjectPath(r.error.commit) in objects && ParseParents(objects[ObjectPath(r.error.commit)]).None?
  {
    var commits: seq<Hash> := [];
    var existing: Graph := map h | h in heads :: Node({}, {});
    var dfsStack := Distinct(heads);
    var visited: set<Hash> := {};
    WalkStart(heads, objects);

    while dfsStack != []
      invariant Walk(heads, objects, commits, existing, dfsStack)
      invariant visited == Elems(commits)
      invariant |visited| <= |objects.Keys|
      decreases |objects.Keys| - |visited|, |dfsStack|
    {
      var popped := dfsStack;
      var current := dfsStack[|dfsStack| - 1];
      dfsStack := dfsStack[..|dfsStack| - 1];
      if current in visited {
        WalkSkip(heads, objects, commits, existing, popped);
        continue;
      }
      var step := Visit(heads, objects, commits, existing, popped);
      if step.Failure? {
        return Failure(step.error);
      }
      ReadBound(objects, commits + [current]);
      ElemsAppend(commits, current);
      visited := visited + {current};
      commits := commits + [current];
      existing, dfsStack := step.value.0, step.value.1;
    }
    WalkDone(heads, objects, commits, existing);
    return Success(Discovery(commits, existing));
  }
}
