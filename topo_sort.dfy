/**
 * The facts behind `__topo_sort`: Kahn's algorithm driven by each commit's
 * count of children not yet emitted, with a last-in-first-out frontier.
 * The loop is `SortCommits`; `KahnOrder` is the order it produces, and
 * the lemmas carry its invariant from one step to the next.
 */
module TopoSort {
  import opened Strings
  import opened CommitGraph

  /** Each emitted commit is a node and comes after all of its children. */
  ghost predicate ChildrenFirst(g: Graph, out: seq<Hash>)
  {
    forall k :: 0 <= k < |out| ==> out[k] in g && g[out[k]].children <= Elems(out[..k])
  }

  /** `gen` ranks every node strictly above each of its parents. */
  ghost predicate Ranked(g: Graph, gen: map<Hash, nat>)
  {
    && g.Keys <= gen.Keys
    && forall c, p {:trigger p in g[c].parents} :: c in g && p in g[c].parents ==> p in gen && gen[p] < gen[c]
  }

  /** Following parent links never returns to where it started: some ranking exists. */
  ghost predicate Acyclic(g: Graph)
  {
    exists gen :: Ranked(g, gen)
  }

  /**
   * What the state between two pops says about one commit `c`, given the set
   * of commits emitted so far: its count is its number of children not yet
   * emitted (none once it is emitted itself), and it is on the stack exactly
   * when it is not emitted but all of its children are.
   */
  ghost predicate Settled(g: Graph, emitted: set<Hash>, counts: map<Hash, int>, stack: seq<Hash>, c: Hash)
  {
    && c in g && c in counts
    && counts[c] == |g[c].children - emitted|
    && (c in emitted ==> counts[c] == 0)
    && (c in stack <==> c !in emitted && g[c].children <= emitted)
  }

  /** The state between two pops: every commit is settled and the stack holds each one once. */
  ghost predicate Frontier(g: Graph, emitted: set<Hash>, counts: map<Hash, int>, stack: seq<Hash>)
  {
    && NoDup(stack)
    && counts.Keys == g.Keys
    && (forall c :: c in stack ==> c in g)
    && (forall c :: c in g ==> Settled(g, emitted, counts, stack, c))
  }

  /**
   * The children that count as emitted for `c` while the parents of the
   * popped commit `current` are being released: those in `done` already had
   * their count decremented, as if `current` were emitted for them alone.
   */
  function Credited(emitted: set<Hash>, current: Hash, released: bool): set<Hash>
  {
    if released then emitted + {current} else emitted
  }

  /** What the state says about `c` while the parents of `current` are being released. */
  ghost predicate Settling(g: Graph, emitted: set<Hash>, current: Hash, done: set<Hash>,
                           counts: map<Hash, int>, stack: seq<Hash>, c: Hash)
  {
    && c in g && c in counts
    && counts[c] == |g[c].children - Credited(emitted, current, c in done)|
    && (c in emitted ==> counts[c] == 0)
    && (c in stack <==> c != current && c !in emitted && g[c].children <= Credited(emitted, current, c in done))
  }

  /** The state while the parents of the popped commit `current` are being released. */
  ghost predicate Releasing(g: Graph, emitted: set<Hash>, current: Hash, done: set<Hash>,
                            counts: map<Hash, int>, stack: seq<Hash>)
  {
    && current in g
    && current !in emitted
    && g[current].children <= emitted
    && NoDup(stack)
    && counts.Keys == g.Keys
    && current !in stack
    && (forall c :: c in stack ==> c in g)
    && (forall c :: c in g ==> Settling(g, emitted, current, done, counts, stack, c))
  }

  /** The parents, in the order given, whose last pending child is `current`. */
  ghost function Freed(g: Graph, emitted: set<Hash>, current: Hash, parents: seq<Hash>): seq<Hash>
  {
    if parents == [] then []
    else
      var p := parents[|parents| - 1];
      Freed(g, emitted, current, parents[..|parents| - 1])
        + (if p in g && g[p].children <= emitted + {current} then [p] else [])
  }

  lemma FreedStep(g: Graph, emitted: set<Hash>, current: Hash, parents: seq<Hash>, j: int)
    requires 0 <= j < |parents|
    ensures Freed(g, emitted, current, parents[..j + 1]) == Freed(g, emitted, current, parents[..j])
      + (if parents[j] in g && g[parents[j]].children <= emitted + {current} then [parents[j]] else [])
  {
    assert parents[..j + 1][..j] == parents[..j];
  }

  lemma ElemsNoDupCardinality(s: seq<Hash>)
    requires NoDup(s)
    ensures |Elems(s)| == |s|
  {
    if s != [] {
      var init := s[..|s| - 1];
      ElemsNoDupCardinality(init);
      assert s == init + [s[|s| - 1]];
      ElemsAppend(init, s[|s| - 1]);
    }
  }

  /** Emitting a commit whose children were all emitted keeps children first. */
  lemma ChildrenFirstAppend(g: Graph, out: seq<Hash>, current: Hash)
    requires ChildrenFirst(g, out) && current in g && g[current].children <= Elems(out)
    ensures ChildrenFirst(g, out + [current])
  {
    var out' := out + [current];
    forall k | 0 <= k < |out'| ensures out'[k] in g && g[out'[k]].children <= Elems(out'[..k]) {
      if k < |out| {
        assert out'[..k] == out[..k];
      } else {
        assert out'[..k] == out;
      }
    }
  }

  /** Popping the last commit of the stack starts its release. */
  lemma PopStarts(g: Graph, emitted: set<Hash>, counts: map<Hash, int>, stack: seq<Hash>)
    requires Frontier(g, emitted, counts, stack) && stack != []
    ensures Releasing(g, emitted, stack[|stack| - 1], {}, counts, stack[..|stack| - 1])
  {
    var current := stack[|stack| - 1];
    var rest := stack[..|stack| - 1];
    assert stack == rest + [current];
    assert Settled(g, emitted, counts, stack, current);
    forall c | c in g ensures Settling(g, emitted, current, {}, counts, rest, c) {
      PopStartsAt(g, emitted, counts, stack, c);
    }
  }

  lemma PopStartsAt(g: Graph, emitted: set<Hash>, counts: map<Hash, int>, stack: seq<Hash>, c: Hash)
    requires NoDup(stack) && stack != [] && Settled(g, emitted, counts, stack, c)
    ensures Settling(g, emitted, stack[|stack| - 1], {}, counts, stack[..|stack| - 1], c)
  {
    var rest := stack[..|stack| - 1];
    assert stack == rest + [stack[|stack| - 1]];
    assert c in rest <==> c != stack[|stack| - 1] && c in stack;
  }

  /** Decrementing the count of one parent of `current`, and pushing it when it reaches zero. */
  lemma ReleaseStep(g: Graph, emitted: set<Hash>, current: Hash, done: set<Hash>,
                    counts: map<Hash, int>, stack: seq<Hash>, p: Hash)
    requires Releasing(g, emitted, current, done, counts, stack)
    requires p in g && current in g[p].children && p !in done
    ensures p != current && counts[p] >= 1
    ensures counts[p] == 1 <==> g[p].children <= emitted + {current}
    ensures var counts' := counts[p := counts[p] - 1];
      var stack' := if counts'[p] == 0 then stack + [p] else stack;
      Releasing(g, emitted, current, done + {p}, counts', stack')
  {
    assert p != current;
    ReleaseCount(g, emitted, current, done, counts, stack, p);
    var counts' := counts[p := counts[p] - 1];
    var stack' := if counts'[p] == 0 then stack + [p] else stack;
    if counts'[p] == 0 {
      NoDupAppend(stack, p);
    }
    forall c | c in g ensures Settling(g, emitted, current, done + {p}, counts', stack', c) {
      ReleaseAt(g, emitted, current, done, counts, stack, p, c);
    }
  }

  /** The count of `p` before the decrement, and whether it is on the stack. */
  lemma ReleaseCount(g: Graph, emitted: set<Hash>, current: Hash, done: set<Hash>,
                     counts: map<Hash, int>, stack: seq<Hash>, p: Hash)
    requires current !in emitted
    requires Settling(g, emitted, current, done, counts, stack, p)
    requires current in g[p].children && p !in done
    ensures counts[p] >= 1 && p !in emitted && p !in stack
    ensures counts[p] == 1 <==> g[p].children <= emitted + {current}
    ensures counts[p] - 1 == |g[p].children - (emitted + {current})|
  {
    var before := g[p].children - emitted;
    var after := g[p].children - (emitted + {current});
    assert current in before && after == before - {current};
    assert |after| == |before| - 1;
    assert after == {} <==> g[p].children <= emitted + {current};
  }

  /** The effect of releasing `p` on what the state says about commit `c`. */
  lemma ReleaseAt(g: Graph, emitted: set<Hash>, current: Hash, done: set<Hash>,
                  counts: map<Hash, int>, stack: seq<Hash>, p: Hash, c: Hash)
    requires current !in emitted && current !in stack
    requires Settling(g, emitted, current, done, counts, stack, c)
    requires Settling(g, emitted, current, done, counts, stack, p)
    requires current in g[p].children && p !in done && p != current
    ensures var counts' := counts[p := counts[p] - 1];
      var stack' := if counts'[p] == 0 then stack + [p] else stack;
      Settling(g, emitted, current, done + {p}, counts', stack', c)
  {
    ReleaseCount(g, emitted, current, done, counts, stack, p);
    if c == p {
      assert Credited(emitted, current, true) == emitted + {current};
    } else {
      assert (c in done + {p}) == (c in done);
      assert c in stack + [p] <==> c in stack;
    }
  }

  /** Once every parent is released, `current` counts as emitted. */
  lemma PopEnds(g: Graph, emitted: set<Hash>, current: Hash, counts: map<Hash, int>, stack: seq<Hash>)
    requires Linked(g) && current in g && Releasing(g, emitted, current, g[current].parents, counts, stack)
    ensures Frontier(g, emitted + {current}, counts, stack)
  {
    forall c | c in g ensures Settled(g, emitted + {current}, counts, stack, c) {
      assert current in g[c].children ==> c in g[current].parents;
      PopEndsAt(g, emitted, current, counts, stack, c);
    }
  }

  lemma PopEndsAt(g: Graph, emitted: set<Hash>, current: Hash, counts: map<Hash, int>, stack: seq<Hash>, c: Hash)
    requires current in g && current !in emitted && g[current].children <= emitted && current !in stack
    requires Settling(g, emitted, current, g[current].parents, counts, stack, c)
    requires current in g[c].children ==> c in g[current].parents
    ensures Settled(g, emitted + {current}, counts, stack, c)
  {
    var emitted' := emitted + {current};
    if c in g[current].parents {
      assert Credited(emitted, current, true) == emitted';
    } else {
      assert g[c].children - emitted' == g[c].children - emitted;
    }
  }

  /** Where `x` first occurs in `s`. */
  function Position(s: seq<Hash>, x: Hash): (i: nat)
    requires x in s
    ensures i < |s| && s[i] == x
    ensures forall j :: 0 <= j < i ==> s[j] != x
  {
    if s[0] == x then 0 else 1 + Position(s[1..], x)
  }

  /** A commit of greatest rank among the nonempty set `s`. */
  lemma {:induction false} MaxRanked(s: set<Hash>, gen: map<Hash, nat>) returns (m: Hash)
    requires s != {} && s <= gen.Keys
    ensures m in s && forall x :: x in s ==> gen[x] <= gen[m]
    decreases |s|
  {
    var x :| x in s;
    if s == {x} {
      m := x;
    } else {
      var m' := MaxRanked(s - {x}, gen);
      m := if gen[x] <= gen[m'] then m' else x;
    }
  }

  /**
   * On a ranked graph Kahn's algorithm leaves nothing behind: once the
   * frontier is empty, every commit has been emitted.
   */
  lemma Exhausted(g: Graph, emitted: set<Hash>, counts: map<Hash, int>, gen: map<Hash, nat>)
    requires Linked(g) && Ranked(g, gen) && Frontier(g, emitted, counts, [])
    ensures g.Keys <= emitted
  {
    if !(g.Keys <= emitted) {
      var x :| x in g && x !in emitted;
      var pending := g.Keys - emitted;
      assert x in pending;
      var m := MaxRanked(pending, gen);
      forall d | d in g[m].children ensures d in emitted {
        assert d in g && m in g[d].parents;
        assert gen[m] < gen[d];
      }
      assert false;
    }
  }

  /** An order that emits every commit after its children ranks the graph: it has no cycle. */
  lemma OrderRanks(g: Graph, out: seq<Hash>)
    requires Linked(g) && NoDup(out) && ChildrenFirst(g, out) && g.Keys <= Elems(out)
    ensures Acyclic(g)
  {
    var gen: map<Hash, nat> := map x | x in Elems(out) :: |out| - Position(out, x);
    forall c, p | c in g && p in g[c].parents ensures p in gen && gen[p] < gen[c] {
      var k := Position(out, p);
      assert c in g[p].children;
      assert c in Elems(out[..k]);
      var j :| 0 <= j < k && out[..k][j] == c;
      assert out[j] == c;
      assert Position(out, c) == j;
    }
    assert Ranked(g, gen);
  }

  /**
   * The commits with no children, in commit-list order: the comprehension
   * that seeds the stack of `__topo_sort`.
   */
  function Childless(g: Graph, commits: seq<Hash>): (r: seq<Hash>)
    requires forall c :: c in commits ==> c in g
    ensures forall c :: c in r <==> c in commits && |g[c].children| == 0
    ensures NoDup(commits) ==> NoDup(r)
  {
    if commits == [] then []
    else
      var init := commits[..|commits| - 1];
      var last := commits[|commits| - 1];
      assert commits == init + [last];
      var r := Childless(g, init);
      if |g[last].children| == 0 then
        assert NoDup(commits) ==> last !in r;
        r + [last]
      else r
  }

  /** The sorted seed holds each childless commit once. */
  lemma SeedMembers(g: Graph, commits: seq<Hash>, seed: seq<Hash>)
    requires NoDup(commits) && forall c :: c in commits ==> c in g
    requires seed == SortStrings(Childless(g, commits))
    ensures NoDup(seed)
    ensures forall c :: c in seed <==> c in commits && |g[c].children| == 0
  {
    var zero := Childless(g, commits);
    NoDupByMultiset(zero, seed);
    forall c ensures c in seed <==> c in zero {
      assert c in seed <==> c in multiset(seed);
      assert c in zero <==> c in multiset(zero);
    }
  }

  /** The last element of the sorted seed, popped first, is the greatest childless commit. */
  lemma SeedTop(g: Graph, commits: seq<Hash>, seed: seq<Hash>)
    requires NoDup(commits) && forall c :: c in commits ==> c in g
    requires seed == SortStrings(Childless(g, commits))
    ensures seed != [] ==> forall c :: c in commits && |g[c].children| == 0 ==> LexLe(c, seed[|seed| - 1])
  {
    if seed != [] {
      SeedMembers(g, commits, seed);
      var top := seed[|seed| - 1];
      forall c | c in commits && |g[c].children| == 0 ensures LexLe(c, top) {
        var k :| 0 <= k < |seed| && seed[k] == c;
        if k == |seed| - 1 {
          LexLeTotal(c, c);
        } else {
          assert Sorted(seed);
        }
      }
    }
  }

  /** Emitting one more pending commit shrinks what is left to emit. */
  lemma PendingShrinks(keys: set<Hash>, emitted: set<Hash>, x: Hash)
    requires x in keys && x !in emitted
    ensures |keys - (emitted + {x})| < |keys - emitted|
  {
    assert keys - (emitted + {x}) == (keys - emitted) - {x};
  }

  /** The counts and the sorted seed stack form the first frontier, before anything is emitted. */
  lemma InitialFrontier(g: Graph, commits: seq<Hash>, counts: map<Hash, int>, stack: seq<Hash>)
    requires Elems(commits) == g.Keys
    requires counts == map c | c in commits :: |g[c].children|
    requires NoDup(stack) && forall c :: c in stack <==> c in commits && |g[c].children| == 0
    ensures Frontier(g, {}, counts, stack)
  {
    forall c | c in g ensures Settled(g, {}, counts, stack, c) {
      assert c in commits;
      assert g[c].children - {} == g[c].children;
    }
  }

  /** Inserting a hash not yet present keeps every hash once and adds just that one. */
  lemma InsertFresh(r: seq<Hash>, x: Hash)
    requires Sorted(r) && NoDup(r) && x !in r
    ensures NoDup(Insert(r, x)) && Elems(Insert(r, x)) == Elems(r) + {x}
  {
    var r' := Insert(r, x);
    assert multiset(r') == multiset(r + [x]);
    NoDupAppend(r, x);
    NoDupByMultiset(r + [x], r');
    SameMembers(r + [x], r');
    ElemsAppend(r, x);
  }

  /** Sequences with the same multiset have the same members. */
  lemma SameMembers(a: seq<Hash>, b: seq<Hash>)
    requires multiset(a) == multiset(b)
    ensures Elems(a) == Elems(b)
  {
    forall y ensures y in Elems(a) <==> y in Elems(b) {
      assert y in a <==> y in multiset(a);
      assert y in b <==> y in multiset(b);
    }
  }

  /** Some hash of a nonempty set is at most every other. */
  lemma {:induction false} HasLeast(s: set<Hash>)
    requires s != {}
    ensures exists m :: m in s && forall x :: x in s ==> LexLe(m, x)
    decreases |s|
  {
    var x :| x in s;
    LexLeTotal(x, x);
    if s != {x} {
      HasLeast(s - {x});
      var m :| m in s - {x} && forall y :: y in s - {x} ==> LexLe(m, y);
      LexLeTotal(x, m);
      if !LexLe(m, x) {
        forall y | y in s ensures LexLe(x, y) {
          if y != x {
            LexLeTransitive(x, m, y);
          }
        }
      }
    }
  }

  /** The members of `s` in ascending order, each once: what `sorted` makes of a set. */
  ghost function Ascending(s: set<Hash>): (r: seq<Hash>)
    ensures Sorted(r) && NoDup(r) && Elems(r) == s
    decreases |s|
  {
    if s == {} then []
    else
      HasLeast(s);
      var m :| m in s && forall x :: x in s ==> LexLe(m, x);
      var rest := Ascending(s - {m});
      LeastFirst(s, m, rest);
      [m] + rest
  }

  /** The least member of a set, put before the ascending listing of the others, lists the set. */
  lemma LeastFirst(s: set<Hash>, m: Hash, rest: seq<Hash>)
    requires m in s && forall x :: x in s ==> LexLe(m, x)
    requires Sorted(rest) && NoDup(rest) && Elems(rest) == s - {m}
    ensures Sorted([m] + rest) && NoDup([m] + rest) && Elems([m] + rest) == s
  {
    assert forall k :: 0 <= k < |rest| ==> rest[k] in Elems(rest);
    SortedCons(m, rest);
    assert Elems([m] + rest) == {m} + Elems(rest);
  }

  /** A set has only one ascending listing without repeats. */
  lemma {:induction false} SortedUnique(a: seq<Hash>, b: seq<Hash>)
    requires Sorted(a) && NoDup(a) && Sorted(b) && NoDup(b) && Elems(a) == Elems(b)
    ensures a == b
    decreases |a|
  {
    if b != [] {
      assert b[0] in Elems(a);
    }
    if a != [] {
      assert a[0] in Elems(b);
      var j :| 0 <= j < |b| && b[j] == a[0];
      assert b[0] in Elems(a);
      var i :| 0 <= i < |a| && a[i] == b[0];
      if a[0] != b[0] {
        assert i > 0 && j > 0;
        assert LexLe(a[0], a[i]) && LexLe(b[0], b[j]);
        LexLeAntisymmetric(a[0], b[0]);
      }
      var a', b' := a[1..], b[1..];
      forall x ensures x in Elems(a') <==> x in Elems(b') {
        assert x in Elems(a') <==> x in Elems(a) && x != a[0];
        assert x in Elems(b') <==> x in Elems(b) && x != b[0];
      }
      SortedUnique(a', b');
      assert a == [a[0]] + a' && b == [b[0]] + b';
    }
  }

  /** Python's `sorted` on a set of hashes: each hash once, in ascending order. */
  method SortedHashes(s: set<Hash>) returns (r: seq<Hash>)
    ensures Sorted(r) && NoDup(r) && Elems(r) == s
    ensures r == Ascending(s)
  {
    r := [];
    var rest := s;
    while rest != {}
      invariant Sorted(r) && NoDup(r)
      invariant Elems(r) + rest == s && Elems(r) !! rest
      decreases |rest|
    {
      var x :| x in rest;
      InsertFresh(r, x);
      r := Insert(r, x);
      rest := rest - {x};
    }
    SortedUnique(r, Ascending(s));
  }

  /**
   * The state of the inner loop of `__topo_sort` after the first `j` parents
   * were released, starting from `counts` and `stack`.
   */
  ghost predicate Released(g: Graph, emitted: set<Hash>, current: Hash, parents: seq<Hash>, j: nat,
                           counts: map<Hash, int>, stack: seq<Hash>, counts': map<Hash, int>, stack': seq<Hash>)
    requires j <= |parents|
  {
    && Releasing(g, emitted, current, Elems(parents[..j]), counts', stack')
    && stack' == stack + Freed(g, emitted, current, parents[..j])
    && counts'.Keys == counts.Keys
    && forall c :: c in counts ==> counts'[c] == if c in Elems(parents[..j]) then counts[c] - 1 else counts[c]
  }

  /** One turn of the inner loop keeps the counts and the stack consistent. */
  lemma ReleaseNext(g: Graph, emitted: set<Hash>, current: Hash, parents: seq<Hash>, j: nat,
                    counts: map<Hash, int>, counts': map<Hash, int>, stack': seq<Hash>)
    requires Linked(g) && current in g
    requires NoDup(parents) && Elems(parents) == g[current].parents && j < |parents|
    requires Releasing(g, emitted, current, Elems(parents[..j]), counts', stack')
    requires counts'.Keys == counts.Keys
    requires forall c :: c in counts ==> counts'[c] == if c in Elems(parents[..j]) then counts[c] - 1 else counts[c]
    ensures parents[j] in counts'
    ensures counts'[parents[j]] == 1 <==> g[parents[j]].children <= emitted + {current}
    ensures var p := parents[j];
      var counts'' := counts'[p := counts'[p] - 1];
      var stack'' := if counts''[p] == 0 then stack' + [p] else stack';
      && Releasing(g, emitted, current, Elems(parents[..j + 1]), counts'', stack'')
      && forall c :: c in counts ==> counts''[c] == if c in Elems(parents[..j + 1]) then counts[c] - 1 else counts[c]
  {
    var p := parents[j];
    TakeOneMore(parents, j);
    ElemsAppend(parents[..j], p);
    assert p in g[current].parents;
    assert p !in Elems(parents[..j]);
    ReleaseStep(g, emitted, current, Elems(parents[..j]), counts', stack', p);
    var done := Elems(parents[..j]);
    var done' := Elems(parents[..j + 1]);
    assert done' == done + {p};
    var counts'' := counts'[p := counts'[p] - 1];
    forall c | c in counts ensures counts''[c] == if c in done' then counts[c] - 1 else counts[c] {
      assert counts'[c] == if c in done then counts[c] - 1 else counts[c];
    }
  }

  /** One turn of the inner loop pushes `parents[j]` exactly when it is freed. */
  lemma FreedNext(g: Graph, emitted: set<Hash>, current: Hash, parents: seq<Hash>, j: nat,
                  stack: seq<Hash>, stack': seq<Hash>, pushed: bool)
    requires j < |parents| && parents[j] in g
    requires stack' == stack + Freed(g, emitted, current, parents[..j])
    requires pushed <==> g[parents[j]].children <= emitted + {current}
    ensures (if pushed then stack' + [parents[j]] else stack') == stack + Freed(g, emitted, current, parents[..j + 1])
  {
    FreedStep(g, emitted, current, parents, j);
    var freed := Freed(g, emitted, current, parents[..j]);
    assert stack + freed + [parents[j]] == stack + (freed + [parents[j]]);
  }

  /** One turn of the inner loop keeps `Released`. */
  lemma ReleaseTurn(g: Graph, emitted: set<Hash>, current: Hash, parents: seq<Hash>, j: nat,
                    counts: map<Hash, int>, stack: seq<Hash>, counts': map<Hash, int>, stack': seq<Hash>)
    requires Linked(g) && current in g
    requires NoDup(parents) && Elems(parents) == g[current].parents && j < |parents|
    requires Released(g, emitted, current, parents, j, counts, stack, counts', stack')
    ensures parents[j] in counts'
    ensures var p := parents[j];
      var counts'' := counts'[p := counts'[p] - 1];
      Released(g, emitted, current, parents, j + 1, counts, stack, counts'',
               if counts''[p] == 0 then stack' + [p] else stack')
  {
    ReleaseNext(g, emitted, current, parents, j, counts, counts', stack');
    FreedNext(g, emitted, current, parents, j, stack, stack', counts'[parents[j]] == 1);
  }

  lemma ReleasedStart(g: Graph, emitted: set<Hash>, current: Hash, parents: seq<Hash>,
                      counts: map<Hash, int>, stack: seq<Hash>)
    requires Releasing(g, emitted, current, {}, counts, stack)
    ensures Released(g, emitted, current, parents, 0, counts, stack, counts, stack)
  {
    assert parents[..0] == [];
    assert Elems(parents[..0]) == {};
  }

  lemma ReleasedEnd(g: Graph, emitted: set<Hash>, current: Hash, parents: seq<Hash>,
                    counts: map<Hash, int>, stack: seq<Hash>, counts': map<Hash, int>, stack': seq<Hash>)
    requires Linked(g) && current in g && Elems(parents) == g[current].parents
    requires Released(g, emitted, current, parents, |parents|, counts, stack, counts', stack')
    ensures Frontier(g, emitted + {current}, counts', stack')
    ensures stack' == stack + Freed(g, emitted, current, parents)
    ensures counts'.Keys == counts.Keys
    ensures forall c :: c in counts ==> counts'[c] == if c in g[current].parents then counts[c] - 1 else counts[c]
  {
    assert parents[..|parents|] == parents;
    PopEnds(g, emitted, current, counts', stack');
  }

  /**
   * The inner loop of `__topo_sort`: each parent of `current`, in the
   * ascending order given, loses one pending child and is pushed when it has
   * none left.
   */
  method ReleaseParents(g: Graph, ghost emitted: set<Hash>, current: Hash, parents: seq<Hash>,
                        counts: map<Hash, int>, stack: seq<Hash>)
    returns (counts': map<Hash, int>, stack': seq<Hash>)
    requires Linked(g) && current in g
    requires NoDup(parents) && Elems(parents) == g[current].parents
    requires Releasing(g, emitted, current, {}, counts, stack)
    ensures Frontier(g, emitted + {current}, counts', stack')
    ensures stack' == stack + Freed(g, emitted, current, parents)
    ensures counts'.Keys == counts.Keys
    ensures forall c :: c in counts ==> counts'[c] == if c in g[current].parents then counts[c] - 1 else counts[c]
    ensures counts' == Decremented(counts, g[current].parents)
  {
    counts', stack' := counts, stack;
    ReleasedStart(g, emitted, current, parents, counts, stack);
    for j := 0 to |parents|
      invariant Released(g, emitted, current, parents, j, counts, stack, counts', stack')
    {
      ReleaseTurn(g, emitted, current, parents, j, counts, stack, counts', stack');
      var p := parents[j];
      counts' := counts'[p := counts'[p] - 1];
      if counts'[p] == 0 {
        stack' := stack' + [p];
      }
    }
    ReleasedEnd(g, emitted, current, parents, counts, stack, counts', stack');
    DecrementedEq(counts, counts', g[current].parents);
  }

  /** The child counts after the parents `ps` of the popped commit each lose one. */
  function Decremented(counts: map<Hash, int>, ps: set<Hash>): map<Hash, int>
  {
    map c | c in counts :: if c in ps then counts[c] - 1 else counts[c]
  }

  /** Releasing the first `j` parents in the order given reaches the state `Released` describes. */
  lemma {:induction false} ReleasedUpTo(g: Graph, emitted: set<Hash>, current: Hash, parents: seq<Hash>, j: nat,
                                        counts: map<Hash, int>, stack: seq<Hash>)
    requires Linked(g) && current in g
    requires NoDup(parents) && Elems(parents) == g[current].parents && j <= |parents|
    requires Releasing(g, emitted, current, {}, counts, stack)
    ensures Released(g, emitted, current, parents, j, counts, stack,
                     Decremented(counts, Elems(parents[..j])), stack + Freed(g, emitted, current, parents[..j]))
    decreases j
  {
    if j == 0 {
      ReleasedNone(g, emitted, current, parents, counts, stack);
    } else {
      ReleasedUpTo(g, emitted, current, parents, j - 1, counts, stack);
      ReleasedAdvance(g, emitted, current, parents, j, counts, stack);
    }
  }

  lemma ReleasedNone(g: Graph, emitted: set<Hash>, current: Hash, parents: seq<Hash>,
                     counts: map<Hash, int>, stack: seq<Hash>)
    requires Releasing(g, emitted, current, {}, counts, stack)
    ensures Released(g, emitted, current, parents, 0, counts, stack,
                     Decremented(counts, Elems(parents[..0])), stack + Freed(g, emitted, current, parents[..0]))
  {
    ReleasedStart(g, emitted, current, parents, counts, stack);
    assert parents[..0] == [];
    assert Elems(parents[..0]) == {};
    DecrementedEq(counts, counts, Elems(parents[..0]));
    assert stack + Freed(g, emitted, current, parents[..0]) == stack;
  }

  /** Releasing one more parent keeps the state `Released` describes. */
  lemma ReleasedAdvance(g: Graph, emitted: set<Hash>, current: Hash, parents: seq<Hash>, j: nat,
                        counts: map<Hash, int>, stack: seq<Hash>)
    requires Linked(g) && current in g
    requires NoDup(parents) && Elems(parents) == g[current].parents && 0 < j <= |parents|
    requires Released(g, emitted, current, parents, j - 1, counts, stack,
                      Decremented(counts, Elems(parents[..j - 1])), stack + Freed(g, emitted, current, parents[..j - 1]))
    ensures Released(g, emitted, current, parents, j, counts, stack,
                     Decremented(counts, Elems(parents[..j])), stack + Freed(g, emitted, current, parents[..j]))
  {
    var counts' := Decremented(counts, Elems(parents[..j - 1]));
    var stack' := stack + Freed(g, emitted, current, parents[..j - 1]);
    ReleaseTurn(g, emitted, current, parents, j - 1, counts, stack, counts', stack');
    var p := parents[j - 1];
    var counts'' := counts'[p := counts'[p] - 1];
    DecrementedEq(counts, counts'', Elems(parents[..j]));
  }

  lemma DecrementedEq(counts: map<Hash, int>, counts': map<Hash, int>, ps: set<Hash>)
    requires counts'.Keys == counts.Keys
    requires forall c :: c in counts ==> counts'[c] == if c in ps then counts[c] - 1 else counts[c]
    ensures counts' == Decremented(counts, ps)
  {
  }

  /** Releasing every parent of the popped commit reaches the next frontier. */
  lemma ReleaseAll(g: Graph, emitted: set<Hash>, current: Hash, parents: seq<Hash>,
                   counts: map<Hash, int>, stack: seq<Hash>)
    requires Linked(g) && current in g
    requires NoDup(parents) && Elems(parents) == g[current].parents
    requires Releasing(g, emitted, current, {}, counts, stack)
    ensures Frontier(g, emitted + {current}, Decremented(counts, g[current].parents),
                     stack + Freed(g, emitted, current, parents))
  {
    ReleasedUpTo(g, emitted, current, parents, |parents|, counts, stack);
    assert parents[..|parents|] == parents;
    ReleasedEnd(g, emitted, current, parents, counts, stack,
                Decremented(counts, g[current].parents), stack + Freed(g, emitted, current, parents));
  }

  /**
   * The order the loop of `__topo_sort` emits from a frontier: pop the last
   * commit of the stack, emit it, release its parents in ascending order,
   * pushing each whose last pending child it was, and go on.
   */
  ghost function Kahn(g: Graph, emitted: set<Hash>, counts: map<Hash, int>, stack: seq<Hash>): seq<Hash>
    requires Linked(g) && Frontier(g, emitted, counts, stack)
    decreases |g.Keys - emitted|
  {
    if stack == [] then []
    else
      var current := stack[|stack| - 1];
      var rest := stack[..|stack| - 1];
      var parents := Ascending(g[current].parents);
      PopStarts(g, emitted, counts, stack);
      ReleaseAll(g, emitted, current, parents, counts, rest);
      PendingShrinks(g.Keys, emitted, current);
      [current] + Kahn(g, emitted + {current}, Decremented(counts, g[current].parents),
                       rest + Freed(g, emitted, current, parents))
  }

  /** The counts `__topo_sort` starts from: each commit's number of children. */
  function ChildCounts(g: Graph, commits: seq<Hash>): map<Hash, int>
    requires forall c :: c in commits ==> c in g
  {
    map c | c in commits :: |g[c].children|
  }

  /** The whole order `__topo_sort` emits, from the sorted childless commits. */
  ghost function KahnOrder(g: Graph, commits: seq<Hash>): seq<Hash>
    requires WellFormed(Discovery(commits, g))
  {
    var seed := SortStrings(Childless(g, commits));
    SeedMembers(g, commits, seed);
    InitialFrontier(g, commits, ChildCounts(g, commits), seed);
    Kahn(g, {}, ChildCounts(g, commits), seed)
  }

  /**
   * One turn of the loop emits the last commit of the stack first, and the
   * rest of the order is what the released state goes on to emit.
   */
  lemma KahnStep(g: Graph, emitted: set<Hash>, counts: map<Hash, int>, stack: seq<Hash>,
                 counts': map<Hash, int>, stack': seq<Hash>)
    requires Linked(g) && Frontier(g, emitted, counts, stack) && stack != []
    requires counts' == Decremented(counts, g[stack[|stack| - 1]].parents)
    requires stack' == stack[..|stack| - 1]
      + Freed(g, emitted, stack[|stack| - 1], Ascending(g[stack[|stack| - 1]].parents))
    ensures Frontier(g, emitted + {stack[|stack| - 1]}, counts', stack')
    ensures Kahn(g, emitted, counts, stack) == [stack[|stack| - 1]] + Kahn(g, emitted + {stack[|stack| - 1]}, counts', stack')
  {
    var current := stack[|stack| - 1];
    PopStarts(g, emitted, counts, stack);
    ReleaseAll(g, emitted, current, Ascending(g[current].parents), counts, stack[..|stack| - 1]);
  }

  /** What the sort leaves behind: it emitted every commit exactly when the graph has no cycle. */
  lemma SortOutcome(g: Graph, emitted: set<Hash>, counts: map<Hash, int>, out: seq<Hash>)
    requires Linked(g) && Frontier(g, emitted, counts, [])
    requires emitted == Elems(out) && emitted <= g.Keys && NoDup(out) && ChildrenFirst(g, out)
    ensures Elems(out) == g.Keys <==> Acyclic(g)
  {
    assert Acyclic(g) ==> Elems(out) == g.Keys by {
      if Acyclic(g) {
        var gen :| Ranked(g, gen);
        Exhausted(g, emitted, counts, gen);
      }
    }
    assert Elems(out) == g.Keys ==> Acyclic(g) by {
      if Elems(out) == g.Keys {
        OrderRanks(g, out);
      }
    }
  }

  /** The state of the loop of `__topo_sort` after emitting `sorted`, given the seed stack. */
  ghost predicate Sorting(g: Graph, seed: seq<Hash>, emitted: set<Hash>, counts: map<Hash, int>,
                          stack: seq<Hash>, sorted: seq<Hash>)
  {
    && Frontier(g, emitted, counts, stack)
    && emitted == Elems(sorted) && emitted <= g.Keys
    && NoDup(sorted) && ChildrenFirst(g, sorted)
    && (sorted == [] ==> stack == seed)
    && (sorted != [] ==> seed != [] && sorted[0] == seed[|seed| - 1])
  }

  /** Emitting a commit whose children are all emitted keeps the output's facts. */
  lemma EmitStep(g: Graph, seed: seq<Hash>, emitted: set<Hash>, sorted: seq<Hash>, current: Hash)
    requires emitted == Elems(sorted) && emitted <= g.Keys && NoDup(sorted) && ChildrenFirst(g, sorted)
    requires current in g && current !in emitted && g[current].children <= emitted
    requires sorted == [] ==> seed != [] && current == seed[|seed| - 1]
    requires sorted != [] ==> seed != [] && sorted[0] == seed[|seed| - 1]
    ensures emitted + {current} == Elems(sorted + [current]) && emitted + {current} <= g.Keys
    ensures NoDup(sorted + [current]) && ChildrenFirst(g, sorted + [current])
    ensures seed != [] && (sorted + [current])[0] == seed[|seed| - 1]
    ensures |g.Keys - (emitted + {current})| < |g.Keys - emitted|
  {
    ChildrenFirstAppend(g, sorted, current);
    NoDupAppend(sorted, current);
    ElemsAppend(sorted, current);
    PendingShrinks(g.Keys, emitted, current);
  }

  /** One turn of the loop: the popped commit is emitted once its parents are released. */
  lemma SortTurn(g: Graph, seed: seq<Hash>, emitted: set<Hash>, counts: map<Hash, int>, stack: seq<Hash>,
                 sorted: seq<Hash>, counts': map<Hash, int>, stack': seq<Hash>)
    requires stack != [] && Sorting(g, seed, emitted, counts, stack, sorted)
    requires Frontier(g, emitted + {stack[|stack| - 1]}, counts', stack')
    ensures Sorting(g, seed, emitted + {stack[|stack| - 1]}, counts', stack', sorted + [stack[|stack| - 1]])
    ensures |g.Keys - (emitted + {stack[|stack| - 1]})| < |g.Keys - emitted|
  {
    var current := stack[|stack| - 1];
    assert Settled(g, emitted, counts, stack, current);
    EmitStep(g, seed, emitted, sorted, current);
  }

  /** One turn of the loop keeps its state and emits the next commit of `Kahn`'s order. */
  lemma SortAdvance(g: Graph, seed: seq<Hash>, emitted: set<Hash>, counts: map<Hash, int>, stack: seq<Hash>,
                    sorted: seq<Hash>, counts': map<Hash, int>, stack': seq<Hash>, order: seq<Hash>)
    requires Linked(g) && stack != [] && Sorting(g, seed, emitted, counts, stack, sorted)
    requires sorted + Kahn(g, emitted, counts, stack) == order
    requires counts' == Decremented(counts, g[stack[|stack| - 1]].parents)
    requires stack' == stack[..|stack| - 1]
      + Freed(g, emitted, stack[|stack| - 1], Ascending(g[stack[|stack| - 1]].parents))
    ensures Sorting(g, seed, emitted + {stack[|stack| - 1]}, counts', stack', sorted + [stack[|stack| - 1]])
    ensures sorted + [stack[|stack| - 1]] + Kahn(g, emitted + {stack[|stack| - 1]}, counts', stack') == order
    ensures |g.Keys - (emitted + {stack[|stack| - 1]})| < |g.Keys - emitted|
  {
    KahnAfter(g, emitted, counts, stack, counts', stack', sorted);
    SortTurn(g, seed, emitted, counts, stack, sorted, counts', stack');
  }

  /** `KahnStep` seen from the output: the popped commit joins what was already emitted. */
  lemma KahnAfter(g: Graph, emitted: set<Hash>, counts: map<Hash, int>, stack: seq<Hash>,
                  counts': map<Hash, int>, stack': seq<Hash>, sorted: seq<Hash>)
    requires Linked(g) && Frontier(g, emitted, counts, stack) && stack != []
    requires counts' == Decremented(counts, g[stack[|stack| - 1]].parents)
    requires stack' == stack[..|stack| - 1]
      + Freed(g, emitted, stack[|stack| - 1], Ascending(g[stack[|stack| - 1]].parents))
    ensures Frontier(g, emitted + {stack[|stack| - 1]}, counts', stack')
    ensures sorted + [stack[|stack| - 1]] + Kahn(g, emitted + {stack[|stack| - 1]}, counts', stack')
         == sorted + Kahn(g, emitted, counts, stack)
  {
    var current := stack[|stack| - 1];
    KahnStep(g, emitted, counts, stack, counts', stack');
    Associative(sorted, [current], Kahn(g, emitted + {current}, counts', stack'));
  }

  /** Before the first pop nothing is emitted, and `Kahn` from the seed is the whole order. */
  lemma SortStart(g: Graph, commits: seq<Hash>)
    requires WellFormed(Discovery(commits, g))
    ensures var seed := SortStrings(Childless(g, commits));
      && Sorting(g, seed, {}, ChildCounts(g, commits), seed, [])
      && [] + Kahn(g, {}, ChildCounts(g, commits), seed) == KahnOrder(g, commits)
  {
    var seed := SortStrings(Childless(g, commits));
    SeedMembers(g, commits, seed);
    InitialFrontier(g, commits, ChildCounts(g, commits), seed);
    assert [] + Kahn(g, {}, ChildCounts(g, commits), seed) == Kahn(g, {}, ChildCounts(g, commits), seed);
  }

  /** When the stack runs out, the output is the whole order, with the facts `SortCommits` promises. */
  lemma SortFinish(g: Graph, commits: seq<Hash>, seed: seq<Hash>, emitted: set<Hash>, counts: map<Hash, int>,
                   sorted: seq<Hash>, order: seq<Hash>)
    requires WellFormed(Discovery(commits, g)) && seed == SortStrings(Childless(g, commits))
    requires Sorting(g, seed, emitted, counts, [], sorted)
    requires sorted + Kahn(g, emitted, counts, []) == order
    ensures sorted == order
    ensures NoDup(sorted) && ChildrenFirst(g, sorted) && Elems(sorted) <= g.Keys
    ensures Elems(sorted) == g.Keys <==> Acyclic(g)
    ensures sorted != [] ==>
      && |g[sorted[0]].children| == 0
      && forall c :: c in g && |g[c].children| == 0 ==> LexLe(c, sorted[0])
  {
    assert sorted + [] == sorted;
    SortOutcome(g, emitted, counts, sorted);
    SeedTop(g, commits, seed);
    if sorted != [] {
      SeedMembers(g, commits, seed);
    }
  }

  /**
   * The loop of `__topo_sort`: Kahn's algorithm on child counts with a stack
   * seeded with the childless commits in ascending hash order; each popped
   * commit is emitted, and its parents, in ascending order, lose one pending
   * child and are pushed when none is left.
   */
  method SortCommits(g: Graph, commits: seq<Hash>) returns (sorted: seq<Hash>)
    requires WellFormed(Discovery(commits, g))
    ensures sorted == KahnOrder(g, commits)
    ensures NoDup(sorted) && ChildrenFirst(g, sorted) && Elems(sorted) <= g.Keys
    ensures Elems(sorted) == g.Keys <==> Acyclic(g)
    ensures sorted != [] ==>
      && |g[sorted[0]].children| == 0
      && forall c :: c in g && |g[c].children| == 0 ==> LexLe(c, sorted[0])
  {
    var numChildren := ChildCounts(g, commits);
    var dfsStack := SortStrings(Childless(g, commits));
    ghost var seed := dfsStack;
    ghost var emitted: set<Hash> := {};
    ghost var order := KahnOrder(g, commits);
    sorted := [];
    SortStart(g, commits);

    while dfsStack != []
      invariant Sorting(g, seed, emitted, numChildren, dfsStack, sorted)
      invariant sorted + Kahn(g, emitted, numChildren, dfsStack) == order
      decreases |g.Keys - emitted|
    {
      PopStarts(g, emitted, numChildren, dfsStack);
      ghost var counts, stack := numChildren, dfsStack;
      var current := dfsStack[|dfsStack| - 1];
      dfsStack := dfsStack[..|dfsStack| - 1];
      var parents := SortedHashes(g[current].parents);
      numChildren, dfsStack := ReleaseParents(g, emitted, current, parents, numChildren, dfsStack);
      SortAdvance(g, seed, emitted, counts, stack, sorted, numChildren, dfsStack, order);
      sorted := sorted + [current];
      emitted := emitted + {current};
    }
    SortFinish(g, commits, seed, emitted, numChildren, sorted, order);
  }
}
