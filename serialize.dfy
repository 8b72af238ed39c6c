/**
 * The text `GitRepo.__str__` produces from the topologically sorted
 * commits: one entry per commit, joined with newlines, each entry being the
 * hash, preceded by a "sticky" pair of lines where the previous commit is
 * not a child of this one, and followed by the sorted names of the branches
 * whose head it is.
 */
module Serialize {
  import opened Strings
  import opened CommitGraph

  /**
   * How the program happens to iterate a node's parent or child set: the
   * language leaves it unspecified, so it is supplied by the caller.
   */
  type SetOrder = set<Hash> -> seq<Hash>

  /** An order lists each member of the set it is given exactly once, and nothing else. */
  ghost predicate ListsMembers(order: SetOrder)
  {
    forall s: set<Hash> :: Elems(order(s)) == s && NoDup(order(s))
  }

  /** `" " + " ".join(sorted(names))` for a branch head, nothing otherwise. */
  function Label(branchHeads: map<Hash, seq<string>>, h: Hash): string
  {
    if h in branchHeads then " " + Join(SortStrings(branchHeads[h]), " ") else ""
  }

  /** The lineage breaks before entry `i` when the previous commit is not one of its children. */
  predicate Breaks(nodes: Graph, topo: seq<Hash>, i: nat)
    requires i < |topo| && forall h :: h in topo ==> h in nodes
  {
    i > 0 && topo[i - 1] !in nodes[topo[i]].children
  }

  /** Entry `i` of the output list, built as `current_line` is built. */
  function Entry(nodes: Graph, branchHeads: map<Hash, seq<string>>, order: SetOrder, topo: seq<Hash>, i: nat): string
    requires i < |topo| && forall h :: h in topo ==> h in nodes
  {
    var h := topo[i];
    var sticky :=
      if Breaks(nodes, topo, i) then
        Join(order(nodes[topo[i - 1]].parents), " ") + "=" + "\n\n=" + Join(order(nodes[h].children), " ") + "\n"
      else "";
    sticky + h + Label(branchHeads, h)
  }

  /** The list `output` the loop of `__str__` builds. */
  function Entries(nodes: Graph, branchHeads: map<Hash, seq<string>>, order: SetOrder, topo: seq<Hash>): (es: seq<string>)
    requires forall h :: h in topo ==> h in nodes
    ensures |es| == |topo|
  {
    seq(|topo|, i requires 0 <= i < |topo| => Entry(nodes, branchHeads, order, topo, i))
  }

  /** What `__str__` returns. */
  function Rendered(nodes: Graph, branchHeads: map<Hash, seq<string>>, order: SetOrder, topo: seq<Hash>): string
    requires forall h :: h in topo ==> h in nodes
  {
    Join(Entries(nodes, branchHeads, order, topo), "\n")
  }

  /** The lines of entry `i`: the sticky end, a blank line and the sticky start when the lineage breaks, then the hash line. */
  function EntryLines(nodes: Graph, branchHeads: map<Hash, seq<string>>, order: SetOrder, topo: seq<Hash>, i: nat): (lines: seq<string>)
    requires i < |topo| && forall h :: h in topo ==> h in nodes
    ensures |lines| >= 1
  {
    var h := topo[i];
    (if Breaks(nodes, topo, i) then
       [Join(order(nodes[topo[i - 1]].parents), " ") + "=", "", "=" + Join(order(nodes[h].children), " ")]
     else [])
    + [h + Label(branchHeads, h)]
  }

  /** A hash as git writes it: nonempty, with no space, `=` or newline in it. */
  predicate HashText(h: Hash)
  {
    h != [] && ' ' !in h && '=' !in h && '\n' !in h
  }

  /** A line holding a commit: not blank and free of `=`, unlike the two sticky lines. */
  predicate IsHashLine(line: string)
  {
    line != [] && '=' !in line
  }

  /** The hash at the start of a hash line, before its branch names. */
  function HashOf(line: string): Hash
  {
    line[..IndexOf(line, ' ')]
  }

  /** Reads the commits back from the lines of the output, in order. */
  function Decode(lines: seq<string>): seq<Hash>
  {
    if lines == [] then []
    else (if IsHashLine(lines[0]) then [HashOf(lines[0])] else []) + Decode(lines[1..])
  }

  /** Each group of lines joined with newlines. */
  function JoinEach(groups: seq<seq<string>>): (r: seq<string>)
    ensures |r| == |groups|
  {
    seq(|groups|, i requires 0 <= i < |groups| => Join(groups[i], "\n"))
  }

  /** Joining the joined groups is joining all of their lines. */
  lemma {:induction false} JoinFlatten(groups: seq<seq<string>>)
    requires |groups| >= 1
    requires forall i :: 0 <= i < |groups| ==> |groups[i]| >= 1
    ensures |Flatten(groups)| >= 1
    ensures Join(JoinEach(groups), "\n") == Join(Flatten(groups), "\n")
    decreases |groups|
  {
    var rest := groups[1..];
    if |groups| == 1 {
      assert Flatten(groups) == groups[0] + Flatten(rest);
      assert Flatten(groups) == groups[0];
    } else {
      JoinFlatten(rest);
      assert JoinEach(groups) == [Join(groups[0], "\n")] + JoinEach(rest);
      assert Flatten(groups) == groups[0] + Flatten(rest);
      JoinConcat(groups[0], Flatten(rest), "\n");
      JoinConcat([Join(groups[0], "\n")], JoinEach(rest), "\n");
    }
  }

  /** Decoding a concatenation decodes each part. */
  lemma {:induction false} DecodeConcat(xs: seq<string>, ys: seq<string>)
    ensures Decode(xs + ys) == Decode(xs) + Decode(ys)
    decreases |xs|
  {
    if xs != [] {
      var head := if IsHashLine(xs[0]) then [HashOf(xs[0])] else [];
      assert (xs + ys)[0] == xs[0] && (xs + ys)[1..] == xs[1..] + ys;
      DecodeConcat(xs[1..], ys);
      assert Decode(xs + ys) == head + (Decode(xs[1..]) + Decode(ys));
      assert Decode(xs) == head + Decode(xs[1..]);
      assert head + (Decode(xs[1..]) + Decode(ys)) == (head + Decode(xs[1..])) + Decode(ys);
    } else {
      assert xs + ys == ys;
    }
  }

  /** Decoding all groups' lines yields one hash per group when each group decodes to one. */
  lemma {:induction false} DecodeFlatten(groups: seq<seq<string>>, hs: seq<Hash>)
    requires |groups| == |hs|
    requires forall i :: 0 <= i < |groups| ==> Decode(groups[i]) == [hs[i]]
    ensures Decode(Flatten(groups)) == hs
    decreases |groups|
  {
    if groups != [] {
      DecodeFlatten(groups[1..], hs[1..]);
      DecodeConcat(groups[0], Flatten(groups[1..]));
      assert hs == [hs[0]] + hs[1..];
    }
  }

  /** Joining the branch names with spaces adds no `=` and no newline. */
  lemma {:induction false} JoinFree(xs: seq<string>, c: char)
    requires c != ' ' && forall k :: 0 <= k < |xs| ==> c !in xs[k]
    ensures c !in Join(xs, " ")
    decreases |xs|
  {
    if |xs| > 1 {
      JoinFree(xs[1..], c);
    }
  }

  lemma SortedNamesFree(names: seq<string>, c: char)
    requires c != ' ' && forall n :: n in names ==> c !in n
    ensures c !in Join(SortStrings(names), " ")
  {
    var sorted := SortStrings(names);
    forall k | 0 <= k < |sorted| ensures c !in sorted[k] {
      assert sorted[k] in multiset(sorted);
    }
    JoinFree(sorted, c);
  }

  /** The names under each head contain neither `=` nor a newline. */
  ghost predicate PlainNames(branchHeads: map<Hash, seq<string>>)
  {
    forall h, n :: h in branchHeads && n in branchHeads[h] ==> '=' !in n && '\n' !in n
  }

  /** The hash line of a commit reads back as that commit. */
  lemma HashLineDecodes(branchHeads: map<Hash, seq<string>>, h: Hash)
    requires HashText(h) && PlainNames(branchHeads)
    ensures IsHashLine(h + Label(branchHeads, h)) && HashOf(h + Label(branchHeads, h)) == h
    ensures '\n' !in h + Label(branchHeads, h)
  {
    var suffix := Label(branchHeads, h);
    var line := h + suffix;
    if h in branchHeads {
      SortedNamesFree(branchHeads[h], '=');
      SortedNamesFree(branchHeads[h], '\n');
      assert suffix[0] == ' ';
    }
    assert '=' !in suffix && '\n' !in suffix;
    IndexOfPrefix(h, suffix);
  }

  /** The first space of `h + suffix` ends `h` when `h` has none and `suffix` is empty or starts with one. */
  lemma {:induction false} IndexOfPrefix(h: string, suffix: string)
    requires ' ' !in h && (suffix == [] || suffix[0] == ' ')
    ensures IndexOf(h + suffix, ' ') == |h| && (h + suffix)[..|h|] == h
    decreases |h|
  {
    if h == [] {
      assert h + suffix == suffix;
    } else {
      assert (h + suffix)[1..] == h[1..] + suffix;
      IndexOfPrefix(h[1..], suffix);
    }
  }

  /** A space-joined list of hashes holds no newline. */
  lemma HashesFree(hs: seq<Hash>)
    requires forall x :: x in hs ==> HashText(x)
    ensures '\n' !in Join(hs, " ")
  {
    forall k | 0 <= k < |hs| ensures '\n' !in hs[k] {
      assert HashText(hs[k]);
    }
    JoinFree(hs, '\n');
  }

  /** Entry `i` is its lines joined with newlines. */
  lemma EntryJoin(nodes: Graph, branchHeads: map<Hash, seq<string>>, order: SetOrder, topo: seq<Hash>, i: nat)
    requires i < |topo| && forall h :: h in topo ==> h in nodes
    ensures Entry(nodes, branchHeads, order, topo, i) == Join(EntryLines(nodes, branchHeads, order, topo, i), "\n")
  {
    var h := topo[i];
    var line := h + Label(branchHeads, h);
    if Breaks(nodes, topo, i) {
      var ps := Join(order(nodes[topo[i - 1]].parents), " ");
      var cs := Join(order(nodes[h].children), " ");
      StickyJoin(ps, cs, h, Label(branchHeads, h));
      assert EntryLines(nodes, branchHeads, order, topo, i) == [ps + "=", "", "=" + cs, line];
    } else {
      assert EntryLines(nodes, branchHeads, order, topo, i) == [line];
    }
  }

  /** The sticky end, blank line, sticky start and hash line, joined, are the concatenation `__str__` builds. */
  lemma StickyJoin(ps: string, cs: string, h: string, suffix: string)
    ensures Join([ps + "=", "", "=" + cs, h + suffix], "\n") == ps + "=" + "\n\n=" + cs + "\n" + h + suffix
  {
    var line := h + suffix;
    var lines := [ps + "=", "", "=" + cs, line];
    assert lines[1..] == ["", "=" + cs, line] && lines[2..] == ["=" + cs, line] && lines[3..] == [line];
    assert Join(lines[3..], "\n") == line;
    assert Join(lines[2..], "\n") == "=" + cs + "\n" + line;
    assert Join(lines[1..], "\n") == "\n=" + cs + "\n" + line;
  }

  /** The sticky lines hold `=`, so only the hash line reads back. */
  lemma StickyDecode(end: string, start: string, line: string)
    requires '=' in end && '=' in start
    ensures Decode([end, "", start, line]) == Decode([line])
  {
    var lines := [end, "", start, line];
    assert lines[1..] == ["", start, line] && lines[2..] == [start, line] && lines[3..] == [line];
    assert Decode(lines) == Decode(lines[1..]);
    assert Decode(lines[1..]) == Decode(lines[2..]);
    assert Decode(lines[2..]) == Decode(lines[3..]);
  }

  /** The lines of entry `i` read back as `topo[i]`. */
  lemma EntryDecode(nodes: Graph, branchHeads: map<Hash, seq<string>>, order: SetOrder, topo: seq<Hash>, i: nat)
    requires i < |topo| && forall h :: h in topo ==> h in nodes
    requires HashText(topo[i]) && PlainNames(branchHeads)
    ensures Decode(EntryLines(nodes, branchHeads, order, topo, i)) == [topo[i]]
  {
    var h := topo[i];
    var line := h + Label(branchHeads, h);
    HashLineDecodes(branchHeads, h);
    assert Decode([line]) == [h];
    if Breaks(nodes, topo, i) {
      var end := Join(order(nodes[topo[i - 1]].parents), " ") + "=";
      var start := "=" + Join(order(nodes[h].children), " ");
      assert end[|end| - 1] == '=' && start[0] == '=';
      StickyDecode(end, start, line);
      assert EntryLines(nodes, branchHeads, order, topo, i) == [end, "", start, line];
    } else {
      assert EntryLines(nodes, branchHeads, order, topo, i) == [line];
    }
  }

  /** The members an order lists for a set of hashes are hashes. */
  lemma OrderedHashesFree(nodes: Graph, order: SetOrder, s: set<Hash>)
    requires ListsMembers(order) && s <= nodes.Keys && forall h :: h in nodes ==> HashText(h)
    ensures '\n' !in Join(order(s), " ")
  {
    HashesFree(order(s));
  }

  /** No line of entry `i` holds a newline. */
  lemma EntryLinesFree(nodes: Graph, branchHeads: map<Hash, seq<string>>, order: SetOrder, topo: seq<Hash>, i: nat)
    requires i < |topo| && forall h :: h in topo ==> h in nodes
    requires Linked(nodes) && ListsMembers(order) && PlainNames(branchHeads)
    requires forall h :: h in nodes ==> HashText(h)
    ensures forall k :: 0 <= k < |EntryLines(nodes, branchHeads, order, topo, i)| ==>
      '\n' !in EntryLines(nodes, branchHeads, order, topo, i)[k]
  {
    var h := topo[i];
    HashLineDecodes(branchHeads, h);
    if Breaks(nodes, topo, i) {
      var prev := topo[i - 1];
      OrderedHashesFree(nodes, order, nodes[prev].parents);
      OrderedHashesFree(nodes, order, nodes[h].children);
    }
  }

  /** The lines of every entry, in order. */
  function AllEntryLines(nodes: Graph, branchHeads: map<Hash, seq<string>>, order: SetOrder, topo: seq<Hash>): (groups: seq<seq<string>>)
    requires forall h :: h in topo ==> h in nodes
    ensures |groups| == |topo|
  {
    seq(|topo|, i requires 0 <= i < |topo| => EntryLines(nodes, branchHeads, order, topo, i))
  }

  /** Every entry is its lines joined, no line holds a newline, and each entry reads back as its commit. */
  lemma AllEntryLinesShape(nodes: Graph, branchHeads: map<Hash, seq<string>>, order: SetOrder, topo: seq<Hash>)
    requires forall h :: h in topo ==> h in nodes
    requires Linked(nodes) && ListsMembers(order) && PlainNames(branchHeads)
    requires forall h :: h in nodes ==> HashText(h)
    ensures var groups := AllEntryLines(nodes, branchHeads, order, topo);
      && Entries(nodes, branchHeads, order, topo) == JoinEach(groups)
      && (forall i :: 0 <= i < |groups| ==> |groups[i]| >= 1 && Decode(groups[i]) == [topo[i]])
      && (forall i, k :: 0 <= i < |groups| && 0 <= k < |groups[i]| ==> '\n' !in groups[i][k])
  {
    var groups := AllEntryLines(nodes, branchHeads, order, topo);
    forall i | 0 <= i < |topo|
      ensures Entry(nodes, branchHeads, order, topo, i) == Join(groups[i], "\n")
      ensures forall k :: 0 <= k < |groups[i]| ==> '\n' !in groups[i][k]
      ensures Decode(groups[i]) == [topo[i]]
    {
      EntryJoin(nodes, branchHeads, order, topo, i);
      EntryLinesFree(nodes, branchHeads, order, topo, i);
      EntryDecode(nodes, branchHeads, order, topo, i);
    }
  }

  /** Splitting the joined groups at newlines and decoding yields one hash per group. */
  lemma SplitFlatten(groups: seq<seq<string>>, hs: seq<Hash>)
    requires |groups| == |hs| >= 1
    requires forall i :: 0 <= i < |groups| ==> |groups[i]| >= 1 && Decode(groups[i]) == [hs[i]]
    requires forall i, k :: 0 <= i < |groups| && 0 <= k < |groups[i]| ==> '\n' !in groups[i][k]
    ensures Decode(SplitLines(Join(JoinEach(groups), "\n"))) == hs
  {
    JoinFlatten(groups);
    FlattenFree(groups);
    SplitJoin(Flatten(groups));
    DecodeFlatten(groups, hs);
  }

  /**
   * The output reads back as the sorted commits: dropping the blank and
   * sticky lines and the branch names leaves exactly the hashes, in order.
   */
  lemma RenderedDecodes(nodes: Graph, branchHeads: map<Hash, seq<string>>, order: SetOrder, topo: seq<Hash>)
    requires forall h :: h in topo ==> h in nodes
    requires Linked(nodes) && ListsMembers(order) && PlainNames(branchHeads)
    requires forall h :: h in nodes ==> HashText(h)
    ensures Decode(SplitLines(Rendered(nodes, branchHeads, order, topo))) == topo
  {
    if topo == [] {
      assert Rendered(nodes, branchHeads, order, topo) == "";
      assert SplitLines("") == [""];
      assert Decode([""]) == Decode([]);
    } else {
      AllEntryLinesShape(nodes, branchHeads, order, topo);
      SplitFlatten(AllEntryLines(nodes, branchHeads, order, topo), topo);
    }
  }

  /** No line of the flattened groups holds a newline when no line of any group does. */
  lemma {:induction false} FlattenFree(groups: seq<seq<string>>)
    requires forall i, k :: 0 <= i < |groups| && 0 <= k < |groups[i]| ==> '\n' !in groups[i][k]
    ensures forall k :: 0 <= k < |Flatten(groups)| ==> '\n' !in Flatten(groups)[k]
    decreases |groups|
  {
    if groups != [] {
      FlattenFree(groups[1..]);
      var rest := Flatten(groups[1..]);
      forall k | 0 <= k < |Flatten(groups)| ensures '\n' !in Flatten(groups)[k] {
        if k >= |groups[0]| {
          assert Flatten(groups)[k] == rest[k - |groups[0]|];
        }
      }
    }
  }
}
