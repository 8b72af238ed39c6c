/**
 * Reading one loose commit object: where its file lives under `.git`, and
 * which parent hashes its header lists. Opening the file and inflating it
 * are not modelled; the object arrives as its whitespace-separated tokens.
 */
module CommitObject {
  import opened Wrappers

  /** Number of leading hash characters that name the fan-out directory (Python's `h[0:2]`, clamped). */
  function FanOut(h: string): nat
  {
    if |h| < 2 then |h| else 2
  }

  /** `CommitNode.object_path`: `objects/` + first two characters + `/` + the rest. */
  function ObjectPath(h: string): (path: string)
    ensures |path| == |h| + 9
    ensures path[..8] == "objects/"
    ensures path[8 + FanOut(h)] == '/'
    ensures path[8..8 + FanOut(h)] == h[..FanOut(h)]
    ensures path[9 + FanOut(h)..] == h[FanOut(h)..]
  {
    var dir := "objects/" + h[..FanOut(h)];
    assert dir[..8] == "objects/" && dir[8..] == h[..FanOut(h)];
    dir + "/" + h[FanOut(h)..]
  }

  /** Recovers the hash from an object path by dropping the prefix and the fan-out slash. */
  function HashOfPath(path: string): string
    requires |path| >= 9
  {
    var m := FanOut(path[9..]);
    path[8..8 + m] + path[9 + m..]
  }

  /** Every hash can be read back from its object path. */
  lemma ObjectPathRoundTrip(h: string)
    ensures HashOfPath(ObjectPath(h)) == h
  {
    var path := ObjectPath(h);
    assert FanOut(path[9..]) == FanOut(h);
    assert h == h[..FanOut(h)] + h[FanOut(h)..];
  }

  /** Distinct commits are stored in distinct files. */
  lemma ObjectPathInjective(a: string, b: string)
    requires ObjectPath(a) == ObjectPath(b)
    ensures a == b
  {
    ObjectPathRoundTrip(a);
    ObjectPathRoundTrip(b);
  }

  // ---------------------------------------------------------------------
  // The header scan

  const ParentKeyword := "parent"
  const AuthorKeyword := "author"

  /** Index of the first `author` token at or after `i`, or `|tokens|`. */
  function HeaderEndFrom(tokens: seq<string>, i: nat): (e: nat)
    requires i <= |tokens|
    ensures i <= e <= |tokens|
    ensures e < |tokens| ==> tokens[e] == AuthorKeyword
    ensures forall k :: i <= k < e ==> tokens[k] != AuthorKeyword
    decreases |tokens| - i
  {
    if i == |tokens| || tokens[i] == AuthorKeyword then i else HeaderEndFrom(tokens, i + 1)
  }

  /** Where the parent header region ends: the first `author` token. */
  function HeaderEnd(tokens: seq<string>): nat
  {
    HeaderEndFrom(tokens, 0)
  }

  /** The tokens that follow a `parent` token among the first `n` tokens, in order. */
  function Followers(tokens: seq<string>, n: nat): seq<string>
    requires n <= |tokens|
  {
    if n == 0 then []
    else
      Followers(tokens, n - 1)
      + (if tokens[n - 1] == ParentKeyword && n < |tokens| then [tokens[n]] else [])
  }

  /** The header has no `author` and ends in a `parent` with nothing after it. */
  predicate Dangling(tokens: seq<string>)
  {
    HeaderEnd(tokens) == |tokens| && |tokens| > 0 && tokens[|tokens| - 1] == ParentKeyword
  }

  /**
   * What the scan yields: the parent hashes of the header, or `None` when a
   * trailing `parent` has no hash after it (the source then fails indexing
   * past the end of the token list).
   */
  function ParseParents(tokens: seq<string>): Option<seq<string>>
  {
    if Dangling(tokens) then None else Some(Followers(tokens, HeaderEnd(tokens)))
  }

  /** The scan loop of `populate_tree`: collect the token after each `parent`, stop at the first `author`. */
  method ScanParents(tokens: seq<string>) returns (r: Option<seq<string>>)
    ensures r == ParseParents(tokens)
  {
    var parentHashes: seq<string> := [];
    var i := 0;
    while i < |tokens|
      invariant 0 <= i <= HeaderEnd(tokens)
      invariant parentHashes == Followers(tokens, i)
      invariant i > 0 ==> !(tokens[i - 1] == ParentKeyword && i == |tokens|)
    {
      if tokens[i] == ParentKeyword {
        if i + 1 == |tokens| {
          return None;
        }
        parentHashes := parentHashes + [tokens[i + 1]];
      }
      if tokens[i] == AuthorKeyword {
        break;
      }
      i := i + 1;
    }
    return Some(parentHashes);
  }

  /** A hash is parsed exactly when it follows a `parent` token that precedes the first `author`. */
  lemma {:induction false} FollowersMembership(tokens: seq<string>, n: nat, p: string)
    requires n <= |tokens|
    ensures p in Followers(tokens, n)
      <==> exists j :: 0 <= j < n && j + 1 < |tokens| && tokens[j] == ParentKeyword && tokens[j + 1] == p
  {
    if n > 0 {
      FollowersMembership(tokens, n - 1, p);
    }
  }

  /** The number of parsed hashes is the number of `parent` tokens in the header region. */
  function CountParents(tokens: seq<string>, n: nat): nat
    requires n <= |tokens|
  {
    if n == 0 then 0 else CountParents(tokens, n - 1) + (if tokens[n - 1] == ParentKeyword then 1 else 0)
  }

  lemma {:induction false} ParsedCount(tokens: seq<string>)
    requires ParseParents(tokens).Some?
    ensures |ParseParents(tokens).value| == CountParents(tokens, HeaderEnd(tokens))
  {
    var e := HeaderEnd(tokens);
    FollowersCount(tokens, e);
  }

  lemma {:induction false} FollowersCount(tokens: seq<string>, n: nat)
    requires n <= |tokens|
    requires n == |tokens| && n > 0 ==> tokens[n - 1] != ParentKeyword
    ensures |Followers(tokens, n)| == CountParents(tokens, n)
  {
    if n > 0 {
      FollowersCount(tokens, n - 1);
    }
  }

  /** Followers among the first `n` tokens depend only on the first `n + 1` tokens. */
  lemma {:induction false} FollowersPrefix(t: seq<string>, u: seq<string>, n: nat)
    requires n < |t| && n < |u| && t[..n + 1] == u[..n + 1]
    ensures Followers(t, n) == Followers(u, n)
  {
    if n > 0 {
      assert t[..n] == t[..n + 1][..n] && u[..n] == u[..n + 1][..n];
      assert t[n - 1] == t[..n + 1][n - 1] && t[n] == t[..n + 1][n];
      assert u[n - 1] == u[..n + 1][n - 1] && u[n] == u[..n + 1][n];
      FollowersPrefix(t, u, n - 1);
    }
  }

  /** A `parent` token after the first `author` (say, in the commit message) contributes nothing. */
  lemma AuthorEndsHeader(pre: seq<string>, post: seq<string>)
    ensures ParseParents(pre + [AuthorKeyword] + post) == ParseParents(pre + [AuthorKeyword])
  {
    var t := pre + [AuthorKeyword] + post;
    var u := pre + [AuthorKeyword];
    assert t[|pre|] == AuthorKeyword && u[|pre|] == AuthorKeyword;
    assert HeaderEnd(t) <= |pre| && HeaderEnd(u) <= |pre|;
    HeaderEndAgree(t, u, 0, |pre|);
    var e := HeaderEnd(t);
    assert t[..e + 1] == u[..e + 1];
    FollowersPrefix(t, u, e);
  }

  lemma {:induction false} HeaderEndAgree(t: seq<string>, u: seq<string>, i: nat, n: nat)
    requires i <= n < |t| && n < |u| && t[..n + 1] == u[..n + 1]
    requires t[n] == AuthorKeyword
    ensures HeaderEndFrom(t, i) == HeaderEndFrom(u, i)
    decreases n - i
  {
    assert t[i] == t[..n + 1][i] && u[i] == u[..n + 1][i];
    if t[i] != AuthorKeyword {
      HeaderEndAgree(t, u, i + 1, n);
    }
  }

  /** A commit object with two `parent` lines before `author` yields both hashes, in order. */
  lemma TwoParentsInOrder(tree: string, p1: string, p2: string, rest: seq<string>)
    requires tree != ParentKeyword && tree != AuthorKeyword
    requires p1 != AuthorKeyword && p2 != AuthorKeyword
    requires p1 != ParentKeyword && p2 != ParentKeyword
    ensures ParseParents(["tree", tree, ParentKeyword, p1, ParentKeyword, p2, AuthorKeyword] + rest)
      == Some([p1, p2])
  {
    var hdr := ["tree", tree, ParentKeyword, p1, ParentKeyword, p2, AuthorKeyword];
    AuthorEndsHeader(hdr[..6], rest);
    assert hdr[..6] + [AuthorKeyword] == hdr;
    TwoParentsHeaderEnd(tree, p1, p2);
    TwoParentsFollowers(tree, p1, p2);
    assert hdr[..6] + [AuthorKeyword] + rest == hdr + rest;
  }

  /** In the merge header, the region ends at the `author` token, the seventh. */
  lemma TwoParentsHeaderEnd(tree: string, p1: string, p2: string)
    requires tree != AuthorKeyword && p1 != AuthorKeyword && p2 != AuthorKeyword
    ensures HeaderEnd(["tree", tree, ParentKeyword, p1, ParentKeyword, p2, AuthorKeyword]) == 6
  {
    var hdr := ["tree", tree, ParentKeyword, p1, ParentKeyword, p2, AuthorKeyword];
    assert ParentKeyword != AuthorKeyword && "tree" != AuthorKeyword;
    assert HeaderEndFrom(hdr, 6) == 6;
    assert HeaderEndFrom(hdr, 4) == HeaderEndFrom(hdr, 5) == 6;
    assert HeaderEndFrom(hdr, 2) == HeaderEndFrom(hdr, 3) == 6;
    assert HeaderEndFrom(hdr, 0) == HeaderEndFrom(hdr, 1) == 6;
  }

  /** In the merge header, the first six tokens hold the two parent hashes, in order. */
  lemma TwoParentsFollowers(tree: string, p1: string, p2: string)
    requires tree != ParentKeyword && p1 != ParentKeyword && p2 != ParentKeyword
    ensures Followers(["tree", tree, ParentKeyword, p1, ParentKeyword, p2, AuthorKeyword], 6) == [p1, p2]
  {
    var hdr := ["tree", tree, ParentKeyword, p1, ParentKeyword, p2, AuthorKeyword];
    assert |hdr[0]| == 4 && |ParentKeyword| == 6;
    assert Followers(hdr, 1) == [];
    assert Followers(hdr, 2) == [];
    assert Followers(hdr, 3) == [p1];
    assert Followers(hdr, 5) == [p1, p2];
  }
}
