/** The `GH` pattern of the driver (src/index.js), as `String.prototype.match`
    applies it to a location: the pattern is not anchored, so the leftmost
    position where it matches wins. The pattern text, once the string escapes
    are read, is `https://github.com/([^/]+/[^/]+)/blob/([^/]+)/(.*)`: its
    first `.` matches any character except a line terminator, `[^/]` matches
    any character but `/` (line terminators included) and `.*` stops at the
    end of the line. */
module Locations {
  import opened Wrappers
  import opened Strings

  /** Where a save writes: repository `owner/name`, branch and path. */
  datatype Target = Target(repo: string, branch: string, path: string)

  const GitHubPrefix: string := "https://github.com/"
  const PrefixLength: nat := 19

  /** The `GH` pattern begins with the text of `GitHubPrefix`, whose `.`
      matches any character but a line terminator. */
  predicate PatternChar(p: char, c: char) {
    if p == '.' then !IsLineTerminator(c) else c == p
  }

  /** `s` begins with text the pattern `p` matches character by character. */
  predicate Fits(s: string, p: string)
    decreases p
  {
    |p| <= |s| && (p == [] || (PatternChar(p[0], s[0]) && Fits(s[1..], p[1..])))
  }

  predicate PrefixAt(s: string, i: nat) {
    i <= |s| && Fits(s[i..], GitHubPrefix)
  }

  /** The end of the run of non-`/` characters starting at `i` (what a
      greedy `[^/]+` reaches). */
  function RunEnd(s: string, i: nat): (j: nat)
    requires i <= |s|
    ensures i <= j <= |s|
    ensures j == |s| || s[j] == '/'
    decreases |s| - i
  {
    if i == |s| || s[i] == '/' then i else RunEnd(s, i + 1)
  }

  /** The end of the run of characters that are not line terminators (what
      a greedy `.*` reaches). */
  function LineEnd(s: string, i: nat): (j: nat)
    requires i <= |s|
    ensures i <= j <= |s|
    ensures j == |s| || IsLineTerminator(s[j])
    decreases |s| - i
  {
    if i == |s| || IsLineTerminator(s[i]) then i else LineEnd(s, i + 1)
  }

  /** A run holds no `/`. */
  lemma {:induction false} RunEndFree(s: string, i: nat)
    requires i <= |s|
    ensures forall k :: i <= k < RunEnd(s, i) ==> s[k] != '/'
    decreases |s| - i
  {
    if i < |s| && s[i] != '/' {
      RunEndFree(s, i + 1);
    }
  }

  /** The rest of a line holds no line terminator. */
  lemma {:induction false} LineEndFree(s: string, i: nat)
    requires i <= |s|
    ensures forall k :: i <= k < LineEnd(s, i) ==> !IsLineTerminator(s[k])
    decreases |s| - i
  {
    if i < |s| && !IsLineTerminator(s[i]) {
      LineEndFree(s, i + 1);
    }
  }

  const BlobSegment: string := "/blob/"
  const BlobLength: nat := 6

  /** The `GH` pattern tried at position `i`: the prefix, then the rest of
      the pattern from where the prefix ends. */
  function MatchAt(s: string, i: nat): Option<Target> {
    if PrefixAt(s, i) then MatchFrom(s, i + PrefixLength) else None
  }

  /** Two non-empty segments for the repository, `/blob/`, a non-empty
      branch, `/`, and the rest of the line as the path. Each `[^/]+` can
      only end before a `/`, so no backtracking can find another match. */
  function MatchFrom(s: string, a: nat): Option<Target>
    requires a <= |s|
  {
    var e1 := RunEnd(s, a);
    if e1 == a || e1 == |s| then None
    else
      var e2 := RunEnd(s, e1 + 1);
      if e2 == e1 + 1 || !StartsWith(s[e2..], BlobSegment) then None
      else
        var b := e2 + BlobLength;
        var e3 := RunEnd(s, b);
        if e3 == b || e3 == |s| then None
        else Some(Target(s[a..e2], s[b..e3], s[e3 + 1..LineEnd(s, e3 + 1)]))
  }

  /** `location.match(GH)`: the pattern is not anchored, so the leftmost
      position where it matches wins. */
  function Search(s: string, i: nat): Option<Target>
    decreases |s| + 1 - i
  {
    if i > |s| then None
    else match MatchAt(s, i)
      case Some(t) => Some(t)
      case None => Search(s, i + 1)
  }

  /** The repository, branch and path of a location; `None` when it is not
      a GitHub location or the pattern does not match. */
  function ParseLocation(location: string): Option<Target> {
    if StartsWith(location, GitHubPrefix) then Search(location, 0) else None
  }

  /** A match reads `owner/name/blob/branch/path` right after the prefix:
      owner, name and branch are non-empty and hold no `/`, and the path
      holds no line terminator. */
  lemma MatchShape(s: string, i: nat)
    requires MatchAt(s, i).Some?
    ensures var t := MatchAt(s, i).value;
            var slash := IndexOf(t.repo, '/');
            && 0 < slash < |t.repo| - 1
            && '/' !in t.repo[..slash] && '/' !in t.repo[slash + 1..]
            && t.branch != [] && '/' !in t.branch
            && (forall k :: 0 <= k < |t.path| ==> !IsLineTerminator(t.path[k]))
            && StartsWith(s[i + PrefixLength..], t.repo + BlobSegment + t.branch + "/" + t.path)
  {
    MatchFromShape(s, i + PrefixLength);
  }

  lemma MatchFromShape(s: string, a: nat)
    requires a <= |s| && MatchFrom(s, a).Some?
    ensures var t := MatchFrom(s, a).value;
            var slash := IndexOf(t.repo, '/');
            && 0 < slash < |t.repo| - 1
            && '/' !in t.repo[..slash] && '/' !in t.repo[slash + 1..]
            && t.branch != [] && '/' !in t.branch
            && (forall k :: 0 <= k < |t.path| ==> !IsLineTerminator(t.path[k]))
            && StartsWith(s[a..], t.repo + BlobSegment + t.branch + "/" + t.path)
  {
    var e1 := RunEnd(s, a);
    var e2 := RunEnd(s, e1 + 1);
    var b := e2 + BlobLength;
    var e3 := RunEnd(s, b);
    var e4 := LineEnd(s, e3 + 1);
    RunEndFree(s, a);
    RunEndFree(s, e1 + 1);
    RunEndFree(s, b);
    LineEndFree(s, e3 + 1);
    RepoSlash(s, a, e1, e2);
    assert s[e2..b] == BlobSegment by {
      assert s[e2..][..|BlobSegment|] == s[e2..b];
    }
    SlashFree(s, b, e3);
    LineFree(s, e3 + 1, e4);
    Pieces(s, a, e2, b, e3, e4);
  }

  /** The text a match covers, read back from its pieces. */
  lemma Pieces(s: string, a: nat, e2: nat, b: nat, e3: nat, e4: nat)
    requires a <= e2 <= b <= e3 < e4 <= |s| || (a <= e2 <= b <= e3 && e3 + 1 == e4 && e4 <= |s|)
    requires s[e2..b] == BlobSegment && s[e3] == '/'
    ensures StartsWith(s[a..], s[a..e2] + BlobSegment + s[b..e3] + "/" + s[e3 + 1..e4])
  {
    var w := s[a..e2] + BlobSegment + s[b..e3] + "/" + s[e3 + 1..e4];
    assert s[a..e4] == s[a..e2] + s[e2..b] + s[b..e3] + s[e3..e3 + 1] + s[e3 + 1..e4];
    assert s[e3..e3 + 1] == "/";
    assert s[a..][..e4 - a] == s[a..e4];
  }

  lemma LineFree(s: string, i: nat, j: nat)
    requires i <= j <= |s|
    requires forall k :: i <= k < j ==> !IsLineTerminator(s[k])
    ensures forall k :: 0 <= k < j - i ==> !IsLineTerminator(s[i..j][k])
  {
    assert forall k :: 0 <= k < j - i ==> s[i..j][k] == s[i + k];
  }

  lemma SlashFree(s: string, i: nat, j: nat)
    requires i <= j <= |s|
    requires forall k :: i <= k < j ==> s[k] != '/'
    ensures '/' !in s[i..j]
  {
    assert forall k :: 0 <= k < j - i ==> s[i..j][k] == s[i + k];
  }

  /** The repository text of a match: two runs joined by the one `/` between them. */
  lemma RepoSlash(s: string, a: nat, e1: nat, e2: nat)
    requires a < e1 < e2 <= |s| && e1 + 1 < e2
    requires s[e1] == '/'
    requires forall k :: a <= k < e1 ==> s[k] != '/'
    requires forall k :: e1 + 1 <= k < e2 ==> s[k] != '/'
    ensures var repo := s[a..e2];
            IndexOf(repo, '/') == e1 - a
            && '/' !in repo[..e1 - a] && '/' !in repo[e1 - a + 1..]
  {
    var repo := s[a..e2];
    SlashFree(s, a, e1);
    SlashFree(s, e1 + 1, e2);
    assert repo[..e1 - a] == s[a..e1];
    assert repo[e1 - a + 1..] == s[e1 + 1..e2];
    assert repo == s[a..e1] + ([s[e1]] + s[e1 + 1..e2]);
    IndexOfAfter(s[a..e1], [s[e1]] + s[e1 + 1..e2], '/');
  }

  /** The first position from `i` on where the pattern matches; past the
      end of `s` when there is none. */
  function FirstMatch(s: string, i: nat): (j: nat)
    ensures i <= j
    decreases |s| + 1 - i
  {
    if i > |s| || MatchAt(s, i).Some? then i else FirstMatch(s, i + 1)
  }

  /** The search returns the leftmost match: no position before it matches,
      and a search that finds nothing passed over every position. */
  lemma {:induction false} SearchLeftmost(s: string, i: nat)
    requires i <= |s| + 1
    ensures var j := FirstMatch(s, i);
            && (forall k :: i <= k < j ==> MatchAt(s, k).None?)
            && (j <= |s| ==> MatchAt(s, j).Some? && Search(s, i) == MatchAt(s, j))
            && (j > |s| ==> j == |s| + 1 && Search(s, i).None?)
    decreases |s| + 1 - i
  {
    if i <= |s| && MatchAt(s, i).None? {
      SearchLeftmost(s, i + 1);
    }
  }

  /** A location of the form `https://github.com/owner/name/blob/branch/path`
      parses into exactly those parts. */
  lemma ParseCanonical(owner: string, name: string, branch: string, path: string)
    requires owner != [] && name != [] && branch != []
    requires '/' !in owner && '/' !in name && '/' !in branch
    requires forall k :: 0 <= k < |path| ==> !IsLineTerminator(path[k])
    ensures ParseLocation(GitHubPrefix + owner + "/" + name + BlobSegment + branch + "/" + path)
            == Some(Target(owner + "/" + name, branch, path))
  {
    var rest := owner + "/" + name + BlobSegment + branch + "/" + path;
    var s := GitHubPrefix + rest;
    assert |GitHubPrefix| == PrefixLength;
    FitsPrefix(GitHubPrefix, rest);
    assert s[0..] == s;
    assert StartsWith(s, GitHubPrefix) by {
      assert s[..PrefixLength] == GitHubPrefix;
    }
    Regroup(GitHubPrefix, owner, name, BlobSegment, branch, path);
    MatchFromCanonical(GitHubPrefix, owner, name, BlobSegment, branch, path);
  }

  /** The pattern after the prefix reads the parts of a canonical location back. */
  lemma MatchFromCanonical(p: string, owner: string, name: string, blob: string, branch: string, path: string)
    requires owner != [] && name != [] && branch != []
    requires '/' !in owner && '/' !in name && '/' !in branch
    requires forall k :: 0 <= k < |path| ==> !IsLineTerminator(path[k])
    requires blob == BlobSegment
    ensures MatchFrom(p + (owner + "/" + name + blob + branch + "/" + path), |p|)
            == Some(Target(owner + "/" + name, branch, path))
  {
    var s := p + (owner + "/" + name + blob + branch + "/" + path);
    var a := |p|;
    var e1 := a + |owner|;
    var e2 := e1 + 1 + |name|;
    var b := e2 + BlobLength;
    var e3 := b + |branch|;
    CanonicalPieces(p, owner, name, blob, branch, path);
    MatchFromLayout(s, a, owner, name, branch, path);
  }

  /** The match after the prefix reads back the parts of a text laid out as
      `owner/name/blob/branch/path`. */
  lemma MatchFromLayout(s: string, a: nat, owner: string, name: string, branch: string, path: string)
    requires owner != [] && name != [] && branch != []
    requires '/' !in owner && '/' !in name && '/' !in branch
    requires forall k :: 0 <= k < |path| ==> !IsLineTerminator(path[k])
    requires var e1 := a + |owner|;
             var e2 := e1 + 1 + |name|;
             var b := e2 + BlobLength;
             var e3 := b + |branch|;
             && |s| == e3 + 1 + |path|
             && s[a..e1] == owner && s[e1] == '/' && s[e1 + 1..e2] == name
             && s[e2..b] == BlobSegment && s[b..e3] == branch && s[e3] == '/' && s[e3 + 1..] == path
             && s[a..e2] == owner + "/" + name
    ensures MatchFrom(s, a) == Some(Target(owner + "/" + name, branch, path))
  {
    var e1 := a + |owner|;
    var e2 := e1 + 1 + |name|;
    var b := e2 + BlobLength;
    var e3 := b + |branch|;
    MatchFromParts(s, a, e1, e2, e3);
  }

  /** The match after the prefix, for a text laid out as the pattern asks. */
  lemma MatchFromParts(s: string, a: nat, e1: nat, e2: nat, e3: nat)
    requires a < e1 && e1 + 1 < e2 && e2 + BlobLength < e3 < |s|
    requires '/' !in s[a..e1] && s[e1] == '/' && '/' !in s[e1 + 1..e2]
    requires s[e2..e2 + BlobLength] == BlobSegment
    requires '/' !in s[e2 + BlobLength..e3] && s[e3] == '/'
    requires forall k :: e3 + 1 <= k < |s| ==> !IsLineTerminator(s[k])
    ensures MatchFrom(s, a) == Some(Target(s[a..e2], s[e2 + BlobLength..e3], s[e3 + 1..]))
  {
    RunEndAt(s, a, e1);
    RunEndAt(s, e1 + 1, e2);
    RunEndAt(s, e2 + BlobLength, e3);
    LineEndAtEnd(s, e3 + 1);
    assert |BlobSegment| == BlobLength;
    SliceStarts(s, e2, BlobSegment);
    MatchFromAt(s, a, e1, e2, e3);
    assert s[e3 + 1..|s|] == s[e3 + 1..];
  }

  lemma SliceStarts(s: string, i: nat, p: string)
    requires i + |p| <= |s| && s[i..i + |p|] == p
    ensures StartsWith(s[i..], p)
  {
    assert s[i..][..|p|] == s[i..i + |p|];
  }

  /** The match after the prefix once the ends of its runs are known. */
  lemma MatchFromAt(s: string, a: nat, e1: nat, e2: nat, e3: nat)
    requires a < e1 < |s| && RunEnd(s, a) == e1
    requires e1 + 1 < e2 <= |s| && RunEnd(s, e1 + 1) == e2
    requires StartsWith(s[e2..], BlobSegment)
    requires e2 + BlobLength < e3 < |s| && RunEnd(s, e2 + BlobLength) == e3
    ensures MatchFrom(s, a) == Some(Target(s[a..e2], s[e2 + BlobLength..e3], s[e3 + 1..LineEnd(s, e3 + 1)]))
  {
  }

  lemma Regroup(p: string, owner: string, name: string, blob: string, branch: string, path: string)
    ensures p + owner + "/" + name + blob + branch + "/" + path
         == p + (owner + "/" + name + blob + branch + "/" + path)
  {
  }

  lemma CanonicalPieces(p: string, owner: string, name: string, blob: string, branch: string, path: string)
    requires |blob| == BlobLength
    ensures var s := p + (owner + "/" + name + blob + branch + "/" + path);
            var e1 := |p| + |owner|;
            var e2 := e1 + 1 + |name|;
            var b := e2 + BlobLength;
            var e3 := b + |branch|;
            && |s| == e3 + 1 + |path|
            && s[|p|..e1] == owner && s[e1] == '/' && s[e1 + 1..e2] == name
            && s[e2..b] == blob && s[b..e3] == branch && s[e3] == '/' && s[e3 + 1..] == path
            && s[|p|..e2] == owner + "/" + name
  {
  }

  /** A text fits the pattern it starts with: every character matches itself. */
  lemma {:induction false} FitsPrefix(p: string, rest: string)
    ensures Fits(p + rest, p)
    decreases p
  {
    if p != [] {
      assert (p + rest)[1..] == p[1..] + rest;
      FitsPrefix(p[1..], rest);
    }
  }

  lemma {:induction false} RunEndAt(s: string, i: nat, j: nat)
    requires i <= j < |s| && s[j] == '/'
    requires '/' !in s[i..j]
    ensures RunEnd(s, i) == j
    decreases j - i
  {
    if i < j {
      assert s[i] == s[i..j][0];
      assert s[i + 1..j] == s[i..j][1..];
      RunEndAt(s, i + 1, j);
    }
  }

  lemma {:induction false} LineEndAtEnd(s: string, i: nat)
    requires i <= |s|
    requires forall k :: i <= k < |s| ==> !IsLineTerminator(s[k])
    ensures LineEnd(s, i) == |s|
    decreases |s| - i
  {
    if i < |s| {
      LineEndAtEnd(s, i + 1);
    }
  }
}
