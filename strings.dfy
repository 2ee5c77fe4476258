/** The JavaScript string operations the renderers and the router rely on:
    `startsWith`, `endsWith`, `indexOf`, `replace(/c/g, r)`, `join`, `split`,
    `trim` and number-to-string, stated over `seq<char>`. */
module Strings {

  /** Concatenation regrouped, stated once so that proofs about text built
      piece by piece can cite it instead of rediscovering it. */
  lemma Assoc<T>(a: seq<T>, b: seq<T>, c: seq<T>)
    ensures (a + b) + c == a + (b + c)
  {
  }

  /** `s.startsWith(p)`. */
  predicate StartsWith(s: string, p: string) {
    |p| <= |s| && s[..|p|] == p
  }

  lemma StartsWithPrepend(a: string, b: string, p: string)
    requires StartsWith(b, p)
    ensures StartsWith(a + b, a + p)
  {
    assert (a + b)[..|a + p|] == a + b[..|p|];
  }

  lemma StartsWithAppend(a: string, b: string, p: string)
    requires StartsWith(a, p)
    ensures StartsWith(a + b, p)
  {
    assert (a + b)[..|p|] == a[..|p|];
  }

  /** `s.endsWith(p)`. */
  predicate EndsWith(s: string, p: string) {
    |p| <= |s| && s[|s| - |p|..] == p
  }

  lemma EndsWithPrepend(a: string, b: string, p: string)
    requires EndsWith(b, p)
    ensures EndsWith(a + b, p)
  {
    assert (a + b)[|a + b| - |p|..] == b[|b| - |p|..];
  }

  /** A text ends with the last character of any suffix it has. */
  lemma EndsWithLast(s: string, p: string)
    requires EndsWith(s, p) && p != []
    ensures s[|s| - 1] == p[|p| - 1]
  {
    assert s[|s| - 1] == s[|s| - |p|..][|p| - 1];
  }

  /** `s.indexOf(c)` for a one-character needle: the first position of `c`, or -1. */
  function IndexOf(s: string, c: char): (i: int)
    ensures -1 <= i < |s|
    ensures i == -1 <==> c !in s
    ensures 0 <= i ==> s[i] == c && c !in s[..i]
  {
    if s == [] then -1
    else if s[0] == c then 0
    else
      var j := IndexOf(s[1..], c);
      if j == -1 then -1
      else
        assert s[..j + 1] == [s[0]] + s[1..][..j];
        j + 1
  }

  /** Past a prefix without `c`, the first `c` is the first one of the rest. */
  lemma {:induction false} IndexOfAfter(a: string, b: string, c: char)
    requires c !in a && c in b
    ensures IndexOf(a + b, c) == |a| + IndexOf(b, c)
  {
    if a == [] {
      assert a + b == b;
    } else {
      assert (a + b)[1..] == a[1..] + b;
      IndexOfAfter(a[1..], b, c);
    }
  }

  /** `s.replace(/c/g, r)`: every occurrence of the character `c` replaced by `r`. */
  function ReplaceAll(s: string, c: char, r: string): string {
    if s == [] then []
    else (if s[0] == c then r else [s[0]]) + ReplaceAll(s[1..], c, r)
  }

  /** A character that the replacement does not hold is absent from the
      result when it is the replaced one or was absent before. */
  lemma {:induction false} ReplaceAllFree(s: string, c: char, r: string, x: char)
    requires x == c || x !in s
    requires x !in r
    ensures x !in ReplaceAll(s, c, r)
  {
    if s != [] {
      ReplaceAllFree(s[1..], c, r, x);
    }
  }

  /** A string without `c` is left as it is. */
  lemma {:induction false} ReplaceAllAbsent(s: string, c: char, r: string)
    requires c !in s
    ensures ReplaceAll(s, c, r) == s
  {
    if s != [] {
      ReplaceAllAbsent(s[1..], c, r);
      assert s == [s[0]] + s[1..];
    }
  }

  /** Replacing is done character by character, so it distributes over concatenation. */
  lemma {:induction false} ReplaceAllAppend(a: string, b: string, c: char, r: string)
    ensures ReplaceAll(a + b, c, r) == ReplaceAll(a, c, r) + ReplaceAll(b, c, r)
  {
    if a == [] {
      assert a + b == b;
    } else {
      assert (a + b)[1..] == a[1..] + b;
      ReplaceAllAppend(a[1..], b, c, r);
    }
  }

  /** Number of occurrences of `c` in `s`. */
  function Count(s: string, c: char): (n: nat)
    ensures n <= |s|
    ensures n == 0 <==> c !in s
  {
    if s == [] then 0 else (if s[0] == c then 1 else 0) + Count(s[1..], c)
  }

  lemma {:induction false} CountAppend(a: string, b: string, c: char)
    ensures Count(a + b, c) == Count(a, c) + Count(b, c)
  {
    if a == [] {
      assert a + b == b;
    } else {
      assert (a + b)[1..] == a[1..] + b;
      CountAppend(a[1..], b, c);
    }
  }

  /** `xs.join(sep)`. */
  function Join(xs: seq<string>, sep: string): string {
    if |xs| == 0 then ""
    else if |xs| == 1 then xs[0]
    else Join(xs[..|xs| - 1], sep) + sep + xs[|xs| - 1]
  }

  /** Total number of occurrences of `c` in the strings of `xs`. */
  function CountIn(xs: seq<string>, c: char): nat {
    if xs == [] then 0 else CountIn(xs[..|xs| - 1], c) + Count(xs[|xs| - 1], c)
  }

  /** With a separator holding `c` once, the joined string holds the elements'
      own occurrences of `c` plus one per boundary between elements. */
  lemma {:induction false} JoinCount(xs: seq<string>, sep: string, c: char)
    requires |xs| >= 1
    requires Count(sep, c) == 1
    ensures Count(Join(xs, sep), c) == CountIn(xs, c) + |xs| - 1
  {
    if |xs| == 1 {
      assert xs[..0] == [];
    } else {
      var init := xs[..|xs| - 1];
      JoinCount(init, sep, c);
      CountAppend(Join(init, sep), sep, c);
      CountAppend(Join(init, sep) + sep, xs[|xs| - 1], c);
    }
  }

  /** A character absent from the elements and the separator is absent from the joined string. */
  lemma {:induction false} JoinFree(xs: seq<string>, sep: string, c: char)
    requires forall k :: 0 <= k < |xs| ==> c !in xs[k]
    requires c !in sep
    ensures c !in Join(xs, sep)
  {
    if |xs| > 1 {
      JoinFree(xs[..|xs| - 1], sep, c);
    }
  }

  /** Joining a list with one more element in front. */
  lemma {:induction false} JoinCons(x: string, ys: seq<string>, sep: string)
    requires |ys| >= 1
    ensures Join([x] + ys, sep) == x + sep + Join(ys, sep)
  {
    var xs := [x] + ys;
    if |ys| == 1 {
      assert xs[..1] == [x];
    } else {
      var init := ys[..|ys| - 1];
      assert xs[..|xs| - 1] == [x] + init;
      JoinCons(x, init, sep);
    }
  }

  /** `n` copies of `x`, as `a.map(_ => x)` gives for an array `a` of length `n`. */
  function Repeat(x: string, n: nat): (r: seq<string>)
    ensures |r| == n
  {
    if n == 0 then [] else Repeat(x, n - 1) + [x]
  }

  lemma {:induction false} RepeatElements(x: string, n: nat)
    ensures forall k :: 0 <= k < n ==> Repeat(x, n)[k] == x
  {
    if n > 0 {
      RepeatElements(x, n - 1);
    }
  }

  /** `s.split(c)` for a one-character separator: the pieces between the
      occurrences of `c`; there is always at least one piece. */
  function Split(s: string, c: char): (parts: seq<string>)
    ensures |parts| >= 1
  {
    if s == [] then [""]
    else
      var rest := Split(s[1..], c);
      if s[0] == c then [""] + rest else [[s[0]] + rest[0]] + rest[1..]
  }

  /** The first piece runs up to the first `c` (or is all of `s`), and the
      other pieces are those of the text after that `c`. */
  lemma {:induction false} SplitHead(s: string, c: char)
    ensures IndexOf(s, c) == -1 ==> Split(s, c) == [s]
    ensures IndexOf(s, c) != -1 ==>
              Split(s, c) == [s[..IndexOf(s, c)]] + Split(s[IndexOf(s, c) + 1..], c)
  {
    if s != [] && s[0] != c {
      var tail := s[1..];
      SplitHead(tail, c);
      var j := IndexOf(tail, c);
      if j != -1 {
        assert s[..j + 1] == [s[0]] + tail[..j];
        assert s[j + 2..] == tail[j + 1..];
      } else {
        assert [s[0]] + tail == s;
      }
    }
  }

  /** Joining with `x` glued to the front of the first element. */
  lemma JoinPrepend(x: string, ys: seq<string>, sep: string)
    requires |ys| >= 1
    ensures Join([x + ys[0]] + ys[1..], sep) == x + Join(ys, sep)
  {
    if |ys| > 1 {
      JoinCons(x + ys[0], ys[1..], sep);
      JoinCons(ys[0], ys[1..], sep);
      assert [ys[0]] + ys[1..] == ys;
    } else {
      assert ys == [ys[0]];
    }
  }

  /** Splitting loses nothing: joining the pieces with `c` gives back `s`. */
  lemma {:induction false} SplitJoin(s: string, c: char)
    ensures Join(Split(s, c), [c]) == s
  {
    if s != [] {
      var rest := Split(s[1..], c);
      SplitJoin(s[1..], c);
      if s[0] == c {
        JoinCons("", rest, [c]);
        assert "" + [c] + s[1..] == s;
      } else {
        JoinPrepend([s[0]], rest, [c]);
        assert [s[0]] + s[1..] == s;
      }
    }
  }

  /** Decimal digit `d` as a character. */
  function DigitChar(d: nat): (ch: char)
    requires d < 10
    ensures '0' <= ch <= '9'
  {
    ('0' as int + d) as char
  }

  /** Decimal text of a natural number, as JavaScript prints an integer-valued number. */
  function NatText(n: nat): (s: string)
    ensures |s| >= 1
    ensures forall ch :: ch in s ==> '0' <= ch <= '9'
  {
    if n < 10 then [DigitChar(n)] else NatText(n / 10) + [DigitChar(n % 10)]
  }

  /** Decimal text of an integer, with a leading `-` when negative. */
  function IntText(i: int): string {
    if i < 0 then "-" + NatText(-i) else NatText(i)
  }

  /** The characters `String.prototype.trim` removes: ECMAScript WhiteSpace and LineTerminator. */
  predicate IsJsWhitespace(ch: char) {
    || ch == '\t' || ch == '\n' || ch == '\U{000B}' || ch == '\U{000C}' || ch == '\r'
    || ch == ' ' || ch == '\U{00A0}' || ch == '\U{1680}'
    || ('\U{2000}' <= ch <= '\U{200A}')
    || ch == '\U{2028}' || ch == '\U{2029}' || ch == '\U{202F}' || ch == '\U{205F}'
    || ch == '\U{3000}' || ch == '\U{FEFF}'
  }

  /** The characters the regular-expression `.` does not match: ECMAScript LineTerminator. */
  predicate IsLineTerminator(ch: char) {
    ch == '\n' || ch == '\r' || ch == '\U{2028}' || ch == '\U{2029}'
  }

  /** `s` without its leading whitespace. */
  function TrimStart(s: string): (t: string)
    ensures |t| <= |s| && t == s[|s| - |t|..]
    ensures t == [] || !IsJsWhitespace(t[0])
    ensures forall k :: 0 <= k < |s| - |t| ==> IsJsWhitespace(s[k])
  {
    if s != [] && IsJsWhitespace(s[0]) then TrimStart(s[1..]) else s
  }

  /** `s` without its trailing whitespace. */
  function TrimEnd(s: string): (t: string)
    ensures |t| <= |s| && t == s[..|t|]
    ensures t == [] || !IsJsWhitespace(t[|t| - 1])
    ensures forall k :: |t| <= k < |s| ==> IsJsWhitespace(s[k])
  {
    if s != [] && IsJsWhitespace(s[|s| - 1]) then TrimEnd(s[..|s| - 1]) else s
  }

  /** `s.trim()`. */
  function Trim(s: string): (t: string)
    ensures t == [] || (!IsJsWhitespace(t[0]) && !IsJsWhitespace(t[|t| - 1]))
    ensures |t| <= |s|
  {
    var u := TrimStart(s);
    var t := TrimEnd(u);
    assert t != [] ==> t[0] == u[0];
    t
  }
}
