/**
 The Python `str` operations the playlist builder relies on: `startswith`,
 the `in` substring test, `split(sep, 1)`, `rsplit(sep, 1)`, `split(sep)`,
 `strip()` and `rstrip('\n')`, written over Dafny strings (sequences of
 Unicode scalar values, as Python strings are).
 */
module Text {
  import opened Wrappers

  /** Python's `str.isspace()` for one character (the characters `strip()` removes). */
  predicate IsSpace(c: char) {
    var n := c as int;
    (9 <= n <= 13) || (28 <= n <= 32) || n == 0x85 || n == 0xA0 || n == 0x1680
    || (0x2000 <= n <= 0x200A) || n == 0x2028 || n == 0x2029 || n == 0x202F
    || n == 0x205F || n == 0x3000
  }

  /** `s.startswith(p)`. */
  predicate StartsWith(s: string, p: string) {
    |p| <= |s| && s[..|p|] == p
  }

  /** `t` occurs in `s` at position `i`. */
  predicate OccursAt(s: string, t: string, i: int) {
    0 <= i <= |s| - |t| && s[i..i + |t|] == t
  }

  /** `t in s`: the substring test, by scanning; its contract is the positional definition. */
  function Contains(s: string, t: string): (b: bool)
    ensures b <==> exists i :: OccursAt(s, t, i)
    decreases |s|
  {
    if |s| < |t| then false
    else if s[..|t|] == t then assert OccursAt(s, t, 0); true
    else
      var b := Contains(s[1..], t);
      assert b ==> exists i :: OccursAt(s, t, i) by {
        if b {
          var j :| OccursAt(s[1..], t, j);
          assert s[j + 1..j + 1 + |t|] == s[1..][j..j + |t|];
          assert OccursAt(s, t, j + 1);
        }
      }
      assert (exists i :: OccursAt(s, t, i)) ==> b by {
        if exists i :: OccursAt(s, t, i) {
          var i :| OccursAt(s, t, i);
          assert i != 0;
          assert s[1..][i - 1..i - 1 + |t|] == s[i..i + |t|];
          assert OccursAt(s[1..], t, i - 1);
        }
      }
      b
  }

  /** A string that starts with `t` contains it. */
  lemma StartsWithContains(s: string, t: string)
    requires StartsWith(s, t)
    ensures Contains(s, t)
  {
    assert OccursAt(s, t, 0);
  }

  /** A string that contains `t` at position `i` contains it. */
  lemma ContainsAt(s: string, t: string, i: nat)
    requires i + |t| <= |s| && s[i..i + |t|] == t
    ensures Contains(s, t)
  {
    assert OccursAt(s, t, i);
  }

  /** `s.split(c, 1)`: `None` when `c` does not occur, else the text before and after its first occurrence. */
  function SplitOnce(s: string, c: char): (r: Option<(string, string)>)
    ensures r.None? <==> c !in s
    ensures r.Some? ==> s == r.value.0 + [c] + r.value.1 && c !in r.value.0
  {
    if |s| == 0 then None
    else if s[0] == c then Some(([], s[1..]))
    else
      match SplitOnce(s[1..], c)
      case None => None
      case Some(p) =>
        assert s == [s[0]] + s[1..];
        Some(([s[0]] + p.0, p.1))
  }

  /** There is only one way to cut a string at the first occurrence of `c`. */
  lemma FirstCutUnique(a: string, b: string, a': string, b': string, c: char)
    requires a + [c] + b == a' + [c] + b'
    requires c !in a && c !in a'
    ensures a == a' && b == b'
  {
    var s := a + [c] + b;
    assert s[|a|] == c && s[|a'|] == c;
    if |a| < |a'| {
      assert false;
    } else if |a'| < |a| {
      assert false;
    }
    assert a == s[..|a|] == a';
    assert b == s[|a| + 1..] == b';
  }

  /** Cutting `a + [c] + b` at its first `c` gives back `a` and `b` when `a` holds no `c`. */
  lemma SplitOnceOf(a: string, b: string, c: char)
    requires c !in a
    ensures SplitOnce(a + [c] + b, c) == Some((a, b))
  {
    var s := a + [c] + b;
    assert s[|a|] == c;
    var r := SplitOnce(s, c);
    FirstCutUnique(r.value.0, r.value.1, a, b, c);
  }

  /** `s.rsplit(c, 1)`: `None` when `c` does not occur, else the text before and after its last occurrence. */
  function RSplitOnce(s: string, c: char): (r: Option<(string, string)>)
    ensures r.None? <==> c !in s
    ensures r.Some? ==> s == r.value.0 + [c] + r.value.1 && c !in r.value.1
  {
    if |s| == 0 then None
    else if s[|s| - 1] == c then
      assert s == s[..|s| - 1] + [c];
      Some((s[..|s| - 1], []))
    else
      match RSplitOnce(s[..|s| - 1], c)
      case None =>
        assert s == s[..|s| - 1] + [s[|s| - 1]];
        None
      case Some(p) =>
        assert s == s[..|s| - 1] + [s[|s| - 1]];
        Some((p.0, p.1 + [s[|s| - 1]]))
  }

  /** `sep.join(xs)` for a one-character separator. */
  function Join(xs: seq<string>, c: char): string
  {
    if |xs| == 0 then ""
    else if |xs| == 1 then xs[0]
    else xs[0] + [c] + Join(xs[1..], c)
  }

  /** A character of a join is the separator or a character of one of the pieces. */
  lemma {:induction false} JoinChars(xs: seq<string>, c: char, x: char)
    requires x in Join(xs, c)
    ensures x == c || exists i :: 0 <= i < |xs| && x in xs[i]
    decreases |xs|
  {
    if |xs| > 1 {
      if x !in xs[0] && x != c {
        JoinChars(xs[1..], c, x);
        var i :| 0 <= i < |xs[1..]| && x in xs[1..][i];
        assert x in xs[i + 1];
      }
    }
  }

  /** Every character of a piece is a character of the join. */
  lemma {:induction false} JoinContains(xs: seq<string>, c: char, i: nat, x: char)
    requires i < |xs| && x in xs[i]
    ensures x in Join(xs, c)
    decreases |xs|
  {
    if |xs| > 1 {
      if i > 0 {
        JoinContains(xs[1..], c, i - 1, x);
        assert Join(xs, c) == xs[0] + [c] + Join(xs[1..], c);
      } else {
        assert Join(xs, c) == xs[0] + ([c] + Join(xs[1..], c));
      }
    }
  }

  /** `s.split(c)`: at least one piece, no piece holds `c`, and joining the pieces gives `s` back. */
  function Split(s: string, c: char): (r: seq<string>)
    ensures |r| >= 1
    ensures forall i :: 0 <= i < |r| ==> c !in r[i]
    ensures Join(r, c) == s
    decreases |s|
  {
    match SplitOnce(s, c)
    case None => [s]
    case Some(p) =>
      var rest := Split(p.1, c);
      assert ([p.0] + rest)[1..] == rest;
      [p.0] + rest
  }

  /** The other half of the round trip: splitting a join of `c`-free pieces gives the pieces back. */
  lemma {:induction false} SplitJoin(xs: seq<string>, c: char)
    requires |xs| >= 1
    requires forall i :: 0 <= i < |xs| ==> c !in xs[i]
    ensures Split(Join(xs, c), c) == xs
    decreases |xs|
  {
    if |xs| > 1 {
      SplitOnceOf(xs[0], Join(xs[1..], c), c);
      SplitJoin(xs[1..], c);
      assert xs == [xs[0]] + xs[1..];
    }
  }

  /** `s.lstrip()`: the suffix left after dropping leading whitespace. */
  function LStrip(s: string): (r: string)
    ensures |r| <= |s| && r == s[|s| - |r|..]
    ensures forall i :: 0 <= i < |s| - |r| ==> IsSpace(s[i])
    ensures r == [] || !IsSpace(r[0])
  {
    if |s| > 0 && IsSpace(s[0]) then LStrip(s[1..]) else s
  }

  /** `s.rstrip()`: the prefix left after dropping trailing whitespace. */
  function RStrip(s: string): (r: string)
    ensures |r| <= |s| && r == s[..|r|]
    ensures forall i :: |r| <= i < |s| ==> IsSpace(s[i])
    ensures r == [] || !IsSpace(r[|r| - 1])
  {
    if |s| > 0 && IsSpace(s[|s| - 1]) then RStrip(s[..|s| - 1]) else s
  }

  /** `s.strip()`. */
  function Strip(s: string): (r: string)
    ensures r == [] || (!IsSpace(r[0]) && !IsSpace(r[|r| - 1]))
    ensures |r| <= |s|
  {
    RStrip(LStrip(s))
  }

  /** A string without whitespace at either end is its own `strip()`; so `strip()` is idempotent. */
  lemma StripFixed(s: string)
    requires s == [] || (!IsSpace(s[0]) && !IsSpace(s[|s| - 1]))
    ensures Strip(s) == s
  {
  }

  /** `strip()` keeps a piece of the string: the part after the leading whitespace `lstrip()` drops. */
  lemma StripIsInfix(s: string)
    ensures var i := |s| - |LStrip(s)|;
      i + |Strip(s)| <= |s| && Strip(s) == s[i..i + |Strip(s)|]
  {
    var l := LStrip(s);
    var r := RStrip(l);
    SubSlice(s, |s| - |l|, l, r);
  }

  /** A prefix of a suffix is an infix. */
  lemma SubSlice<T>(s: seq<T>, i: nat, l: seq<T>, r: seq<T>)
    requires i <= |s| && l == s[i..] && |r| <= |l| && r == l[..|r|]
    ensures i + |r| <= |s| && r == s[i..i + |r|]
  {
  }

  /** What `strip()` drops after the kept part is whitespace, as is what `lstrip()` drops before it. */
  lemma StripTrailing(s: string)
    ensures var i := |s| - |LStrip(s)|;
      forall k :: i + |Strip(s)| <= k < |s| ==> IsSpace(s[k])
  {
    var l := LStrip(s);
    var i := |s| - |l|;
    var r := RStrip(l);
    forall k | i + |r| <= k < |s|
      ensures IsSpace(s[k])
    {
      assert s[k] == l[k - i];
    }
  }

  /** `s.rstrip(c)`: the prefix left after dropping trailing copies of `c`. */
  function RStripChar(s: string, c: char): (r: string)
    ensures |r| <= |s| && r == s[..|r|]
    ensures forall i :: |r| <= i < |s| ==> s[i] == c
    ensures r == [] || r[|r| - 1] != c
  {
    if |s| > 0 && s[|s| - 1] == c then RStripChar(s[..|s| - 1], c) else s
  }

  /** With exactly `p` blanks in front, `lstrip()` keeps the string from position `p`. */
  lemma {:induction false} LStripAt(s: string, p: nat)
    requires p < |s| && !IsSpace(s[p])
    requires forall k :: 0 <= k < p ==> IsSpace(s[k])
    ensures LStrip(s) == s[p..]
    decreases p
  {
    if p > 0 {
      LStripAt(s[1..], p - 1);
      assert s[1..][p - 1..] == s[p..];
    }
  }

  /** A string that starts with `p` still does with anything appended. */
  lemma StartsWithAppend(a: string, b: string, p: string)
    requires StartsWith(a, p)
    ensures StartsWith(a + b, p)
  {
    assert (a + b)[..|p|] == a[..|p|];
  }

  /** Each piece preceded by `c`, concatenated: `''.join(c + p for p in xs)`. */
  function Prefixed(xs: seq<string>, c: char): string {
    if |xs| == 0 then "" else [c] + xs[0] + Prefixed(xs[1..], c)
  }

  /** Prefixing every piece with `c` is joining with `c` after an empty first piece. */
  lemma {:induction false} PrefixedJoin(xs: seq<string>, c: char)
    ensures Prefixed(xs, c) == Join([""] + xs, c)
    decreases |xs|
  {
    if |xs| > 0 {
      PrefixedJoin(xs[1..], c);
      var ys := [""] + xs;
      assert ys[1..] == xs;
      assert ([""] + xs[1..]) == [""] + xs[1..];
      if |xs| == 1 {
        assert Join(ys, c) == "" + [c] + Join(xs, c);
        assert Prefixed(xs[1..], c) == "";
      } else {
        assert Join(xs, c) == xs[0] + [c] + Join(xs[1..], c);
        assert Join([""] + xs[1..], c) == "" + [c] + Join(xs[1..], c);
      }
    }
  }

  /** `strip()` adds no character. */
  lemma StripKeepsOut(s: string, c: char)
    requires c !in s
    ensures c !in Strip(s)
  {
    StripIsInfix(s);
    var i := |s| - |LStrip(s)|;
    assert Strip(s) == s[i..i + |Strip(s)|];
  }
}
