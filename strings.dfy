/**
 * The .NET string operations that the error dialog relies on: Contains,
 * StartsWith, IndexOf, Replace, Trim and ToLower. A `char` is a Unicode
 * scalar value, so a character outside the Basic Multilingual Plane is one
 * element here where .NET stores a surrogate pair; Utf16Length gives the
 * length .NET reports. Every comparison here is ordinal. That is exact
 * for Contains, Replace, IndexOf(char) and Split(char); StartsWith(string),
 * IndexOf(string) and ToLower(), which .NET performs by the current culture,
 * are modelled by their ordinal (and, for ToLower, ASCII) counterparts.
 */
module Strings {

  /** `p` occurs in `s` at index `i`. */
  predicate Occurs(s: string, p: string, i: int)
  {
    0 <= i && i + |p| <= |s| && s[i..i + |p|] == p
  }

  /** String.Contains(p), ordinal. */
  predicate Contains(s: string, p: string)
  {
    exists i | 0 <= i <= |s| - |p| :: Occurs(s, p, i)
  }

  /** String.StartsWith(p) under an ordinal comparison. */
  predicate StartsWith(s: string, p: string)
  {
    |p| <= |s| && s[..|p|] == p
  }

  /** String.EndsWith(p) under an ordinal comparison. */
  predicate EndsWith(s: string, p: string)
  {
    |p| <= |s| && s[|s| - |p|..] == p
  }

  lemma StartsWithAppend(a: string, b: string)
    ensures StartsWith(a + b, a)
  {
    assert (a + b)[..|a|] == a;
  }

  lemma EndsWithAppend(a: string, b: string)
    ensures EndsWith(a + b, b)
  {
    assert (a + b)[|a|..] == b;
  }

  lemma OccursInTail(s: string, p: string)
    requires |s| > 0
    ensures forall i :: 1 <= i ==> (Occurs(s, p, i) <==> Occurs(s[1..], p, i - 1))
  {
    forall i | 1 <= i ensures Occurs(s, p, i) <==> Occurs(s[1..], p, i - 1) {
      if 0 <= i - 1 && i - 1 + |p| <= |s| - 1 {
        assert s[1..][i - 1..i - 1 + |p|] == s[i..i + |p|];
      }
    }
  }

  /** String.IndexOf(p) under an ordinal comparison: the first index at which `p` occurs, or -1. */
  function IndexOf(s: string, p: string): (r: int)
    ensures -1 <= r
    ensures r == -1 <==> !Contains(s, p)
    ensures r >= 0 ==> Occurs(s, p, r) && forall j :: 0 <= j < r ==> !Occurs(s, p, j)
    decreases |s|
  {
    if |s| < |p| then
      assert !Contains(s, p);
      -1
    else if s[..|p|] == p then
      assert Occurs(s, p, 0);
      0
    else
      var k := IndexOf(s[1..], p);
      OccursInTail(s, p);
      assert !Occurs(s, p, 0);
      assert Contains(s, p) ==> Contains(s[1..], p) by {
        if Contains(s, p) {
          var i :| 0 <= i <= |s| - |p| && Occurs(s, p, i);
          assert Occurs(s[1..], p, i - 1);
        }
      }
      assert k >= 0 ==> Occurs(s, p, k + 1);
      if k == -1 then -1 else k + 1
  }

  /** An occurrence inside a slice is an occurrence in the whole string. */
  lemma OccursInSlice(s: string, lo: int, hi: int, p: string, i: int)
    requires 0 <= lo <= hi <= |s|
    requires Occurs(s[lo..hi], p, i)
    ensures Occurs(s, p, lo + i)
  {
    forall k | 0 <= k < |p| ensures s[lo + i..lo + i + |p|][k] == p[k] {
      assert s[lo..hi][i..i + |p|][k] == p[k];
    }
  }

  /** A slice of a string that does not contain `p` does not contain it either. */
  lemma SliceKeepsAbsence(s: string, lo: int, hi: int, p: string)
    requires 0 <= lo <= hi <= |s|
    requires !Contains(s, p)
    ensures !Contains(s[lo..hi], p)
  {
    if Contains(s[lo..hi], p) {
      var i :| Occurs(s[lo..hi], p, i);
      OccursInSlice(s, lo, hi, p, i);
      assert false;
    }
  }

  /** A string that lacks the first character of `p` does not contain `p`. */
  lemma FirstCharAbsent(s: string, p: string)
    requires |p| > 0 && p[0] !in s
    ensures !Contains(s, p)
  {
    forall i | 0 <= i <= |s| - |p| ensures !Occurs(s, p, i) {
      assert s[i..i + |p|][0] == s[i];
    }
  }

  /** Whoever contains `p + q` contains `p`, at the same index. */
  lemma OccursOfPrefix(s: string, p: string, q: string, i: int)
    requires Occurs(s, p + q, i)
    ensures Occurs(s, p, i)
  {
    assert s[i..i + |p|] == s[i..i + |p + q|][..|p|];
  }

  /**
   * String.Replace(p, r) with a non-empty `p`, ordinal: scans left to right and
   * replaces every non-overlapping occurrence of `p` by `r`.
   */
  function ReplaceAll(s: string, p: string, r: string): string
    requires |p| > 0
    decreases |s|
  {
    if |s| < |p| then s
    else if s[..|p|] == p then r + ReplaceAll(s[|p|..], p, r)
    else [s[0]] + ReplaceAll(s[1..], p, r)
  }

  /** No character of `q` is a character of `r`. */
  predicate Disjoint(q: string, r: string)
  {
    forall k :: 0 <= k < |q| ==> q[k] !in r
  }

  /** Replacing leaves a string without occurrences untouched. */
  lemma {:induction false} ReplaceWithoutOccurrence(s: string, p: string, r: string)
    requires |p| > 0
    requires !Contains(s, p)
    ensures ReplaceAll(s, p, r) == s
    decreases |s|
  {
    if |s| >= |p| {
      assert !Occurs(s, p, 0);
      SliceKeepsAbsence(s, 1, |s|, p);
      assert s[1..|s|] == s[1..];
      ReplaceWithoutOccurrence(s[1..], p, r);
    }
  }

  /** The first character of the output, when the input is long enough to be matched. */
  lemma ReplaceHead(t: string, p: string, r: string)
    requires |p| > 0 && |r| > 0 && |t| >= |p|
    ensures |ReplaceAll(t, p, r)| > 0
    ensures ReplaceAll(t, p, r)[0] == if t[..|p|] == p then r[0] else t[0]
  {
  }

  /**
   * A prefix of the output that uses no character of the replacement was
   * already a prefix of the input.
   */
  lemma {:induction false} PrefixPulledBack(t: string, p: string, r: string, q: string)
    requires |p| > 0 && |r| > 0
    requires Disjoint(q, r)
    requires StartsWith(ReplaceAll(t, p, r), q)
    ensures StartsWith(t, q)
    decreases |t|
  {
    if |t| >= |p| && |q| > 0 {
      var out := ReplaceAll(t, p, r);
      ReplaceHead(t, p, r);
      assert q[0] == out[0];
      assert q[0] !in r;
      assert r[0] in r;
      if t[..|p|] == p {
        assert false;
      } else {
        var rest := ReplaceAll(t[1..], p, r);
        assert out == [t[0]] + rest;
        assert q[1..] == rest[..|q| - 1];
        PrefixPulledBack(t[1..], p, r, q[1..]);
        assert q == [t[0]] + q[1..];
      }
    }
  }

  /**
   * A non-empty string that shares no character with `r` can only occur in
   * `r + rest` inside `rest`.
   */
  lemma OccursPastPrefix(r: string, rest: string, q: string, i: int)
    requires |q| > 0 && Disjoint(q, r)
    requires Occurs(r + rest, q, i)
    ensures i >= |r| && Occurs(rest, q, i - |r|)
  {
    assert q[0] == (r + rest)[i];
    assert i >= |r|;
    assert (r + rest)[i..i + |q|] == rest[i - |r|..i - |r| + |q|];
  }

  /**
   * Every occurrence, in the output, of a string that uses no character of the
   * replacement comes from an occurrence in the input.
   */
  lemma {:induction false} OccurrencePulledBack(s: string, p: string, r: string, q: string, i: int)
    requires |p| > 0 && |r| > 0
    requires Disjoint(q, r)
    requires Occurs(ReplaceAll(s, p, r), q, i)
    ensures Contains(s, q)
    decreases |s|
  {
    var out := ReplaceAll(s, p, r);
    if |s| < |p| {
      assert Occurs(s, q, i);
    } else if i == 0 {
      assert StartsWith(out, q);
      PrefixPulledBack(s, p, r, q);
      assert Occurs(s, q, 0);
    } else if s[..|p|] == p {
      var rest := ReplaceAll(s[|p|..], p, r);
      assert out == r + rest;
      if |q| == 0 {
        assert Occurs(s, q, 0);
      } else {
        OccursPastPrefix(r, rest, q, i);
        OccurrencePulledBack(s[|p|..], p, r, q, i - |r|);
        var j :| Occurs(s[|p|..], q, j);
        assert s[|p|..|s|] == s[|p|..];
        OccursInSlice(s, |p|, |s|, q, j);
      }
    } else {
      var rest := ReplaceAll(s[1..], p, r);
      assert out == [s[0]] + rest;
      assert out[i..i + |q|] == rest[i - 1..i - 1 + |q|];
      assert Occurs(rest, q, i - 1);
      OccurrencePulledBack(s[1..], p, r, q, i - 1);
      var j :| Occurs(s[1..], q, j);
      assert s[1..|s|] == s[1..];
      OccursInSlice(s, 1, |s|, q, j);
    }
  }

  /**
   * When the replacement shares no character with the pattern, the output has
   * no occurrence of the pattern left.
   */
  lemma {:induction false} ReplaceRemovesPattern(s: string, p: string, r: string)
    requires |p| > 0 && |r| > 0
    requires Disjoint(p, r)
    ensures !Contains(ReplaceAll(s, p, r), p)
    decreases |s|
  {
    var out := ReplaceAll(s, p, r);
    if |s| < |p| {
      assert out == s;
      assert forall i :: !Occurs(s, p, i);
    } else if s[..|p|] == p {
      var rest := ReplaceAll(s[|p|..], p, r);
      assert out == r + rest;
      ReplaceRemovesPattern(s[|p|..], p, r);
      forall i | Occurs(out, p, i) ensures false {
        OccursPastPrefix(r, rest, p, i);
      }
    } else {
      var rest := ReplaceAll(s[1..], p, r);
      assert out == [s[0]] + rest;
      ReplaceRemovesPattern(s[1..], p, r);
      forall i | Occurs(out, p, i) ensures false {
        if i == 0 {
          PrefixPulledBack(s, p, r, p);
        } else {
          assert out[i..i + |p|] == rest[i - 1..i - 1 + |p|];
          assert Occurs(rest, p, i - 1);
        }
      }
    }
  }

  /**
   * Replacing distributes over a concatenation whenever no occurrence can
   * straddle the seam: the pattern is one character long, or the second part
   * starts with a character that is not in the pattern.
   */
  lemma {:induction false} ReplaceAppend(a: string, b: string, p: string, r: string)
    requires |p| > 0
    requires |p| == 1 || |b| == 0 || b[0] !in p
    ensures ReplaceAll(a + b, p, r) == ReplaceAll(a, p, r) + ReplaceAll(b, p, r)
    decreases |a|
  {
    var s := a + b;
    if |a| == 0 {
      assert s == b;
    } else if |s| < |p| {
      assert ReplaceAll(a, p, r) == a && ReplaceAll(b, p, r) == b;
    } else if |a| < |p| {
      ReplaceAppend(a[1..], b, p, r);
      ReplaceAppendStraddle(a, b, p, r);
    } else if a[..|p|] == p {
      ReplaceAppend(a[|p|..], b, p, r);
      ReplaceAppendMatch(a, b, p, r);
    } else {
      ReplaceAppend(a[1..], b, p, r);
      ReplaceAppendCopy(a, b, p, r);
    }
  }

  lemma AppendAssoc(x: string, y: string, z: string)
    ensures x + (y + z) == (x + y) + z
  {
  }

  /** ReplaceAppend when `a` is shorter than the pattern but `a + b` is not. */
  lemma ReplaceAppendStraddle(a: string, b: string, p: string, r: string)
    requires 0 < |a| < |p| <= |a + b|
    requires b[0] !in p
    requires ReplaceAll(a[1..] + b, p, r) == ReplaceAll(a[1..], p, r) + ReplaceAll(b, p, r)
    ensures ReplaceAll(a + b, p, r) == ReplaceAll(a, p, r) + ReplaceAll(b, p, r)
  {
    StraddleIsNoMatch(a, b, p);
    ReplaceNoMatchStep(a + b, p, r);
    assert (a + b)[1..] == a[1..] + b;
    assert ReplaceAll(a[1..], p, r) == a[1..];
    assert ReplaceAll(a, p, r) == a;
    AppendAssoc([a[0]], a[1..], ReplaceAll(b, p, r));
    assert [a[0]] + a[1..] == a;
  }

  /** A window that reaches into `b` cannot match when `b` starts outside the pattern. */
  lemma StraddleIsNoMatch(a: string, b: string, p: string)
    requires 0 < |a| < |p| <= |a + b|
    requires b[0] !in p
    ensures (a + b)[..|p|] != p
  {
    assert (a + b)[..|p|][|a|] == b[0];
    assert p[|a|] in p;
  }

  /** Without a match at the front, the first character is copied. */
  lemma ReplaceNoMatchStep(s: string, p: string, r: string)
    requires 0 < |p| <= |s| && s[..|p|] != p
    ensures ReplaceAll(s, p, r) == [s[0]] + ReplaceAll(s[1..], p, r)
  {
  }

  /** ReplaceAppend when `a` starts with the pattern. */
  lemma ReplaceAppendMatch(a: string, b: string, p: string, r: string)
    requires 0 < |p| <= |a| && a[..|p|] == p
    requires ReplaceAll(a[|p|..] + b, p, r) == ReplaceAll(a[|p|..], p, r) + ReplaceAll(b, p, r)
    ensures ReplaceAll(a + b, p, r) == ReplaceAll(a, p, r) + ReplaceAll(b, p, r)
  {
    var s := a + b;
    assert s[..|p|] == a[..|p|];
    assert s[|p|..] == a[|p|..] + b;
    var x, y := ReplaceAll(a[|p|..], p, r), ReplaceAll(b, p, r);
    AppendAssoc(r, x, y);
  }

  /** ReplaceAppend when `a` is long enough but does not start with the pattern. */
  lemma ReplaceAppendCopy(a: string, b: string, p: string, r: string)
    requires 0 < |p| <= |a| && a[..|p|] != p
    requires ReplaceAll(a[1..] + b, p, r) == ReplaceAll(a[1..], p, r) + ReplaceAll(b, p, r)
    ensures ReplaceAll(a + b, p, r) == ReplaceAll(a, p, r) + ReplaceAll(b, p, r)
  {
    var s := a + b;
    assert s[..|p|] == a[..|p|];
    assert s[1..] == a[1..] + b;
    var x, y := ReplaceAll(a[1..], p, r), ReplaceAll(b, p, r);
    AppendAssoc([a[0]], x, y);
  }

  /** A first character that cannot start a match is copied through. */
  lemma ReplaceConsNonStart(c: char, x: string, p: string, r: string)
    requires |p| > 0 && c != p[0]
    ensures ReplaceAll([c] + x, p, r) == [c] + ReplaceAll(x, p, r)
  {
    var s := [c] + x;
    assert s[1..] == x;
    if |s| >= |p| {
      assert s[..|p|][0] == c;
    }
  }

  /** A leading text none of whose characters is in the pattern is copied through. */
  lemma {:induction false} ReplacePrefixFree(a: string, x: string, p: string, r: string)
    requires |p| > 0 && Disjoint(a, p)
    ensures ReplaceAll(a + x, p, r) == a + ReplaceAll(x, p, r)
    decreases |a|
  {
    if a != [] {
      assert p[0] in p;
      AppendAssoc([a[0]], a[1..], x);
      assert [a[0]] + a[1..] == a;
      ReplaceConsNonStart(a[0], a[1..] + x, p, r);
      ReplacePrefixFree(a[1..], x, p, r);
      AppendAssoc([a[0]], a[1..], ReplaceAll(x, p, r));
    } else {
      assert a + x == x;
    }
  }

  /**
   * Replace meets the first occurrence of a pattern that does not overlap
   * itself (its first character appears nowhere else in it) right after a
   * text free of the pattern.
   */
  lemma {:induction false} ReplaceAtFirstMatch(x: string, y: string, p: string, r: string)
    requires |p| > 0 && p[0] !in p[1..] && !Contains(x, p)
    ensures ReplaceAll(x + p + y, p, r) == x + r + ReplaceAll(y, p, r)
    decreases |x|
  {
    var s := x + p + y;
    if x == [] {
      assert s[..|p|] == p && s[|p|..] == y;
    } else {
      NoMatchBeforeFirst(x, y, p);
      ReplaceNoMatchStep(s, p, r);
      TailOfPieces(x, p, y);
      SliceKeepsAbsence(x, 1, |x|, p);
      assert x[1..|x|] == x[1..];
      ReplaceAtFirstMatch(x[1..], y, p, r);
      ConsPieces(x, r, ReplaceAll(y, p, r));
    }
  }

  /** No match starts inside a pattern-free `x` when the pattern does not overlap itself. */
  lemma NoMatchBeforeFirst(x: string, y: string, p: string)
    requires |p| > 0 && p[0] !in p[1..] && !Contains(x, p) && x != []
    ensures |x + p + y| >= |p| && (x + p + y)[..|p|] != p
  {
    var s := x + p + y;
    if |x| >= |p| {
      assert s[..|p|] == x[..|p|];
      assert !Occurs(x, p, 0);
    } else {
      assert p[|x|] == p[1..][|x| - 1];
      assert s[..|p|][|x|] == p[0] != p[|x|];
    }
  }

  lemma TailOfPieces(x: string, p: string, y: string)
    requires x != []
    ensures (x + p + y)[1..] == x[1..] + p + y
  {
  }

  lemma ConsPieces(x: string, r: string, z: string)
    requires x != []
    ensures [x[0]] + (x[1..] + r + z) == x + r + z
  {
    AppendAssoc([x[0]], x[1..] + r, z);
    AppendAssoc([x[0]], x[1..], r);
    assert [x[0]] + x[1..] == x;
  }

  /** A one-character pattern occurs exactly when its character is in the text. */
  lemma ContainsChar(s: string, c: char)
    ensures Contains(s, [c]) <==> c in s
  {
    if c in s {
      var i :| 0 <= i < |s| && s[i] == c;
      assert Occurs(s, [c], i);
    }
    if Contains(s, [c]) {
      var i :| 0 <= i <= |s| - 1 && Occurs(s, [c], i);
      assert s[i] == s[i..i + 1][0];
    }
  }

  /** The number of times the character `c` appears in `s`. */
  function Count(s: string, c: char): nat
  {
    if s == [] then 0 else (if s[0] == c then 1 else 0) + Count(s[1..], c)
  }

  lemma {:induction false} CountAppend(a: string, b: string, c: char)
    ensures Count(a + b, c) == Count(a, c) + Count(b, c)
    decreases |a|
  {
    if a != [] {
      assert (a + b)[1..] == a[1..] + b;
      assert (a + b)[0] == a[0];
      CountAppend(a[1..], b, c);
    } else {
      assert a + b == b;
    }
  }

  lemma MulSucc(k: int, n: int)
    ensures k * (n + 1) == k * n + k
  {
  }

  /** One step of a one-character replacement: the head character, then the rest. */
  lemma ReplaceCharStep(s: string, c: char, r: string)
    requires s != []
    ensures ReplaceAll(s, [c], r) == (if s[0] == c then r else [s[0]]) + ReplaceAll(s[1..], [c], r)
  {
    assert s[..1] == [c] <==> s[0] == c;
  }

  /** Replacing one character by `r` grows the string by |r| - 1 per occurrence. */
  lemma {:induction false} ReplaceCharLength(s: string, c: char, r: string)
    ensures |ReplaceAll(s, [c], r)| == |s| + (|r| - 1) * Count(s, c)
    decreases |s|
  {
    if s != [] {
      var head := if s[0] == c then r else [s[0]];
      var rest := ReplaceAll(s[1..], [c], r);
      ReplaceCharStep(s, c, r);
      ReplaceCharLength(s[1..], c, r);
      var n, k := Count(s[1..], c), |r| - 1;
      assert |ReplaceAll(s, [c], r)| == |head| + |rest|;
      assert |rest| == |s| - 1 + k * n;
      if s[0] == c {
        assert Count(s, c) == n + 1;
        MulSucc(k, n);
      } else {
        assert Count(s, c) == n;
      }
    }
  }

  /** How many `d`s the output of a one-character replacement holds. */
  lemma {:induction false} ReplaceCharCount(s: string, c: char, r: string, d: char)
    requires d != c
    ensures Count(ReplaceAll(s, [c], r), d) == Count(s, d) + Count(r, d) * Count(s, c)
    decreases |s|
  {
    if s != [] {
      var head := if s[0] == c then r else [s[0]];
      var rest := ReplaceAll(s[1..], [c], r);
      ReplaceCharStep(s, c, r);
      ReplaceCharCount(s[1..], c, r, d);
      CountAppend(head, rest, d);
      var n, k := Count(s[1..], c), Count(r, d);
      assert Count(ReplaceAll(s, [c], r), d) == Count(head, d) + Count(rest, d);
      assert Count(rest, d) == Count(s[1..], d) + k * n;
      if s[0] == c {
        assert Count(s, c) == n + 1 && Count(s, d) == Count(s[1..], d);
        MulSucc(k, n);
      } else {
        assert Count(s, c) == n;
      }
    }
  }

  lemma {:induction false} CountOfAbsent(s: string, c: char)
    requires c !in s
    ensures Count(s, c) == 0
    decreases |s|
  {
    if s != [] {
      assert s[0] != c;
      assert forall k :: 0 <= k < |s| - 1 ==> s[1..][k] == s[k + 1];
      CountOfAbsent(s[1..], c);
    }
  }

  /** The UTF-16 code units of `c`: two for a character outside the Basic Multilingual Plane. */
  function Utf16Units(c: char): nat
  {
    if c as int >= 0x1_0000 then 2 else 1
  }

  /**
   * String.Length: the number of UTF-16 code units. It is the number of
   * characters when all of them lie in the Basic Multilingual Plane, and
   * twice that when none does.
   */
  function Utf16Length(s: string): (n: nat)
    ensures |s| <= n <= 2 * |s|
    ensures (forall i :: 0 <= i < |s| ==> s[i] as int < 0x1_0000) ==> n == |s|
    ensures (forall i :: 0 <= i < |s| ==> s[i] as int >= 0x1_0000) ==> n == 2 * |s|
    decreases |s|
  {
    if s == [] then 0
    else
      assert forall i :: 0 <= i < |s| - 1 ==> s[1..][i] == s[i + 1];
      Utf16Units(s[0]) + Utf16Length(s[1..])
  }

  /** Code units add up over a concatenation. */
  lemma {:induction false} Utf16LengthAppend(a: string, b: string)
    ensures Utf16Length(a + b) == Utf16Length(a) + Utf16Length(b)
    decreases |a|
  {
    if a != [] {
      assert (a + b)[1..] == a[1..] + b;
      Utf16LengthAppend(a[1..], b);
    } else {
      assert a + b == b;
    }
  }

  /** Char.IsWhiteSpace: the Unicode white-space characters. */
  predicate IsWhiteSpace(c: char)
  {
    || c == ' ' || '\t' <= c <= '\r'
    || c == '\U{85}' || c == '\U{A0}' || c == '\U{1680}'
    || '\U{2000}' <= c <= '\U{200A}'
    || c == '\U{2028}' || c == '\U{2029}' || c == '\U{202F}' || c == '\U{205F}' || c == '\U{3000}'
  }

  predicate AllWhiteSpace(s: string)
  {
    forall k :: 0 <= k < |s| ==> IsWhiteSpace(s[k])
  }

  /** The first index at or after `i` that holds no white space, or |s|. */
  function SkipLeading(s: string, i: nat): (n: nat)
    requires i <= |s|
    ensures i <= n <= |s|
    ensures forall k :: i <= k < n ==> IsWhiteSpace(s[k])
    ensures n == |s| || !IsWhiteSpace(s[n])
    decreases |s| - i
  {
    if i < |s| && IsWhiteSpace(s[i]) then SkipLeading(s, i + 1) else i
  }

  /** The end of `s[..j]` once its trailing white space is dropped. */
  function SkipTrailing(s: string, j: nat): (n: nat)
    requires j <= |s|
    ensures n <= j
    ensures forall k :: n <= k < j ==> IsWhiteSpace(s[k])
    ensures n == 0 || !IsWhiteSpace(s[n - 1])
  {
    if 0 < j && IsWhiteSpace(s[j - 1]) then SkipTrailing(s, j - 1) else j
  }

  /** String.TrimStart(): drops the leading white space. */
  function TrimStart(s: string): (r: string)
    ensures |r| <= |s|
    ensures AllWhiteSpace(s[..|s| - |r|])
    ensures r == [] || !IsWhiteSpace(r[0])
  {
    var n := SkipLeading(s, 0);
    if n == 0 then s else s[n..]
  }

  /** String.TrimEnd(): drops the trailing white space. */
  function TrimEnd(s: string): (r: string)
    ensures |r| <= |s| && r == s[..|r|]
    ensures AllWhiteSpace(s[|r|..])
    ensures r == [] || !IsWhiteSpace(r[|r| - 1])
  {
    s[..SkipTrailing(s, |s|)]
  }

  /** String.Trim(): what is left once the white space at both ends is gone. */
  function Trim(s: string): (r: string)
    ensures |r| <= |s|
    ensures r == [] || (!IsWhiteSpace(r[0]) && !IsWhiteSpace(r[|r| - 1]))
  {
    TrimEnd(TrimStart(s))
  }

  /** A text with no white space at either end is its own trim. */
  lemma TrimOfTrimmed(s: string)
    requires s == [] || (!IsWhiteSpace(s[0]) && !IsWhiteSpace(s[|s| - 1]))
    ensures Trim(s) == s
  {
    assert SkipLeading(s, 0) == 0;
    assert TrimStart(s) == s;
    assert SkipTrailing(s, |s|) == |s|;
  }

  /**
   * The trimmed text is the slice of `s` at some index `i`, and everything
   * before and after that slice is white space.
   */
  lemma TrimOffset(s: string) returns (i: int)
    ensures Occurs(s, Trim(s), i) && AllWhiteSpace(s[..i]) && AllWhiteSpace(s[i + |Trim(s)|..])
  {
    i := SkipLeading(s, 0);
    var t := TrimStart(s);
    assert t == s[i..];
    var r := TrimEnd(t);
    assert AllWhiteSpace(s[..i]) by {
      assert forall k :: 0 <= k < i ==> s[..i][k] == s[k];
    }
    TrimSlice(s, t, r, i);
  }

  lemma TrimSlice(s: string, t: string, r: string, i: int)
    requires 0 <= i <= |s| && t == s[i..] && |r| <= |t| && r == t[..|r|]
    requires AllWhiteSpace(s[..i]) && AllWhiteSpace(t[|r|..])
    ensures Occurs(s, r, i) && AllWhiteSpace(s[..i]) && AllWhiteSpace(s[i + |r|..])
  {
    assert s[i + |r|..] == t[|r|..];
  }

  /** Char.ToLowerInvariant restricted to the ASCII letters. */
  function LowerChar(c: char): char
  {
    if 'A' <= c <= 'Z' then (c as int + 32) as char else c
  }

  /** String.ToLower(), letter by letter (ASCII letters only). */
  function ToLower(s: string): (r: string)
    ensures |r| == |s|
    ensures forall k :: 0 <= k < |s| ==> r[k] == LowerChar(s[k])
  {
    seq(|s|, k requires 0 <= k < |s| => LowerChar(s[k]))
  }
}
