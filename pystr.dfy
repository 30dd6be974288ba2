/** The few operations on Python `str` values that the core uses:
    `str.replace`, `str.removesuffix`, `str.split` / `str.join` on one
    separator character, `str(n)` for a natural number and `f'{n:02}'`. */
module PyStr {

  predicate IsDigit(c: char) { '0' <= c <= '9' }

  predicate AllDigits(s: string) { forall i | 0 <= i < |s| :: IsDigit(s[i]) }

  predicate NoDigits(s: string) { forall i | 0 <= i < |s| :: !IsDigit(s[i]) }

  predicate IsPrefix(w: string, s: string) { |w| <= |s| && s[..|w|] == w }

  predicate EndsWith(s: string, suffix: string) {
    |suffix| <= |s| && s[|s| - |suffix|..] == suffix
  }

  /** A text that starts with `w` is `w` followed by the rest. */
  lemma PrefixThenRest(w: string, s: string)
    requires IsPrefix(w, s)
    ensures s == w + s[|w|..]
  {
    assert s == s[..|w|] + s[|w|..];
  }

  /** `t` occurs in `s` starting at index `i`. */
  predicate OccursAt(s: string, t: string, i: int) {
    0 <= i && i + |t| <= |s| && s[i..i + |t|] == t
  }

  /** Python's `t in s`. */
  predicate Occurs(s: string, t: string) {
    exists i | 0 <= i <= |s| - |t| :: OccursAt(s, t, i)
  }

  /** `s.removesuffix(suffix)`: at most one copy of the suffix is removed. */
  function RemoveSuffix(s: string, suffix: string): (r: string)
    ensures EndsWith(s, suffix) ==> r + suffix == s
    ensures !EndsWith(s, suffix) ==> r == s
  {
    if EndsWith(s, suffix) then s[..|s| - |suffix|] else s
  }

  /** `s.replace(pat, rep)`: a left-to-right scan that replaces each
      non-overlapping occurrence of `pat`. */
  function Replace(s: string, pat: string, rep: string): string
    requires pat != []
    decreases |s|
  {
    if |s| < |pat| then s
    else if s[..|pat|] == pat then rep + Replace(s[|pat|..], pat, rep)
    else [s[0]] + Replace(s[1..], pat, rep)
  }

  // ---------------------------------------------------------------------
  // Replace: what the scan can and cannot produce

  /** Every character of the output comes from the input or from `rep`. */
  lemma {:induction false} ReplaceCharsFrom(s: string, pat: string, rep: string, c: char)
    requires pat != []
    requires c in Replace(s, pat, rep)
    ensures c in s || c in rep
  {
    if |s| < |pat| {
    } else if s[..|pat|] == pat {
      if c !in rep {
        ReplaceCharsFrom(s[|pat|..], pat, rep, c);
      }
    } else if c != s[0] {
      ReplaceCharsFrom(s[1..], pat, rep, c);
    }
  }

  /** A text that cannot start a match is copied through unchanged. */
  lemma {:induction false} ReplaceSkipsPrefix(x: string, y: string, pat: string, rep: string)
    requires pat != []
    requires pat[0] !in x
    ensures Replace(x + y, pat, rep) == x + Replace(y, pat, rep)
  {
    if x != [] {
      var s := x + y;
      assert s[0] == x[0] != pat[0];
      assert s[1..] == x[1..] + y;
      assert pat[0] !in x[1..];
      ReplaceSkipsPrefix(x[1..], y, pat, rep);
      if |s| >= |pat| {
        assert s[..|pat|] != pat;
        assert Replace(s, pat, rep) == [x[0]] + (x[1..] + Replace(y, pat, rep));
      } else {
        assert Replace(y, pat, rep) == y;
      }
      assert [x[0]] + x[1..] == x;
    } else {
      assert x + y == y;
    }
  }

  lemma NotOccursAt(s: string, t: string, i: int)
    requires !Occurs(s, t)
    ensures !OccursAt(s, t, i)
  {
    if 0 <= i <= |s| - |t| {
      assert !OccursAt(s, t, i);
    }
  }

  /** A slice of the tail is the slice one further along. */
  lemma TailSlice(s: string, i: nat, n: nat)
    requires i + 1 + n <= |s|
    ensures s[1..][i..i + n] == s[i + 1..i + 1 + n]
  {
  }

  /** An input in which `pat` does not occur is returned unchanged. */
  lemma {:induction false} ReplaceAbsent(s: string, pat: string, rep: string)
    requires pat != []
    requires !Occurs(s, pat)
    ensures Replace(s, pat, rep) == s
  {
    if |s| >= |pat| {
      assert !OccursAt(s, pat, 0);
      forall i | 0 <= i <= |s[1..]| - |pat| ensures !OccursAt(s[1..], pat, i) {
        NotOccursAt(s, pat, i + 1);
        TailSlice(s, i, |pat|);
      }
      ReplaceAbsent(s[1..], pat, rep);
    }
  }

  /** When `rep` is made of digits, a digit-free prefix of the output was
      already a prefix of the input. */
  lemma {:induction false} DigitFreePrefixBack(s: string, pat: string, rep: string, w: string)
    requires pat != [] && rep != [] && AllDigits(rep) && NoDigits(w)
    ensures IsPrefix(w, Replace(s, pat, rep)) ==> IsPrefix(w, s)
  {
    var out := Replace(s, pat, rep);
    if w == [] || |s| < |pat| {
    } else if s[..|pat|] == pat {
      assert out[0] == rep[0];
    } else {
      var r := Replace(s[1..], pat, rep);
      assert out == [s[0]] + r;
      if IsPrefix(w, out) {
        assert out[1..] == r;
        assert w[1..] == out[1..][..|w| - 1];
        DigitFreePrefixBack(s[1..], pat, rep, w[1..]);
        assert w == [w[0]] + w[1..] && w[0] == s[0];
        assert s[..|w|] == [s[0]] + s[1..][..|w| - 1];
      }
    }
  }

  /** An occurrence in a tail of `s` is an occurrence in `s`. */
  lemma OccursInTail(s: string, k: nat, w: string, j: int)
    requires k <= |s| && OccursAt(s[k..], w, j)
    ensures OccursAt(s, w, j + k) && Occurs(s, w)
  {
    assert s[j + k..j + k + |w|] == s[k..][j..j + |w|];
    assert OccursAt(s, w, j + k);
    assert 0 <= j + k <= |s| - |w|;
  }

  /** When `rep` is made of digits, every occurrence of a digit-free text
      in the output was already present in the input. */
  lemma {:induction false} DigitFreeOccursBack(s: string, pat: string, rep: string, w: string, i: int)
    requires pat != [] && rep != [] && AllDigits(rep) && w != [] && NoDigits(w)
    ensures OccursAt(Replace(s, pat, rep), w, i) ==> Occurs(s, w)
  {
    var out := Replace(s, pat, rep);
    if |s| < |pat| {
      if OccursAt(out, w, i) {
        assert OccursAt(s, w, i);
      }
    } else if s[..|pat|] == pat {
      var r := Replace(s[|pat|..], pat, rep);
      assert out == rep + r;
      if i < |rep| {
        if 0 <= i {
          assert out[i] == rep[i];
        }
      } else if OccursAt(out, w, i) {
        assert r[i - |rep|..i - |rep| + |w|] == out[i..i + |w|];
        DigitFreeOccursBack(s[|pat|..], pat, rep, w, i - |rep|);
        var j :| 0 <= j <= |s[|pat|..]| - |w| && OccursAt(s[|pat|..], w, j);
        OccursInTail(s, |pat|, w, j);
      }
    } else {
      var r := Replace(s[1..], pat, rep);
      assert out == [s[0]] + r;
      if !OccursAt(out, w, i) {
      } else if i == 0 {
        assert IsPrefix(w, out);
        DigitFreePrefixBack(s, pat, rep, w);
        assert OccursAt(s, w, 0);
      } else {
        assert r[i - 1..i - 1 + |w|] == out[i..i + |w|];
        DigitFreeOccursBack(s[1..], pat, rep, w, i - 1);
        var j :| 0 <= j <= |s[1..]| - |w| && OccursAt(s[1..], w, j);
        OccursInTail(s, 1, w, j);
      }
    }
  }

  /** A digit replacement cannot create a digit-free text that was absent. */
  lemma DigitReplaceKeepsAbsent(s: string, pat: string, rep: string, w: string)
    requires pat != [] && rep != [] && AllDigits(rep) && w != [] && NoDigits(w)
    requires !Occurs(s, w)
    ensures !Occurs(Replace(s, pat, rep), w)
  {
    var out := Replace(s, pat, rep);
    forall i | 0 <= i <= |out| - |w| ensures !OccursAt(out, w, i) {
      DigitFreeOccursBack(s, pat, rep, w, i);
    }
  }

  /** Replacing a digit-free pattern by digits leaves no occurrence of it. */
  lemma {:induction false} ReplaceRemovesAll(s: string, pat: string, rep: string)
    requires pat != [] && NoDigits(pat) && rep != [] && AllDigits(rep)
    ensures !Occurs(Replace(s, pat, rep), pat)
  {
    if |s| < |pat| {
      assert Replace(s, pat, rep) == s;
    } else if s[..|pat|] == pat {
      ReplaceRemovesAll(s[|pat|..], pat, rep);
      NotAfterDigits(rep, Replace(s[|pat|..], pat, rep), pat);
    } else {
      ReplaceRemovesAll(s[1..], pat, rep);
      NotAfterSkipped(s, pat, rep);
    }
  }

  /** Digits in front cannot start an occurrence of a digit-free text. */
  lemma NotAfterDigits(rep: string, r: string, pat: string)
    requires pat != [] && NoDigits(pat) && AllDigits(rep) && !Occurs(r, pat)
    ensures !Occurs(rep + r, pat)
  {
    var out := rep + r;
    forall i | 0 <= i <= |out| - |pat| ensures !OccursAt(out, pat, i) {
      if i < |rep| {
        assert out[i] == rep[i];
      } else {
        assert out[|rep|..] == r;
        assert out[i..i + |pat|] == out[|rep|..][i - |rep|..i - |rep| + |pat|];
        assert !OccursAt(r, pat, i - |rep|);
      }
    }
  }

  /** A character kept by the scan, where the pattern did not start,
      starts no occurrence in the output either. */
  lemma NotAfterSkipped(s: string, pat: string, rep: string)
    requires pat != [] && NoDigits(pat) && rep != [] && AllDigits(rep)
    requires |s| >= |pat| && s[..|pat|] != pat
    requires !Occurs(Replace(s[1..], pat, rep), pat)
    ensures !Occurs([s[0]] + Replace(s[1..], pat, rep), pat)
  {
    NotAtSkipped(s, pat, rep);
    NotAfterChar(s[0], Replace(s[1..], pat, rep), pat);
  }

  /** The output does not start with the pattern where the input did not. */
  lemma NotAtSkipped(s: string, pat: string, rep: string)
    requires pat != [] && NoDigits(pat) && rep != [] && AllDigits(rep)
    requires |s| >= |pat| && s[..|pat|] != pat
    ensures !OccursAt([s[0]] + Replace(s[1..], pat, rep), pat, 0)
  {
    DigitFreePrefixBack(s[1..], pat, rep, pat[1..]);
  }

  /** After one character, an output without the pattern still has none. */
  lemma NotAfterChar(c: char, r: string, pat: string)
    requires !Occurs(r, pat)
    ensures forall i | 1 <= i <= |[c] + r| - |pat| :: !OccursAt([c] + r, pat, i)
  {
    var out := [c] + r;
    forall i | 1 <= i <= |out| - |pat| ensures !OccursAt(out, pat, i) {
      assert r[i - 1..i - 1 + |pat|] == out[i..i + |pat|];
      assert !OccursAt(r, pat, i - 1);
    }
  }

  // ---------------------------------------------------------------------
  // Decimal rendering: `str(n)` and `f'{n:02}'`

  function DigitChar(d: nat): (c: char)
    requires d < 10
    ensures IsDigit(c)
  {
    "0123456789"[d]
  }

  function DigitValue(c: char): (d: nat)
    requires IsDigit(c)
    ensures d < 10
  {
    (c as int - '0' as int) as nat
  }

  /** The number a string of decimal digits denotes (leading zeros allowed). */
  function DecimalValue(s: string): nat
    requires AllDigits(s)
  {
    if s == [] then 0 else DecimalValue(s[..|s| - 1]) * 10 + DigitValue(s[|s| - 1])
  }

  /** `str(n)` for a natural number: no sign, no padding. */
  function NatToString(n: nat): (r: string)
    ensures r != [] && AllDigits(r)
    ensures r[0] == '0' ==> n == 0
    ensures |r| == 1 <==> n < 10
  {
    if n < 10 then [DigitChar(n)] else NatToString(n / 10) + [DigitChar(n % 10)]
  }

  /** `str(n)` is read back as `n`. */
  lemma {:induction false} NatToStringRoundTrip(n: nat)
    ensures DecimalValue(NatToString(n)) == n
  {
    var s := NatToString(n);
    if n >= 10 {
      NatToStringRoundTrip(n / 10);
      assert s[..|s| - 1] == NatToString(n / 10);
    }
    assert DigitValue(DigitChar(n % 10)) == n % 10;
  }

  /** `f'{n:02}'`: at least two characters, zero-padded on the left. */
  function Pad2(n: nat): (r: string)
    ensures r != [] && AllDigits(r)
    ensures DecimalValue(r) == n
    ensures n < 100 <==> |r| == 2
  {
    NatToStringRoundTrip(n);
    if n < 10 then
      var d := NatToString(n);
      assert ("0" + d)[..1] == "0";
      "0" + d
    else
      assert n >= 100 ==> NatToString(n / 10) != [] && NatToString(n / 10)[0] != '0';
      NatLength(n);
      NatToString(n)
  }

  /** `str(n)` has two characters exactly for the two-digit numbers. */
  lemma {:induction false} NatLength(n: nat)
    ensures |NatToString(n)| == 2 <==> 10 <= n < 100
  {
    if n >= 100 {
      NatLength(n / 10);
    }
  }

  // ---------------------------------------------------------------------
  // `s.split(sep)` and `sep.join(parts)` for one separator character

  /** `s.split(sep)`: always at least one part; empty parts are kept. */
  function Split(s: string, sep: char): (parts: seq<string>)
    ensures |parts| >= 1
    decreases |s|
  {
    if s == [] then [[]]
    else if s[0] == sep then [[]] + Split(s[1..], sep)
    else
      var rest := Split(s[1..], sep);
      [[s[0]] + rest[0]] + rest[1..]
  }

  /** `sep.join(parts)`. */
  function Join(parts: seq<string>, sep: char): string
  {
    if parts == [] then []
    else if |parts| == 1 then parts[0]
    else parts[0] + [sep] + Join(parts[1..], sep)
  }

  function Reverse<T>(s: seq<T>): (r: seq<T>)
    ensures |r| == |s|
    ensures forall i | 0 <= i < |s| :: r[i] == s[|s| - 1 - i]
  {
    if s == [] then [] else Reverse(s[1..]) + [s[0]]
  }

  /** No part produced by `Split` contains the separator. */
  lemma {:induction false} SplitPartsFree(s: string, sep: char)
    ensures forall k | 0 <= k < |Split(s, sep)| :: sep !in Split(s, sep)[k]
  {
    if s != [] {
      SplitPartsFree(s[1..], sep);
    }
  }

  /** Joining what `Split` produced gives the original text back. */
  lemma {:induction false} JoinSplit(s: string, sep: char)
    ensures Join(Split(s, sep), sep) == s
  {
    if s != [] {
      var rest := Split(s[1..], sep);
      JoinSplit(s[1..], sep);
      if s[0] == sep {
        assert Join(Split(s, sep), sep) == [] + [sep] + Join(rest, sep);
      } else {
        var parts := [[s[0]] + rest[0]] + rest[1..];
        if |rest| == 1 {
          assert Join(parts, sep) == [s[0]] + rest[0];
        } else {
          assert parts[1..] == rest[1..];
          assert Join(parts, sep) == [s[0]] + rest[0] + [sep] + Join(rest[1..], sep);
          assert Join(rest, sep) == rest[0] + [sep] + Join(rest[1..], sep);
        }
      }
    }
  }

  /** Splitting a join of separator-free parts gives the parts back. */
  lemma {:induction false} SplitJoin(parts: seq<string>, sep: char)
    requires |parts| >= 1
    requires forall k | 0 <= k < |parts| :: sep !in parts[k]
    ensures Split(Join(parts, sep), sep) == parts
  {
    if |parts| == 1 {
      SplitNoSep(parts[0], sep);
    } else {
      SplitJoin(parts[1..], sep);
      SplitPrefixPart(parts[0], Join(parts[1..], sep), sep);
      assert Join(parts, sep) == parts[0] + ([sep] + Join(parts[1..], sep));
      assert [parts[0]] + parts[1..] == parts;
    }
  }

  lemma {:induction false} SplitNoSep(s: string, sep: char)
    requires sep !in s
    ensures Split(s, sep) == [s]
  {
    if s != [] {
      SplitNoSep(s[1..], sep);
      assert [s[0]] + s[1..] == s;
    }
  }

  /** Splitting `p + sep + t` where `p` has no separator. */
  lemma {:induction false} SplitPrefixPart(p: string, t: string, sep: char)
    requires sep !in p
    ensures Split(p + [sep] + t, sep) == [p] + Split(t, sep)
  {
    if p == [] {
      assert [] + [sep] + t == [sep] + t;
      assert ([sep] + t)[1..] == t;
    } else {
      var s := p + [sep] + t;
      assert s[0] == p[0] && s[1..] == p[1..] + [sep] + t;
      SplitPrefixPart(p[1..], t, sep);
      assert [p[0]] + p[1..] == p;
    }
  }
}
