/** The string operations of Rust's `str` that the atlas builder relies on:
    `replace`, `trim_start_matches` and the decimal rendering of an index. */
module Text {

  /** `s` begins with `p` (Rust `str::starts_with`). */
  predicate StartsWith(s: string, p: string) {
    |p| <= |s| && s[..|p|] == p
  }

  /** Rust `str::replace(from, to)` for a non-empty pattern: the occurrences of
      `from` are found left to right, leftmost first and without overlap, and
      each is replaced by `to`. A `char` pattern is the one-character string.
      A replacement as long as the pattern keeps the length; a shorter one
      never lengthens the text. */
  function Replace(s: string, from: string, to: string): (r: string)
    requires |from| > 0
    ensures |to| == |from| ==> |r| == |s|
    ensures |to| <= |from| ==> |r| <= |s|
    decreases |s|
  {
    if |s| < |from| then s
    else if StartsWith(s, from) then to + Replace(s[|from|..], from, to)
    else [s[0]] + Replace(s[1..], from, to)
  }

  /** Replacing one character by another is a character-wise map. */
  lemma {:induction false} ReplaceCharAt(s: string, c: char, d: char)
    ensures |Replace(s, [c], [d])| == |s|
    ensures forall i :: 0 <= i < |s| ==>
      Replace(s, [c], [d])[i] == if s[i] == c then d else s[i]
  {
    if |s| > 0 {
      ReplaceCharAt(s[1..], c, d);
      if StartsWith(s, [c]) {
        assert s[0] == c;
      } else {
        assert s[..1] == [s[0]];
      }
    }
  }

  /** After a character replacement the replaced character is gone. */
  lemma ReplaceCharRemoves(s: string, c: char, d: char)
    requires c != d
    ensures c !in Replace(s, [c], [d])
  {
    ReplaceCharAt(s, c, d);
  }

  /** Every character of a replacement result comes from the input or from
      the replacement text: replacing never invents a character. */
  lemma {:induction false} ReplaceChars(s: string, from: string, to: string, ch: char)
    requires |from| > 0
    requires ch in Replace(s, from, to)
    ensures ch in s || ch in to
  {
    if |s| >= |from| {
      var r := Replace(s[|from|..], from, to);
      if StartsWith(s, from) {
        if ch !in to {
          assert ch in r;
          ReplaceChars(s[|from|..], from, to, ch);
        }
      } else if ch != s[0] {
        assert ch in Replace(s[1..], from, to);
        ReplaceChars(s[1..], from, to, ch);
      }
    }
  }

  /** No two consecutive copies of `c` in `s`. */
  predicate NoPair(s: string, c: char) {
    forall i :: 0 <= i < |s| - 1 ==> !(s[i] == c && s[i + 1] == c)
  }

  lemma NoPairConcat(a: string, b: string, c: char)
    requires NoPair(a, c) && NoPair(b, c)
    requires |a| > 0 && |b| > 0 ==> a[|a| - 1] != c || b[0] != c
    ensures NoPair(a + b, c)
  {
    var ab := a + b;
    forall i | 0 <= i < |ab| - 1
      ensures !(ab[i] == c && ab[i + 1] == c)
    {
      if i < |a| - 1 {
        assert ab[i] == a[i] && ab[i + 1] == a[i + 1];
      } else if i >= |a| {
        assert ab[i] == b[i - |a|] && ab[i + 1] == b[i - |a| + 1];
      }
    }
  }

  /** The first character of a replacement result, when the input does not
      begin with the pattern, is the input's first character. */
  lemma ReplaceHead(s: string, from: string, to: string)
    requires |from| > 0 && |s| > 0 && !StartsWith(s, from)
    ensures |Replace(s, from, to)| > 0 && Replace(s, from, to)[0] == s[0]
  {
  }

  /** Replacing every pair `cc` by a text free of `c` leaves no pair `cc`:
      the scan is left to right, so a `c` that survives is never followed by
      another `c`. */
  lemma {:induction false} ReplacePairLeavesNoPair(s: string, c: char, to: string)
    requires c !in to
    ensures NoPair(Replace(s, [c, c], to), c)
  {
    var from := [c, c];
    if |s| < 2 {
    } else if StartsWith(s, from) {
      ReplacePairLeavesNoPair(s[2..], c, to);
      NoPairConcat(to, Replace(s[2..], from, to), c);
    } else {
      var rest := Replace(s[1..], from, to);
      ReplacePairLeavesNoPair(s[1..], c, to);
      if s[0] == c {
        assert s[1] != c by { assert s[..2] == [s[0], s[1]]; }
        assert !StartsWith(s[1..], from);
        ReplaceHead(s[1..], from, to);
      }
      NoPairConcat([s[0]], rest, c);
    }
  }

  /** `p` occurs in `s` starting at position `i`. */
  predicate OccursAt(s: string, p: string, i: int) {
    0 <= i && i + |p| <= |s| && s[i..i + |p|] == p
  }

  /** `p` occurs somewhere in `s` (Rust `str::contains`). */
  predicate Contains(s: string, p: string) {
    exists i :: 0 <= i <= |s| && OccursAt(s, p, i)
  }

  lemma OccursInTail(s: string, p: string, i: int)
    requires |s| > 0 && OccursAt(s[1..], p, i)
    ensures OccursAt(s, p, i + 1)
  {
    assert s[1..][i..i + |p|] == s[i + 1..i + 1 + |p|];
  }

  /** A text in which the pattern does not occur is left as it is. */
  lemma {:induction false} ReplaceAbsent(s: string, from: string, to: string)
    requires |from| > 0 && !Contains(s, from)
    ensures Replace(s, from, to) == s
  {
    if |s| >= |from| {
      assert !OccursAt(s, from, 0);
      assert s[0..|from|] == s[..|from|];
      if Contains(s[1..], from) {
        var i :| 0 <= i <= |s[1..]| && OccursAt(s[1..], from, i);
        OccursInTail(s, from, i);
      }
      ReplaceAbsent(s[1..], from, to);
      assert s == [s[0]] + s[1..];
    }
  }

  /** What does not occur in a text does not occur in its prefixes. */
  lemma ContainsPrefix(s: string, n: nat, p: string)
    requires n <= |s| && Contains(s[..n], p)
    ensures Contains(s, p)
  {
    var i :| 0 <= i <= n && OccursAt(s[..n], p, i);
    assert s[..n][i..i + |p|] == s[i..i + |p|];
    assert OccursAt(s, p, i);
  }

  /** A text with no pair `cc` is left unchanged by replacing the pairs. */
  lemma {:induction false} ReplacePairAbsent(s: string, c: char, to: string)
    requires NoPair(s, c)
    ensures Replace(s, [c, c], to) == s
  {
    if |s| >= 2 {
      assert !StartsWith(s, [c, c]) by { assert !(s[0] == c && s[1] == c); }
      assert NoPair(s[1..], c) by {
        forall i | 0 <= i < |s[1..]| - 1 ensures !(s[1..][i] == c && s[1..][i + 1] == c) {
          assert s[1..][i] == s[i + 1] && s[1..][i + 1] == s[i + 2];
        }
      }
      ReplacePairAbsent(s[1..], c, to);
      assert s == [s[0]] + s[1..];
    }
  }

  /** Rust `str::trim_start_matches` with a non-empty string pattern: strip
      the pattern from the front for as long as it is there. */
  function TrimStartMatches(s: string, p: string): (r: string)
    requires |p| > 0
    ensures !StartsWith(r, p)
    ensures |r| <= |s| && r == s[|s| - |r|..]
    decreases |s|
  {
    if StartsWith(s, p) then TrimStartMatches(s[|p|..], p) else s
  }

  /** `k` copies of `p`. */
  function Repeat(p: string, k: nat): string {
    if k == 0 then [] else p + Repeat(p, k - 1)
  }

  /** How many copies `TrimStartMatches` removes. */
  function TrimCount(s: string, p: string): nat
    requires |p| > 0
    decreases |s|
  {
    if StartsWith(s, p) then 1 + TrimCount(s[|p|..], p) else 0
  }

  /** What `TrimStartMatches` removes is a whole number of copies of the
      pattern, so the input is those copies followed by the result. */
  lemma {:induction false} TrimStartMatchesSplits(s: string, p: string)
    requires |p| > 0
    ensures s == Repeat(p, TrimCount(s, p)) + TrimStartMatches(s, p)
    decreases |s|
  {
    if StartsWith(s, p) {
      var rest := s[|p|..];
      TrimStartMatchesSplits(rest, p);
      assert s == p + rest;
      ConcatAssoc(p, Repeat(p, TrimCount(rest, p)), TrimStartMatches(rest, p));
    } else {
      assert Repeat(p, 0) + s == s;
    }
  }

  lemma ConcatAssoc(a: string, b: string, c: string)
    ensures a + (b + c) == (a + b) + c
  {
  }

  /** The decimal digit for `d`. */
  function Digit(d: nat): char
    requires d < 10
  {
    "0123456789"[d]
  }

  /** Rust `u32::to_string`: the shortest decimal rendering of `n`. */
  function NatToString(n: nat): (r: string)
    ensures |r| > 0
    ensures forall i :: 0 <= i < |r| ==> '0' <= r[i] <= '9'
    ensures n >= 10 ==> |r| >= 2
  {
    if n < 10 then [Digit(n)] else NatToString(n / 10) + [Digit(n % 10)]
  }

  lemma DigitInjective(a: nat, b: nat)
    requires a < 10 && b < 10 && Digit(a) == Digit(b)
    ensures a == b
  {
  }

  /** Distinct numbers have distinct renderings. */
  lemma {:induction false} NatToStringInjective(a: nat, b: nat)
    requires NatToString(a) == NatToString(b)
    ensures a == b
  {
    var s := NatToString(a);
    if a < 10 && b < 10 {
      DigitInjective(a, b);
    } else if a >= 10 && b >= 10 {
      assert s[..|s| - 1] == NatToString(a / 10) == NatToString(b / 10);
      NatToStringInjective(a / 10, b / 10);
      DigitInjective(a % 10, b % 10);
    }
  }
}
