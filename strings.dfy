/**
 * The few Python `str` operations the bot's message handling relies on,
 * written out as functions: `split` and `join` on one separator character,
 * `strip` with a set of characters, `lower`, the substring test `w in s`,
 * `isdigit` and `int`.
 *
 * Simplifications: `isdigit` accepts only the ASCII digits '0'..'9' and
 * `lower` folds only the ASCII letters 'A'..'Z'.
 */
module Strings {

  // ---------------------------------------------------------------------
  // str.split(sep) and sep.join(pieces)
  // ---------------------------------------------------------------------

  /** `s.split(sep)`: every separator ends a piece, so empty pieces are kept
      and the result is never empty (`"".split(" ") == [""]`). */
  function Split(s: string, sep: char): (r: seq<string>)
    ensures |r| >= 1
    ensures forall i :: 0 <= i < |r| ==> sep !in r[i]
  {
    if s == [] then [""]
    else
      var rest := Split(s[1..], sep);
      if s[0] == sep then [""] + rest
      else [[s[0]] + rest[0]] + rest[1..]
  }

  /** `sep.join(pieces)`; the empty list joins to the empty string. */
  function Join(pieces: seq<string>, sep: char): string
  {
    if pieces == [] then ""
    else if |pieces| == 1 then pieces[0]
    else pieces[0] + [sep] + Join(pieces[1..], sep)
  }

  /** Joining the pieces of a split gives the original text back. */
  lemma {:induction false} JoinSplit(s: string, sep: char)
    ensures Join(Split(s, sep), sep) == s
  {
    if s != [] {
      var rest := Split(s[1..], sep);
      JoinSplit(s[1..], sep);
      if s[0] == sep {
        assert Split(s, sep) == [""] + rest;
        assert ([""] + rest)[1..] == rest;
      } else {
        var r := Split(s, sep);
        assert r == [[s[0]] + rest[0]] + rest[1..];
        assert r[1..] == rest[1..];
        if |rest| > 1 {
          assert Join(rest, sep) == rest[0] + [sep] + Join(rest[1..], sep);
        }
      }
    }
  }

  /** Text without the separator is a single piece. */
  lemma {:induction false} SplitSeparatorFree(w: string, sep: char)
    requires sep !in w
    ensures Split(w, sep) == [w]
  {
    if w != [] {
      SplitSeparatorFree(w[1..], sep);
      assert [w[0]] + w[1..] == w;
    }
  }

  /** Splitting `a + sep + b` splits `a` and `b` independently. */
  lemma {:induction false} SplitConcat(a: string, b: string, sep: char)
    ensures Split(a + [sep] + b, sep) == Split(a, sep) + Split(b, sep)
  {
    if a == [] {
      SplitStep(sep, b, sep);
      assert a + [sep] + b == [sep] + b;
    } else {
      SplitConcat(a[1..], b, sep);
      SplitConcatStep(a[0], a[1..], b, sep);
      assert [a[0]] + a[1..] == a;
    }
  }

  /** The inductive step of `SplitConcat`: one more character in front. */
  lemma SplitConcatStep(c: char, a: string, b: string, sep: char)
    requires Split(a + [sep] + b, sep) == Split(a, sep) + Split(b, sep)
    ensures Split([c] + a + [sep] + b, sep) == Split([c] + a, sep) + Split(b, sep)
  {
    var t := a + [sep] + b;
    var ra, rb := Split(a, sep), Split(b, sep);
    assert [c] + a + [sep] + b == [c] + t;
    if c == sep {
      assert Split([c] + t, sep) == [""] + (ra + rb) by { SplitStep(c, t, sep); }
      assert Split([c] + a, sep) == [""] + ra by { SplitStep(c, a, sep); }
      ConsAssoc("", ra, rb);
    } else {
      var first := [c] + ra[0];
      HeadTail(ra, rb);
      assert Split([c] + t, sep) == [first] + (ra[1..] + rb) by { SplitStep(c, t, sep); }
      assert Split([c] + a, sep) == [first] + ra[1..] by { SplitStep(c, a, sep); }
      ConsAssoc(first, ra[1..], rb);
    }
  }

  lemma ConsAssoc<T>(x: T, p: seq<T>, q: seq<T>)
    ensures [x] + (p + q) == ([x] + p) + q
  {
  }

  lemma HeadTail<T>(p: seq<T>, q: seq<T>)
    requires |p| >= 1
    ensures (p + q)[0] == p[0] && (p + q)[1..] == p[1..] + q
  {
  }

  /** One step of `Split`: the first character either ends the first piece
      or joins it. */
  lemma SplitStep(c: char, t: string, sep: char)
    ensures var rest := Split(t, sep);
            Split([c] + t, sep) == if c == sep then [""] + rest else [[c] + rest[0]] + rest[1..]
  {
    assert ([c] + t)[1..] == t;
  }

  /** Splitting a join of separator-free pieces gives the pieces back;
      `[]` is excluded because it joins to `""`, which splits to `[""]`. */
  lemma {:induction false} SplitJoin(pieces: seq<string>, sep: char)
    requires pieces != []
    requires forall i :: 0 <= i < |pieces| ==> sep !in pieces[i]
    ensures Split(Join(pieces, sep), sep) == pieces
  {
    SplitSeparatorFree(pieces[0], sep);
    if |pieces| > 1 {
      SplitJoin(pieces[1..], sep);
      SplitConcat(pieces[0], Join(pieces[1..], sep), sep);
    }
  }

  // ---------------------------------------------------------------------
  // str.strip(chars) and str.lower()
  // ---------------------------------------------------------------------

  /** Where `s.lstrip(chars)` starts: the first position at or after `i`
      whose character is not in `chars`. */
  function StripStart(s: string, chars: set<char>, i: nat): (n: nat)
    requires i <= |s|
    ensures i <= n <= |s|
    ensures forall k :: i <= k < n ==> s[k] in chars
    ensures n == |s| || s[n] !in chars
    decreases |s| - i
  {
    if i < |s| && s[i] in chars then StripStart(s, chars, i + 1) else i
  }

  /** Where `s.rstrip(chars)` ends, looking no further left than `lo`. */
  function StripEnd(s: string, chars: set<char>, lo: nat, j: nat): (m: nat)
    requires lo <= j <= |s|
    ensures lo <= m <= j
    ensures forall k :: m <= k < j ==> s[k] in chars
    ensures m == lo || s[m - 1] !in chars
  {
    if j > lo && s[j - 1] in chars then StripEnd(s, chars, lo, j - 1) else j
  }

  /** `s.strip(chars)`: what is left is one contiguous slice of `s`,
      everything cut off at either end is in `chars`, and neither end of
      the slice is. */
  function Strip(s: string, chars: set<char>): (r: string)
    ensures exists a :: TrimmedAt(s, chars, a, r)
    ensures r == [] || (r[0] !in chars && r[|r| - 1] !in chars)
  {
    var a := StripStart(s, chars, 0);
    var b := StripEnd(s, chars, a, |s|);
    assert TrimmedAt(s, chars, a, s[a..b]);
    s[a..b]
  }

  /** `r` is `s[a..a + |r|]` and every character cut off around it is in `chars`. */
  predicate TrimmedAt(s: string, chars: set<char>, a: int, r: string)
  {
    0 <= a <= |s| - |r| && r == s[a..a + |r|]
    && (forall k :: 0 <= k < a ==> s[k] in chars)
    && (forall k :: a + |r| <= k < |s| ==> s[k] in chars)
  }

  function LowerChar(c: char): char
  {
    if 'A' <= c <= 'Z' then (c as int + 32) as char else c
  }

  /** `s.lower()`, character by character: each capital letter becomes its
      small letter, every other character (spaces and punctuation among
      them) stays where it is, and no capital letter is left. */
  function Lower(s: string): (r: string)
    ensures |r| == |s|
    ensures forall i :: 0 <= i < |s| ==> !('A' <= s[i] <= 'Z') ==> r[i] == s[i]
    ensures forall i :: 0 <= i < |s| ==> 'A' <= s[i] <= 'Z' ==>
              'a' <= r[i] <= 'z' && r[i] as int - s[i] as int == 'a' as int - 'A' as int
    ensures forall i :: 0 <= i < |r| ==> !('A' <= r[i] <= 'Z')
  {
    seq(|s|, i requires 0 <= i < |s| => LowerChar(s[i]))
  }

  /** Lowering twice is lowering once. */
  lemma LowerIdempotent(s: string)
    ensures Lower(Lower(s)) == Lower(s)
  {
  }

  // ---------------------------------------------------------------------
  // The substring test `w in s`
  // ---------------------------------------------------------------------

  predicate IsPrefix(w: string, s: string)
  {
    |w| <= |s| && s[..|w|] == w
  }

  /** Python's `w in s` on two strings: `w` occurs somewhere in `s`. */
  predicate Contains(s: string, w: string)
  {
    IsPrefix(w, s) || (s != [] && Contains(s[1..], w))
  }

  /** `w` occurs in `s` starting at position `i`. */
  predicate OccursAt(s: string, w: string, i: int)
  {
    0 <= i <= |s| - |w| && s[i..i + |w|] == w
  }

  /** `Contains` is exactly "occurs at some position". */
  lemma {:induction false} ContainsAt(s: string, w: string)
    ensures Contains(s, w) <==> exists i :: OccursAt(s, w, i)
  {
    if IsPrefix(w, s) {
      assert OccursAt(s, w, 0);
    }
    if s != [] {
      ContainsAt(s[1..], w);
      if Contains(s[1..], w) {
        var i :| OccursAt(s[1..], w, i);
        assert s[i + 1..i + 1 + |w|] == s[1..][i..i + |w|];
        assert OccursAt(s, w, i + 1);
      }
      if i :| OccursAt(s, w, i) {
        if i > 0 {
          assert s[1..][i - 1..i - 1 + |w|] == s[i..i + |w|];
          assert OccursAt(s[1..], w, i - 1);
        }
      }
    } else {
      if i :| OccursAt(s, w, i) {
        assert w == [];
      }
    }
  }

  // ---------------------------------------------------------------------
  // str.isdigit() and int(str)
  // ---------------------------------------------------------------------

  predicate IsDigitChar(c: char)
  {
    '0' <= c <= '9'
  }

  /** `w.isdigit()`: non-empty and made only of digits. */
  predicate IsDigits(w: string)
  {
    |w| > 0 && forall i :: 0 <= i < |w| ==> IsDigitChar(w[i])
  }

  /** `int(w)` for a string of digits, read most significant digit first;
      leading zeros are allowed. */
  function DecimalValue(w: string): nat
    requires forall i :: 0 <= i < |w| ==> IsDigitChar(w[i])
  {
    if w == [] then 0
    else DecimalValue(w[..|w| - 1]) * 10 + DigitValue(w[|w| - 1])
  }

  function DigitValue(c: char): nat
    requires IsDigitChar(c)
  {
    c as int - '0' as int
  }

  /** `str(n)` for a natural number: its shortest decimal spelling. */
  function DecimalString(n: nat): (r: string)
  {
    if n < 10 then [('0' as int + n) as char]
    else DecimalString(n / 10) + [('0' as int + n % 10) as char]
  }

  /** A digit-only word holds no space, so splitting never cuts through it. */
  lemma DigitsHaveNoSpace(w: string)
    requires IsDigits(w)
    ensures ' ' !in w
  {
  }

  /** `int(str(n)) == n`, and `str(n).isdigit()` holds. */
  lemma {:induction false} DecimalRoundTrip(n: nat)
    ensures IsDigits(DecimalString(n)) && ' ' !in DecimalString(n)
    ensures DecimalValue(DecimalString(n)) == n
  {
    if n >= 10 {
      DecimalRoundTrip(n / 10);
      var r := DecimalString(n);
      assert r[..|r| - 1] == DecimalString(n / 10);
    }
    DigitsHaveNoSpace(DecimalString(n));
  }

  /** `int("0" + w) == int(w)`: a leading zero does not change the value. */
  lemma {:induction false} LeadingZero(w: string)
    requires forall i :: 0 <= i < |w| ==> IsDigitChar(w[i])
    ensures DecimalValue(['0'] + w) == DecimalValue(w)
  {
    if w != [] {
      LeadingZero(w[..|w| - 1]);
      assert (['0'] + w)[..|w|] == ['0'] + w[..|w| - 1];
    }
  }
}
