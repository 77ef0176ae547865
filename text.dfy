/**
 * String helpers behaving as the JavaScript built-ins the source relies on:
 * `split` / `join` on one character, `indexOf`, `replace` with a string
 * pattern, `padStart`, `Number.prototype.toString`, and the ASCII case
 * folding of a case-insensitive regular expression.
 */
module Text {

  /** Number of occurrences of `c` in `s`. */
  function Count(s: string, c: char): nat
  {
    if |s| == 0 then 0 else (if s[0] == c then 1 else 0) + Count(s[1..], c)
  }

  /** `s.split(c)` for a one-character separator. */
  function Split(s: string, c: char): (parts: seq<string>)
    ensures |parts| >= 1
  {
    if |s| == 0 then [""]
    else
      var rest := Split(s[1..], c);
      if s[0] == c then [""] + rest
      else [[s[0]] + rest[0]] + rest[1..]
  }

  /** `parts.join(c)` */
  function JoinWith(parts: seq<string>, c: char): string
  {
    if |parts| == 0 then ""
    else if |parts| == 1 then parts[0]
    else parts[0] + [c] + JoinWith(parts[1..], c)
  }

  /** Joining the pieces of a split gives the original text back. */
  lemma {:induction false} JoinSplit(s: string, c: char)
    ensures JoinWith(Split(s, c), c) == s
  {
    if |s| > 0 {
      var rest := Split(s[1..], c);
      JoinSplit(s[1..], c);
      if s[0] == c {
        assert ([""] + rest)[1..] == rest;
        assert s == [c] + s[1..];
      } else if |rest| > 1 {
        var parts := [[s[0]] + rest[0]] + rest[1..];
        assert parts[1..] == rest[1..];
        assert s == [s[0]] + s[1..];
      } else {
        assert s == [s[0]] + s[1..];
      }
    }
  }

  /** `s.split(c).length` is one more than the number of separators in `s`,
      and no piece contains the separator. */
  lemma {:induction false} SplitShape(s: string, c: char)
    ensures |Split(s, c)| == Count(s, c) + 1
    ensures forall i :: 0 <= i < |Split(s, c)| ==> c !in Split(s, c)[i]
  {
    if |s| > 0 {
      SplitShape(s[1..], c);
      var rest := Split(s[1..], c);
      if s[0] != c {
        assert c !in [s[0]] + rest[0] by { assert c !in rest[0]; }
      }
    }
  }

  /** Splitting text that has no separator yields that text alone. */
  lemma {:induction false} SplitNoSeparator(p: string, c: char)
    requires c !in p
    ensures Split(p, c) == [p]
  {
    if |p| > 0 {
      SplitNoSeparator(p[1..], c);
      assert [p[0]] + p[1..] == p;
    }
  }

  lemma {:induction false} SplitAfterPiece(p: string, c: char, t: string)
    requires c !in p
    ensures Split(p + [c] + t, c) == [p] + Split(t, c)
  {
    if |p| == 0 {
      assert p + [c] + t == [c] + t;
      assert ([c] + t)[1..] == t;
    } else {
      SplitAfterPiece(p[1..], c, t);
      assert (p + [c] + t)[1..] == p[1..] + [c] + t;
      assert [p[0]] + p[1..] == p;
    }
  }

  /** Splitting a join of separator-free pieces gives the pieces back. */
  lemma {:induction false} SplitJoin(parts: seq<string>, c: char)
    requires |parts| >= 1
    requires forall i :: 0 <= i < |parts| ==> c !in parts[i]
    ensures Split(JoinWith(parts, c), c) == parts
  {
    if |parts| == 1 {
      SplitNoSeparator(parts[0], c);
    } else {
      SplitJoin(parts[1..], c);
      SplitAfterPiece(parts[0], c, JoinWith(parts[1..], c));
      assert [parts[0]] + parts[1..] == parts;
    }
  }

  /** Joining one more piece adds a separator and the piece. */
  lemma {:induction false} JoinWithSnoc(parts: seq<string>, x: string, c: char)
    requires |parts| >= 1
    ensures JoinWith(parts + [x], c) == JoinWith(parts, c) + [c] + x
  {
    if |parts| > 1 {
      JoinWithSnoc(parts[1..], x, c);
      assert (parts + [x])[1..] == parts[1..] + [x];
    }
  }

  /** The separators of a join: one between every two pieces. */
  lemma {:induction false} JoinCount(parts: seq<string>, c: char)
    requires |parts| >= 1
    requires forall i :: 0 <= i < |parts| ==> c !in parts[i]
    ensures Count(JoinWith(parts, c), c) == |parts| - 1
  {
    SplitJoin(parts, c);
    SplitShape(JoinWith(parts, c), c);
  }

  /** `pat` occurs in `s` starting at index `j`. */
  predicate OccursAt(s: string, pat: string, j: int)
  {
    0 <= j && j + |pat| <= |s| && s[j..j + |pat|] == pat
  }

  /** Index of the first occurrence of `pat` in `s` at or after `from`, or -1 (`indexOf`). */
  function IndexOfFrom(s: string, pat: string, from: nat): (i: int)
    requires from <= |s|
    ensures i == -1 || (from <= i && OccursAt(s, pat, i))
    decreases |s| - from
  {
    if from + |pat| > |s| then -1
    else if s[from..from + |pat|] == pat then from
    else IndexOfFrom(s, pat, from + 1)
  }

  /** The index found is the first occurrence, and -1 means there is none. */
  lemma {:induction false} IndexOfFromFirst(s: string, pat: string, from: nat)
    requires from <= |s|
    ensures IndexOfFrom(s, pat, from) != -1 ==> forall j :: from <= j < IndexOfFrom(s, pat, from) ==> !OccursAt(s, pat, j)
    ensures IndexOfFrom(s, pat, from) == -1 ==> forall j :: from <= j ==> !OccursAt(s, pat, j)
    decreases |s| - from
  {
    if from + |pat| <= |s| && s[from..from + |pat|] != pat {
      IndexOfFromFirst(s, pat, from + 1);
    }
  }

  function IndexOf(s: string, pat: string): int
  {
    IndexOfFrom(s, pat, 0)
  }

  /** `s.replace(pat, rep)` with a string pattern: only the first occurrence is replaced. */
  function ReplaceFirst(s: string, pat: string, rep: string): string
  {
    var i := IndexOf(s, pat);
    if i == -1 then s else s[..i] + rep + s[i + |pat|..]
  }

  /** Lower-casing of ASCII letters; other characters are unchanged. */
  function AsciiLower(ch: char): char
  {
    if 'A' <= ch <= 'Z' then (ch as int + 32) as char else ch
  }

  /** Equality under the `i` flag of a regular expression (ASCII case folding). */
  predicate EqualsIgnoringCase(a: string, b: string)
  {
    |a| == |b| && forall i :: 0 <= i < |a| ==> AsciiLower(a[i]) == AsciiLower(b[i])
  }

  /** `fill.repeat(n)` */
  function Repeat(fill: char, n: nat): (r: string)
    ensures |r| == n
    ensures forall i :: 0 <= i < n ==> r[i] == fill
  {
    if n == 0 then "" else [fill] + Repeat(fill, n - 1)
  }

  /** `s.padStart(width, fill)` */
  function PadStart(s: string, width: nat, fill: char): (r: string)
    ensures |r| == if |s| >= width then |s| else width
    ensures s <= r[|r| - |s|..] && r[|r| - |s|..] == s
  {
    if |s| >= width then s else Repeat(fill, width - |s|) + s
  }

  predicate IsDigit(ch: char)
  {
    '0' <= ch <= '9'
  }

  predicate AllDigits(s: string)
  {
    forall i :: 0 <= i < |s| ==> IsDigit(s[i])
  }

  function DigitChar(d: nat): (ch: char)
    requires d < 10
    ensures IsDigit(ch)
  {
    ('0' as int + d) as char
  }

  function DigitValue(ch: char): (d: nat)
    requires IsDigit(ch)
    ensures d < 10
  {
    ch as int - '0' as int
  }

  /** Decimal digits of `n` without leading zeros (`n.toString()`). */
  function NatToString(n: nat): (s: string)
    ensures |s| >= 1
    decreases n
  {
    if n < 10 then [DigitChar(n)] else NatToString(n / 10) + [DigitChar(n % 10)]
  }

  /** The text of a number is all digits. */
  lemma {:induction false} NatToStringDigits(n: nat)
    ensures AllDigits(NatToString(n))
    decreases n
  {
    if n >= 10 {
      NatToStringDigits(n / 10);
      var s := NatToString(n);
      assert s == NatToString(n / 10) + [DigitChar(n % 10)];
      assert forall i :: 0 <= i < |s| - 1 ==> s[i] == NatToString(n / 10)[i];
    }
  }

  /** `n.toString()` for a whole number that may be negative. */
  function IntToString(i: int): (s: string)
    ensures |s| >= 1
  {
    if i < 0 then "-" + NatToString(-i) else NatToString(i)
  }

  /** The number a string of decimal digits denotes. */
  function DecimalValue(s: string): nat
    requires AllDigits(s)
  {
    if |s| == 0 then 0 else DecimalValue(s[..|s| - 1]) * 10 + DigitValue(s[|s| - 1])
  }

  function Pow10(w: nat): (p: nat)
    ensures p >= 1
  {
    if w == 0 then 1 else 10 * Pow10(w - 1)
  }

  /** Reading back the decimal text of a number gives the number. */
  lemma {:induction false} DecimalOfNatToString(n: nat)
    ensures AllDigits(NatToString(n)) && DecimalValue(NatToString(n)) == n
    decreases n
  {
    NatToStringDigits(n);
    if n >= 10 {
      DecimalOfNatToString(n / 10);
      var s := NatToString(n / 10) + [DigitChar(n % 10)];
      assert s[..|s| - 1] == NatToString(n / 10);
    }
  }

  /** A number below 10^w has at most w digits. */
  lemma {:induction false} NatToStringFits(n: nat, w: nat)
    requires 1 <= w && n < Pow10(w)
    ensures |NatToString(n)| <= w
    decreases n
  {
    if n >= 10 {
      NatToStringFits(n / 10, w - 1);
    }
  }

  /** Leading zeros do not change the value of a decimal string. */
  lemma {:induction false} LeadingZeros(k: nat, s: string)
    requires AllDigits(s)
    ensures AllDigits(Repeat('0', k) + s)
    ensures DecimalValue(Repeat('0', k) + s) == DecimalValue(s)
    decreases |s|, k
  {
    var z := Repeat('0', k);
    if |s| == 0 {
      assert z + s == z;
      if k > 0 {
        LeadingZeros(k - 1, s);
        assert z[..|z| - 1] == Repeat('0', k - 1) by {
          assert forall i :: 0 <= i < k - 1 ==> z[i] == '0';
        }
        assert Repeat('0', k - 1) + s == Repeat('0', k - 1);
      }
    } else {
      LeadingZeros(k, s[..|s| - 1]);
      assert (z + s)[..|z + s| - 1] == z + s[..|s| - 1];
    }
  }

  /** Padding to a width the text does not reach puts zeros in front. */
  lemma PadWithZeros(s: string, w: nat)
    requires |s| <= w
    ensures PadStart(s, w, '0') == Repeat('0', w - |s|) + s
  {
    if |s| == w {
      assert Repeat('0', 0) + s == s;
    }
  }

  /** The decimal text of `n`, behind `k` zeros, reads back as `n`. */
  lemma ZerosThenDecimal(n: nat, k: nat)
    ensures AllDigits(Repeat('0', k) + NatToString(n))
    ensures DecimalValue(Repeat('0', k) + NatToString(n)) == n
  {
    DecimalOfNatToString(n);
    LeadingZeros(k, NatToString(n));
  }

  /** A zero-padded number of at most `w` digits reads back as the number. */
  lemma PaddedDecimal(n: nat, w: nat)
    requires 1 <= w && n < Pow10(w)
    ensures |PadStart(NatToString(n), w, '0')| == w
    ensures AllDigits(PadStart(NatToString(n), w, '0'))
    ensures DecimalValue(PadStart(NatToString(n), w, '0')) == n
  {
    NatToStringFits(n, w);
    PadWithZeros(NatToString(n), w);
    ZerosThenDecimal(n, w - |NatToString(n)|);
  }
}
