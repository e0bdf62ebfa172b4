/**
 * Unsigned integers written as text in a base between 2 and 16 with the
 * lower-case digits 0-9a-f, as Go's fmt (%x) and strconv.FormatUint write
 * them; parsing that text back; left padding with zeros; and the byte-wise
 * order in which bolt keeps the keys of a bucket.
 */
module Numerals {

  /** Bases this module formats in. */
  predicate IsBase(base: nat) {
    2 <= base <= 16
  }

  function Pow(b: nat, k: nat): (p: nat)
    ensures b >= 1 ==> p >= 1
  {
    if k == 0 then 1 else b * Pow(b, k - 1)
  }

  /** A character of the alphabet 0-9a-f. */
  predicate IsHexChar(c: char) {
    '0' <= c <= '9' || 'a' <= c <= 'f'
  }

  /** The number a digit character stands for. */
  function DigitValue(c: char): (d: nat)
    requires IsHexChar(c)
    ensures d < 16
  {
    if c <= '9' then c as int - '0' as int else c as int - 'a' as int + 10
  }

  /** The lower-case digit character for `d`. */
  function DigitChar(d: nat): (c: char)
    requires d < 16
    ensures IsHexChar(c) && DigitValue(c) == d
  {
    if d < 10 then ('0' as int + d) as char else ('a' as int + d - 10) as char
  }

  predicate IsDigit(c: char, base: nat) {
    IsHexChar(c) && DigitValue(c) < base
  }

  /** Every character of `s` is a digit of `base`. */
  predicate IsNumeral(s: string, base: nat) {
    forall k :: 0 <= k < |s| ==> IsDigit(s[k], base)
  }

  /** The shortest numeral: "0" alone, otherwise no leading zero. */
  predicate IsCanonical(s: string, base: nat) {
    IsNumeral(s, base) && |s| >= 1 && (s[0] == '0' ==> |s| == 1)
  }

  /** Quotient and remainder of a number of at least two digits. */
  lemma DivMod(n: nat, base: nat)
    requires IsBase(base) && n >= base
    ensures 1 <= n / base < n && n % base < base
    ensures n == (n / base) * base + n % base
  {
  }

  /** `n` in `base` with as few digits as possible, most significant first. */
  function Format(n: nat, base: nat): (s: string)
    requires IsBase(base)
    ensures IsCanonical(s, base)
    ensures |s| == 1 <==> n < base
    ensures s[0] == '0' <==> n == 0
    decreases n
  {
    if n < base then [DigitChar(n)]
    else
      DivMod(n, base);
      Format(n / base, base) + [DigitChar(n % base)]
  }

  function Zeros(count: nat): (z: string)
    ensures |z| == count && forall k :: 0 <= k < count ==> z[k] == '0'
  {
    seq(count, _ => '0')
  }

  /** `s` left-padded with zeros to `width` characters; longer text is kept whole. */
  function ZeroPad(s: string, width: nat): (r: string)
    ensures |r| == if |s| < width then width else |s|
    ensures r[|r| - |s|..] == s
    ensures forall k :: 0 <= k < |r| - |s| ==> r[k] == '0'
  {
    if |s| < width then Zeros(width - |s|) + s else s
  }

  /** The number a numeral stands for (the parser: Horner's rule, left to right). */
  function Value(s: string, base: nat): nat
    requires IsBase(base) && IsNumeral(s, base)
  {
    if s == [] then 0 else Value(s[..|s| - 1], base) * base + DigitValue(s[|s| - 1])
  }

  /**
   * Byte-wise lexicographic order (bytes.Compare(a, b) < 0): the first
   * differing character decides, and a proper prefix comes first.
   */
  predicate LexLess(a: string, b: string): (lt: bool)
    ensures lt ==> a != b
  {
    if a == [] then b != []
    else if b == [] then false
    else a[0] < b[0] || (a[0] == b[0] && LexLess(a[1..], b[1..]))
  }

  /**
   * The order is decided at the first index `k` where the texts differ or one
   * of them ends: `a` comes first when it ends there and `b` does not, or
   * when its character there is smaller.
   */
  lemma {:induction false} LexLessAtFirstDifference(a: string, b: string, k: nat)
    requires k <= |a| && k <= |b| && a[..k] == b[..k]
    requires k == |a| || k == |b| || a[k] != b[k]
    ensures LexLess(a, b) <==> (k == |a| && k < |b|) || (k < |a| && k < |b| && a[k] < b[k])
    decreases k
  {
    if k > 0 {
      assert a[0] == a[..k][0] == b[..k][0] == b[0];
      assert a[1..][..k - 1] == a[..k][1..] == b[..k][1..] == b[1..][..k - 1];
      if k < |a| && k < |b| {
        assert a[1..][k - 1] == a[k] && b[1..][k - 1] == b[k];
      }
      LexLessAtFirstDifference(a[1..], b[1..], k - 1);
    }
  }

  /** Parsing what Format writes gives back the number. */
  lemma {:induction false} ValueOfFormat(n: nat, base: nat)
    requires IsBase(base)
    ensures Value(Format(n, base), base) == n
    decreases n
  {
    var s := Format(n, base);
    if n < base {
      assert s[..|s| - 1] == [];
    } else {
      DivMod(n, base);
      assert s[..|s| - 1] == Format(n / base, base);
      ValueOfFormat(n / base, base);
    }
  }

  /** Leading zeros do not change the value of a numeral. */
  lemma {:induction false} ValueOfLeadingZeros(count: nat, s: string, base: nat)
    requires IsBase(base) && IsNumeral(s, base)
    ensures IsNumeral(Zeros(count) + s, base)
    ensures Value(Zeros(count) + s, base) == Value(s, base)
    decreases |s|, count
  {
    var t := Zeros(count) + s;
    assert DigitValue('0') == 0;
    assert IsNumeral(t, base);
    if s == [] {
      assert t == Zeros(count);
      if count > 0 {
        assert t[..|t| - 1] == Zeros(count - 1) + [];
        ValueOfLeadingZeros(count - 1, [], base);
      }
    } else {
      var p := s[..|s| - 1];
      assert t[..|t| - 1] == Zeros(count) + p;
      assert t[|t| - 1] == s[|s| - 1];
      ValueOfLeadingZeros(count, p, base);
    }
  }

  lemma ValueOfZeroPad(s: string, width: nat, base: nat)
    requires IsBase(base) && IsNumeral(s, base)
    ensures IsNumeral(ZeroPad(s, width), base)
    ensures Value(ZeroPad(s, width), base) == Value(s, base)
  {
    if |s| < width {
      ValueOfLeadingZeros(width - |s|, s, base);
    }
  }

  /** A number below base^k takes at most k digits. */
  lemma {:induction false} FormatWidth(n: nat, base: nat, k: nat)
    requires IsBase(base) && 1 <= k && n < Pow(base, k)
    ensures |Format(n, base)| <= k
    decreases n
  {
    if n >= base {
      assert k >= 2;
      DivMod(n, base);
      QuotientBound(n, base, Pow(base, k - 1));
      FormatWidth(n / base, base, k - 1);
    }
  }

  /** A numeral of k digits stands for less than base^k. */
  lemma {:induction false} ValueBound(s: string, base: nat)
    requires IsBase(base) && IsNumeral(s, base)
    ensures Value(s, base) < Pow(base, |s|)
    decreases |s|
  {
    if s != [] {
      var p := s[..|s| - 1];
      ValueBound(p, base);
      AppendDigitBound(Value(p, base), DigitValue(s[|s| - 1]), Pow(base, |p|), base);
    }
  }

  /** A numeral's value split into its first digit and the rest. */
  lemma {:induction false} ValueOfHead(s: string, base: nat)
    requires IsBase(base) && IsNumeral(s, base) && |s| >= 1
    ensures Value(s, base) == DigitValue(s[0]) * Pow(base, |s| - 1) + Value(s[1..], base)
    decreases |s|
  {
    if |s| == 1 {
      assert s[..0] == [] && s[1..] == [];
      assert Value(s, base) == Value([], base) * base + DigitValue(s[0]);
    } else {
      var p := s[..|s| - 1];
      ValueOfHead(p, base);
      assert p[0] == s[0];
      assert s[1..][..|s| - 2] == p[1..];
      assert s[1..][|s| - 2] == s[|s| - 1];
      AppendDigitUnderHead(DigitValue(s[0]), Pow(base, |s| - 2), Value(p[1..], base), DigitValue(s[|s| - 1]), base);
    }
  }

  /** Of two numerals of one length, the one whose first digit is smaller is smaller. */
  lemma HeadDecides(a: string, b: string, base: nat)
    requires IsBase(base) && IsNumeral(a, base) && IsNumeral(b, base)
    requires |a| == |b| >= 1 && DigitValue(a[0]) < DigitValue(b[0])
    ensures Value(a, base) < Value(b, base)
  {
    ValueOfHead(a, base);
    ValueOfHead(b, base);
    ValueBound(a[1..], base);
    SmallerHead(DigitValue(a[0]), DigitValue(b[0]), Pow(base, |a| - 1), Value(a[1..], base), Value(b[1..], base));
  }

  // Arithmetic steps of the lemmas above, stated over plain numbers.

  lemma AppendDigitBound(v: nat, d: nat, q: nat, base: nat)
    requires v < q && d < base
    ensures v * base + d < base * q
  {
    assert v * base <= (q - 1) * base;
  }

  lemma AppendDigitUnderHead(d0: nat, q: nat, r: nat, dl: nat, base: nat)
    ensures (d0 * q + r) * base + dl == d0 * (base * q) + (r * base + dl)
  {
  }

  lemma SmallerHead(da: nat, db: nat, q: nat, ra: nat, rb: nat)
    requires da < db && ra < q
    ensures da * q + ra < db * q + rb
  {
    assert (da + 1) * q <= db * q;
  }

  lemma QuotientBound(n: nat, base: nat, p: nat)
    requires base >= 2 && n < base * p
    ensures n / base < p
  {
    var q: int := n / base;
    assert q * base <= n;
    assert q >= p ==> q * base >= p * base;
  }

  lemma SplitDigit(m: nat, d: nat, base: nat)
    requires d < base
    ensures (m * base + d) / base == m && (m * base + d) % base == d
    ensures m >= 1 ==> m * base + d >= base
  {
    var n := m * base + d;
    var q: int, r: int := n / base, n % base;
    assert n == q * base + r && r < base;
    assert (q - m) * base == d - r;
    assert q - m >= 1 ==> (q - m) * base >= base;
    assert q - m <= -1 ==> (q - m) * base + base <= 0;
    assert m >= 1 ==> m * base >= base;
  }

  /** Hex characters sort in the order of the digits they stand for. */
  lemma DigitOrder(c: char, d: char)
    requires IsHexChar(c) && IsHexChar(d)
    ensures c < d <==> DigitValue(c) < DigitValue(d)
    ensures c == d <==> DigitValue(c) == DigitValue(d)
  {
  }

  /**
   * For numerals of equal length, byte-wise order is numeric order, so
   * equal values have equal text.
   */
  lemma {:induction false} FixedWidthOrder(a: string, b: string, base: nat)
    requires IsBase(base) && IsNumeral(a, base) && IsNumeral(b, base) && |a| == |b|
    ensures LexLess(a, b) <==> Value(a, base) < Value(b, base)
    ensures a == b <==> Value(a, base) == Value(b, base)
    decreases |a|
  {
    if |a| >= 1 {
      DigitOrder(a[0], b[0]);
      if a[0] < b[0] {
        HeadDecides(a, b, base);
      } else if b[0] < a[0] {
        HeadDecides(b, a, base);
      } else {
        ValueOfHead(a, base);
        ValueOfHead(b, base);
        FixedWidthOrder(a[1..], b[1..], base);
        assert a == [a[0]] + a[1..] && b == [b[0]] + b[1..];
      }
    }
  }

  /** The canonical numeral of a value is the one Format writes. */
  lemma {:induction false} CanonicalIsFormat(s: string, base: nat)
    requires IsBase(base) && IsCanonical(s, base)
    ensures s == Format(Value(s, base), base)
    decreases |s|
  {
    var n := Value(s, base);
    if |s| == 1 {
      assert s[..0] == [];
      assert n == Value([], base) * base + DigitValue(s[0]);
    } else {
      var p, c := s[..|s| - 1], s[|s| - 1];
      assert s == p + [c];
      assert p[0] == s[0] != '0';
      assert IsCanonical(p, base);
      CanonicalIsFormat(p, base);
      var m, d := Value(p, base), DigitValue(c);
      assert m != 0;
      assert n == m * base + d;
      SplitDigit(m, d, base);
      DigitOrder(DigitChar(d), c);
      assert Format(n, base) == Format(m, base) + [DigitChar(d)];
    }
  }
}
