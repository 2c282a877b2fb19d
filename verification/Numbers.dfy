/** Numeric structure fields as text and back (structure.c, string_helper.c). */
module Numbers {
  import opened Base

  function Digit(d: nat): char
    requires d < 16
  {
    if d < 10 then ('0' as int + d) as char else ('a' as int + (d - 10)) as char
  }

  /** The value of a digit, 16 for any other character. */
  function DigitValue(c: char): nat {
    if '0' <= c <= '9' then c as int - '0' as int
    else if 'a' <= c <= 'f' then c as int - 'a' as int + 10
    else if 'A' <= c <= 'F' then c as int - 'A' as int + 10
    else 16
  }

  /** A number without leading zeros. */
  function Print(n: nat, base: nat): (s: string)
    requires 2 <= base <= 16
    ensures |s| > 0
    decreases n
  {
    if n < base then [Digit(n)]
    else
      Shrinks(n, base);
      Print(n / base, base) + [Digit(n % base)]
  }

  lemma {:induction false} Shrinks(n: nat, base: nat)
    requires 2 <= base <= n
    ensures 0 <= n / base < n
  {
    var q := n / base;
    assert n == q * base + n % base;
    QuotientNat(n, base);
    MulMonotone(2, base, q);
  }

  function ZeroPadded(s: string, width: nat): (r: string)
    ensures |r| >= |s|
    decreases width - |s|
  {
    if |s| >= width then s else ZeroPadded("0" + s, width)
  }

  /** The decimal form of a field: two's complement for four bytes, unsigned otherwise. */
  function Decimal(n: nat, size: nat): string {
    if size == 4 && 0x8000_0000 <= n < 0x1_0000_0000 then "-" + Print(0x1_0000_0000 - n, 10) else Print(n, 10)
  }

  function Hex(n: nat, size: nat): string {
    "0x" + ZeroPadded(Print(n, 16), 2 * size)
  }

  /** The number that a string of digits denotes. */
  function Value(s: string, base: nat): nat {
    if s == [] then 0 else Value(s[..|s| - 1], base) * base + DigitValue(s[|s| - 1])
  }

  predicate IsSpace(c: char) {
    c == ' ' || '\t' <= c <= '\r'
  }

  function SkipSpace(s: string, i: nat): (r: nat)
    requires i <= |s|
    ensures i <= r <= |s|
    decreases |s| - i
  {
    if i < |s| && IsSpace(s[i]) then SkipSpace(s, i + 1) else i
  }

  function SkipDigits(s: string, i: nat, base: nat): (r: nat)
    requires i <= |s|
    ensures i <= r <= |s|
    decreases |s| - i
  {
    if i < |s| && DigitValue(s[i]) < base then SkipDigits(s, i + 1, base) else i
  }

  /** The "0x" before hexadecimal digits. */
  function SkipPrefix(s: string, i: nat, base: nat): (r: nat)
    requires i <= |s|
    ensures i <= r <= |s|
  {
    if base == 16 && i + 2 < |s| && s[i] == '0' && (s[i + 1] == 'x' || s[i + 1] == 'X') && DigitValue(s[i + 2]) < 16
    then i + 2 else i
  }

  function Negate(negative: bool, v: uint64): uint64 {
    if negative && v > 0 then 0x1_0000_0000_0000_0000 - v else v
  }

  /**
   * strtoull of the C standard: space, a sign and digits. A minus negates modulo 2^64, a number that is
   * too large gives the largest value. The second result is where reading stopped.
   */
  function Strtoull(s: string, base: nat): (uint64, nat) {
    var i := SkipSpace(s, 0);
    var signed := i < |s| && (s[i] == '-' || s[i] == '+');
    var k := SkipPrefix(s, if signed then i + 1 else i, base);
    var end := SkipDigits(s, k, base);
    if end == k then (0, 0)
    else
      var v := Value(s[k..end], base);
      (if v >= 0x1_0000_0000_0000_0000 then 0xFFFF_FFFF_FFFF_FFFF else Negate(signed && s[i] == '-', v), end)
  }

  /** A string that is a number from beginning to end. */
  function Strict(s: string, base: nat): Option<uint64> {
    if Strtoull(s, base).1 == |s| then Some(Strtoull(s, base).0) else None
  }

  ghost predicate AllDigits(s: string, base: nat) {
    forall i :: 0 <= i < |s| ==> DigitValue(s[i]) < base
  }

  lemma {:induction false} DigitIsItself(d: nat)
    requires d < 16
    ensures DigitValue(Digit(d)) == d
  {
  }

  lemma {:induction false} ValueStep(s: string, c: char, base: nat)
    ensures Value(s + [c], base) == Value(s, base) * base + DigitValue(c)
  {
    hide DigitValue;
    assert (s + [c])[..|s|] == s;
  }

  /** A printed number consists of digits and has its value. */
  lemma {:induction false} PrintValue(n: nat, base: nat)
    requires 2 <= base <= 16
    ensures Value(Print(n, base), base) == n && AllDigits(Print(n, base), base)
    decreases n
  {
    hide Value, DigitValue, Digit, Print;
    PrintStep(n, base);
    if n >= base {
      Shrinks(n, base);
      PrintValue(n / base, base);
      DigitIsItself(n % base);
      ValueStep(Print(n / base, base), Digit(n % base), base);
      assert n == (n / base) * base + n % base;
    } else {
      DigitIsItself(n);
      OneDigit(n, base);
    }
  }

  lemma {:induction false} PrintStep(n: nat, base: nat)
    requires 2 <= base <= 16
    ensures n < base ==> Print(n, base) == [Digit(n)]
    ensures n >= base ==> 0 <= n / base && Print(n, base) == Print(n / base, base) + [Digit(n % base)]
  {
    hide Digit;
    QuotientNat(n, base);
  }

  lemma {:induction false} OneDigit(n: nat, base: nat)
    requires n < 16
    ensures Value([Digit(n)], base) == DigitValue(Digit(n))
  {
    ValueStep([], Digit(n), base);
    assert [] + [Digit(n)] == [Digit(n)];
    assert 0 * base == 0;
  }

  lemma {:induction false} LeadingZero(s: string, base: nat)
    ensures Value("0" + s, base) == Value(s, base)
    decreases |s|
  {
    var t := "0" + s;
    if s == [] {
      OneDigit(0, base);
    } else {
      assert t[..|t| - 1] == "0" + s[..|s| - 1];
      LeadingZero(s[..|s| - 1], base);
    }
  }

  lemma {:induction false} PaddedValue(s: string, width: nat, base: nat)
    requires AllDigits(s, base) && base >= 1
    ensures Value(ZeroPadded(s, width), base) == Value(s, base) && AllDigits(ZeroPadded(s, width), base)
    decreases width - |s|
  {
    if |s| < width {
      LeadingZero(s, base);
      PaddedValue("0" + s, width, base);
    }
  }

  lemma {:induction false} SkipsAllDigits(s: string, i: nat, base: nat)
    requires i <= |s| && AllDigits(s[i..], base)
    ensures SkipDigits(s, i, base) == |s|
    decreases |s| - i
  {
    if i < |s| {
      assert DigitValue(s[i..][0]) < base;
      assert s[i + 1..] == s[i..][1..];
      SkipsAllDigits(s, i + 1, base);
    }
  }

  /** Optional prefix and sign, then digits only: the whole string is read. */
  lemma {:induction false} ParsesDigits(s: string, k: nat, base: nat, negative: bool)
    requires k < |s| && AllDigits(s[k..], base) && base <= 16 && Value(s[k..], base) < 0x1_0000_0000_0000_0000
    requires negative == (s[0] == '-') && !IsSpace(s[0]) && s[0] != '+'
    requires SkipPrefix(s, if negative then 1 else 0, base) == k
    ensures Strict(s, base) == Some(Negate(negative, Value(s[k..], base)))
  {
    hide Value;
    SkipsAllDigits(s, k, base);
    assert s[k..|s|] == s[k..];
  }

  lemma {:induction false} DigitIsPlain(c: char)
    requires DigitValue(c) < 16
    ensures !IsSpace(c) && c != '-' && c != '+' && c != 'x' && c != 'X'
  {
  }

  /** A field is cut to its size when it is stored. */
  function Cut(v: uint64, size: nat): nat {
    if size == 1 then v % 0x100 else if size == 2 then v % 0x1_0000
    else if size == 4 then v % 0x1_0000_0000 else v
  }

  predicate FieldSize(size: nat) {
    size == 1 || size == 2 || size == 4 || size == 8
  }

  function Limit(size: nat): nat {
    if size == 1 then 0x100 else if size == 2 then 0x1_0000
    else if size == 4 then 0x1_0000_0000 else 0x1_0000_0000_0000_0000
  }

  /** A number is read back from its decimal form; large four-byte values pass through a negative number. */
  lemma {:induction false} DecimalRoundTrip(n: nat, size: nat)
    requires FieldSize(size) && n < Limit(size)
    ensures Strict(Decimal(n, size), 10).Some? && Cut(Strict(Decimal(n, size), 10).value, size) == n
    ensures size != 4 || n < 0x8000_0000 ==> Strict(Decimal(n, size), 10) == Some(n)
  {
    hide Print, Strict, Negate;
    if size == 4 && n >= 0x8000_0000 {
      NegativeDigits(0x1_0000_0000 - n);
      NegatedCut(0x1_0000_0000 - n);
    } else {
      PositiveDigits(n);
    }
  }

  lemma {:induction false} PositiveDigits(n: uint64)
    ensures Strict(Print(n, 10), 10) == Some(n)
  {
    hide Print, Value, Strict;
    var d := Print(n, 10);
    PrintValue(n, 10);
    assert d[0..] == d;
    DigitIsPlain(d[0]);
    ParsesDigits(d, 0, 10, false);
  }

  lemma {:induction false} NegativeDigits(n: uint64)
    ensures Strict("-" + Print(n, 10), 10) == Some(Negate(true, n))
  {
    hide Print, Value, Strict, Negate;
    var d := Print(n, 10);
    PrintValue(n, 10);
    var s := "-" + d;
    assert s[1..] == d;
    ParsesDigits(s, 1, 10, true);
  }

  lemma {:induction false} NegatedCut(n: nat)
    requires 0 < n <= 0x1_0000_0000
    ensures Cut(Negate(true, n), 4) == 0x1_0000_0000 - n
  {
  }

  lemma {:induction false} HexRoundTrip(n: nat, size: nat)
    requires FieldSize(size) && n < Limit(size)
    ensures Strict(Hex(n, size), 16) == Some(n)
  {
    hide Print, Value, Strict, ZeroPadded;
    PrintValue(n, 16);
    PaddedValue(Print(n, 16), 2 * size, 16);
    var d, s := ZeroPadded(Print(n, 16), 2 * size), Hex(n, size);
    assert s[2..] == d && s[2] == d[0];
    ParsesDigits(s, 2, 16, false);
  }

  datatype Endian = Unforced | Little | Big

  /** A forced byte order overrides that of the field. */
  function PreferLe(forced: Endian, le: bool): bool {
    if forced.Big? then false else if forced.Little? then true else le
  }

  function Load(b: seq<byte>, le: bool): nat {
    if le then LeValue(b) else BeValue(b)
  }

  function Store(v: nat, size: nat, le: bool): (b: seq<byte>)
    ensures |b| == size
  {
    if le then LeBytes(v, size) else BeBytes(v, size)
  }

  /** The text of a field, in the byte order that is in force. */
  function SaveField(b: seq<byte>, hex: bool, forced: Endian, le: bool): string {
    if !FieldSize(|b|) then ""
    else
      var n := Load(b, PreferLe(forced, le));
      if hex then Hex(n, |b|) else Decimal(n, |b|)
  }

  /** The field that a text gives, or nothing on an error. */
  function LoadField(s: string, size: nat, hex: bool, forced: Endian, le: bool): Option<seq<byte>> {
    var v := Strict(s, if hex then 16 else 10);
    if v.None? || !FieldSize(size) then None else Some(Store(Cut(v.value, size), size, PreferLe(forced, le)))
  }

  lemma {:induction false} LoadBound(b: seq<byte>, le: bool)
    requires FieldSize(|b|)
    ensures Load(b, le) < Limit(|b|) && Store(Load(b, le), |b|, le) == b
  {
    hide LeValue, LeBytes, Reversed;
    Pow256Values();
    assert Pow256(1) == 0x100 * Pow256(0);
    LeBytesOfLeValue(b);
    LeBytesOfLeValue(Reversed(b));
    ReversedTwice(b);
  }

  /** Every field of 1, 2, 4 or 8 bytes, in either byte order and either base, is restored from its text. */
  lemma {:induction false} FieldRoundTrip(b: seq<byte>, hex: bool, forced: Endian, le: bool)
    ensures LoadField(SaveField(b, hex, forced, le), |b|, hex, forced, le) == Some(b) <==> FieldSize(|b|)
  {
    hide Load, Store, Hex, Decimal, Strict;
    if FieldSize(|b|) {
      var n := Load(b, PreferLe(forced, le));
      LoadBound(b, PreferLe(forced, le));
      HexRoundTrip(n, |b|);
      DecimalRoundTrip(n, |b|);
    }
  }

  /** If another byte order is in force on loading, the field comes back reversed. */
  lemma {:induction false} OtherOrderReverses(b: seq<byte>, hex: bool, from: Endian, to: Endian, le: bool)
    requires FieldSize(|b|) && PreferLe(from, le) != PreferLe(to, le)
    ensures LoadField(SaveField(b, hex, from, le), |b|, hex, to, le) == Some(Reversed(b))
  {
    hide LeValue, LeBytes, Reversed, Hex, Decimal, Strict, Cut;
    var n := Load(b, PreferLe(from, le));
    LoadBound(b, PreferLe(from, le));
    LoadBound(Reversed(b), PreferLe(to, le));
    ReversedTwice(b);
    CutSmall(n, |b|);
    HexRoundTrip(n, |b|);
    DecimalRoundTrip(n, |b|);
  }

  lemma {:induction false} CutSmall(n: nat, size: nat)
    requires FieldSize(size) && n < Limit(size)
    ensures Cut(n, size) == n
  {
  }

  // Texts written out: digits by their characters, bytes by their weights.

  const LOWER := "0123456789abcdef"
  const UPPER := "0123456789ABCDEF"

  lemma {:induction false} DigitIsLower(d: nat)
    requires d < 16
    ensures Digit(d) == LOWER[d]
  {
  }

  /** A digit of either case. */
  predicate IsDigit(c: char, d: nat)
    requires d < 16
  {
    c == LOWER[d] || c == UPPER[d]
  }

  lemma {:induction false} DigitOf(c: char, d: nat)
    requires d < 16 && IsDigit(c, d)
    ensures DigitValue(c) == d
  {
  }

  lemma {:induction false} QuotientTwice(n: nat, a: nat, b: nat)
    requires a > 0 && b > 0
    ensures a * b > 0 && n / a >= 0 && (n / a) / b == n / (a * b)
  {
    QuotientNat(n, a);
    var q, r := n / a, n % a;
    var k, l := q / b, q % b;
    MulMonotone(1, a, b);
    assert n == k * (a * b) + (l * a + r) by {
      assert n == (k * b + l) * a + r;
      Distribute(k * b, l, a);
      assert k * b * a == k * (a * b);
    }
    assert 0 <= l * a + r < a * b by {
      MulMonotone(l + 1, b, a);
      Distribute(l, 1, a);
      MulMonotone(0, l, a);
    }
    RemainderUnique(n, a * b, k, l * a + r);
  }

  /** The digit of weight base^k. */
  function DigitAt(n: nat, base: nat, k: nat): (d: nat)
    requires 2 <= base <= 16
    ensures d < base
  {
    PowPositive(base, k);
    (n / Pow(base, k)) % base
  }

  lemma {:induction false} DigitAtStep(n: nat, base: nat, k: nat)
    requires 2 <= base <= 16
    ensures DigitAt(n, base, 0) == n % base
    ensures n / base >= 0 && DigitAt(n, base, k + 1) == DigitAt(n / base, base, k)
  {
    hide Pow;
    FirstPower(base);
    assert n / 1 == n;
    PowPositive(base, k);
    PowStep(base, k);
    QuotientStep(n, base, Pow(base, k), Pow(base, k + 1));
  }

  lemma {:induction false} QuotientStep(n: nat, base: nat, p: nat, p': nat)
    requires base > 0 && p > 0 && p' == p * base
    ensures p' > 0 && n / base >= 0 && (n / base) / p == n / p'
  {
    QuotientTwice(n, base, p);
    assert base * p == p * base;
  }

  lemma {:induction false} DigitAtHigh(n: nat, base: nat, m: nat, k: nat)
    requires 2 <= base <= 16 && n < Pow(base, m) && m <= k
    ensures DigitAt(n, base, k) == 0
  {
    hide Pow;
    PowGrows(base, m, k);
    RemainderUnique(n, Pow(base, k), 0, n);
  }

  /** The digits of `n` in that base, the first one of weight base^(m - 1) in a text of `m` digits. */
  ghost predicate Shows(s: string, n: nat, base: nat)
    requires 2 <= base <= 16
  {
    forall i :: 0 <= i < |s| ==> s[i] == LOWER[DigitAt(n, base, |s| - 1 - i)]
  }

  /** A printed number shows its digits, without leading zeros. */
  lemma {:induction false} PrintMeans(n: nat, base: nat)
    requires 2 <= base <= 16
    ensures Shows(Print(n, base), n, base)
    ensures n < Pow(base, |Print(n, base)|)
    ensures |Print(n, base)| > 1 ==> n >= Pow(base, |Print(n, base)| - 1)
    decreases n
  {
    hide Print, Digit, Pow, DigitAt;
    PrintStep(n, base);
    FirstPower(base);
    DigitAtStep(n, base, 0);
    DigitIsLower(n % base);
    if n < base {
      RemainderUnique(n, base, 0, n);
    } else {
      Shrinks(n, base);
      var q := n / base;
      PrintMeans(q, base);
      var s, t := Print(n, base), Print(q, base);
      forall i | 0 <= i < |t|
        ensures s[i] == LOWER[DigitAt(n, base, |s| - 1 - i)]
      {
        DigitAtStep(n, base, |t| - 1 - i);
        assert s[i] == t[i];
      }
      PrintBounds(n, base, q, |t|);
    }
  }

  lemma {:induction false} PrintBounds(n: nat, base: nat, q: nat, k: nat)
    requires base >= 2 && q == n / base > 0 && q < Pow(base, k) && k > 0 && (k > 1 ==> q >= Pow(base, k - 1))
    ensures Pow(base, k) <= n < Pow(base, k + 1)
  {
    hide Pow;
    PowStep(base, k);
    PowStep(base, k - 1);
    FirstPower(base);
    QuotientBelow(n, base, q, Pow(base, k));
    QuotientAbove(n, base, q, if k > 1 then Pow(base, k - 1) else 1);
  }

  lemma {:induction false} QuotientBelow(n: nat, base: nat, q: nat, p: nat)
    requires base > 0 && q == n / base && q < p
    ensures n < p * base
  {
    MulMonotone(q + 1, p, base);
    Distribute(q, 1, base);
    assert n == q * base + n % base;
  }

  lemma {:induction false} QuotientAbove(n: nat, base: nat, q: nat, p: nat)
    requires base > 0 && q == n / base && p <= q
    ensures p * base <= n
  {
    MulMonotone(p, q, base);
    assert n == q * base + n % base;
  }

  lemma {:induction false} ZeroPaddedAt(s: string, width: nat, i: nat)
    ensures |ZeroPadded(s, width)| == if |s| < width then width else |s|
    ensures i < |ZeroPadded(s, width)| ==>
      ZeroPadded(s, width)[i] == var k := |ZeroPadded(s, width)| - |s|; if i < k then '0' else s[i - k]
    decreases width - |s|
  {
    if |s| < width {
      ZeroPaddedAt("0" + s, width, i);
    }
  }

  lemma {:induction false} LimitIsPower(size: nat)
    requires FieldSize(size)
    ensures Limit(size) == Pow(16, 2 * size)
  {
    hide Pow;
    FirstPower(16);
    PowAdd(16, 1, 1);
    PowAdd(16, 2, 2);
    PowAdd(16, 4, 4);
    PowAdd(16, 8, 8);
  }

  /** Hexadecimal fields have two digits for each of their bytes, behind "0x". */
  lemma {:induction false} HexMeans(n: nat, size: nat)
    requires FieldSize(size) && n < Limit(size)
    ensures |Hex(n, size)| == 2 + 2 * size && Hex(n, size)[..2] == "0x" && Shows(Hex(n, size)[2..], n, 16)
  {
    hide Pow, Print, ZeroPadded, DigitAt;
    var p := Print(n, 16);
    PrintMeans(n, 16);
    LimitIsPower(size);
    if |p| > 2 * size {
      PowGrows(16, 2 * size, |p| - 1);
    }
    var s := ZeroPadded(p, 2 * size);
    ZeroPaddedAt(p, 2 * size, 0);
    forall i | 0 <= i < |s|
      ensures s[i] == LOWER[DigitAt(n, 16, |s| - 1 - i)]
    {
      ZeroPaddedAt(p, 2 * size, i);
      if i < |s| - |p| {
        DigitAtHigh(n, 16, |p|, |s| - 1 - i);
      } else {
        assert s[i] == p[i - (|s| - |p|)];
      }
    }
    assert Hex(n, size)[2..] == s;
  }

  /** The number that digits denote. */
  function Horner(ds: seq<nat>, base: nat): nat {
    if ds == [] then 0 else Horner(ds[..|ds| - 1], base) * base + ds[|ds| - 1]
  }

  lemma {:induction false} ValueIsHorner(s: string, ds: seq<nat>, base: nat)
    requires |s| == |ds| && base <= 16
    requires forall i :: 0 <= i < |s| ==> ds[i] < base && IsDigit(s[i], ds[i])
    ensures Value(s, base) == Horner(ds, base) && AllDigits(s, base)
    decreases |s|
  {
    hide DigitValue, IsDigit;
    forall i | 0 <= i < |s|
      ensures DigitValue(s[i]) == ds[i]
    {
      DigitOf(s[i], ds[i]);
    }
    if s != "" {
      ValueIsHorner(s[..|s| - 1], ds[..|s| - 1], base);
    }
  }

  /**
   * What a text is read as: white space, a sign, the "0x" of hexadecimal numbers and digits. A minus negates
   * modulo 2^64, and a number that is too large gives the largest one.
   */
  lemma {:induction false} ReadsNumber(space: string, sign: string, prefix: string, digits: string, ds: seq<nat>,
                                       base: nat)
    requires base == 10 || base == 16
    requires forall i :: 0 <= i < |space| ==> space[i] == ' ' || 9 <= space[i] as int <= 13
    requires sign == "" || sign == "+" || sign == "-"
    requires prefix == "" || (base == 16 && (prefix == "0x" || prefix == "0X"))
    requires |digits| == |ds| > 0 && forall i :: 0 <= i < |ds| ==> ds[i] < base && IsDigit(digits[i], ds[i])
    ensures var v := Horner(ds, base);
      Strict(space + sign + prefix + digits, base)
        == Some(if v >= 0x1_0000_0000_0000_0000 then 0xFFFF_FFFF_FFFF_FFFF
                else if sign == "-" && v > 0 then 0x1_0000_0000_0000_0000 - v else v)
  {
    hide Value, Horner, DigitValue, IsDigit, SkipSpace, SkipPrefix, SkipDigits, Strict, AllDigits;
    var s := space + sign + prefix + digits;
    ValueIsHorner(digits, ds, base);
    assert s[|space|..] == sign + prefix + digits;
    assert s[|space + sign|..] == prefix + digits;
    SkipsSpace(s, 0, |space|, base, sign, prefix, digits);
    var i := |space|;
    var p := i + |sign|;
    var k := p + |prefix|;
    SignAt(s, i, sign, prefix, digits, base);
    SkipsPrefix(s, p, base, prefix, digits);
    assert s[k..] == digits;
    SkipsAllDigits(s, k, base);
    ReadWhole(s, i, k, base, sign == "-", digits);
  }

  lemma {:induction false} SignAt(s: string, i: nat, sign: string, prefix: string, digits: string, base: nat)
    requires i <= |s| && s[i..] == sign + prefix + digits
    requires sign == "" || sign == "+" || sign == "-"
    requires prefix == "" || prefix == "0x" || prefix == "0X"
    requires digits != "" && AllDigits(digits, base) && base <= 16
    ensures i < |s|
    ensures (s[i] == '-' <==> sign == "-") && (s[i] == '+' <==> sign == "+")
  {
    hide DigitValue;
    PlainStart(digits, base);
    assert s[i] == (sign + prefix + digits)[0];
  }

  lemma {:induction false} ReadWhole(s: string, i: nat, k: nat, base: nat, negative: bool, digits: string)
    requires SkipSpace(s, 0) == i < |s| && negative == (s[i] == '-')
    requires SkipPrefix(s, if s[i] == '-' || s[i] == '+' then i + 1 else i, base) == k < |s|
    requires s[k..] == digits && SkipDigits(s, k, base) == |s|
    ensures var v := Value(digits, base);
      Strict(s, base) == Some(if v >= 0x1_0000_0000_0000_0000 then 0xFFFF_FFFF_FFFF_FFFF
                              else if negative && v > 0 then 0x1_0000_0000_0000_0000 - v else v)
  {
    hide Value, SkipSpace, SkipPrefix, SkipDigits;
    assert s[k..|s|] == s[k..];
  }

  lemma {:induction false} PlainStart(digits: string, base: nat)
    requires digits != "" && AllDigits(digits, base) && base <= 16
    ensures digits[0] != '-' && digits[0] != '+' && !IsSpace(digits[0])
    ensures |digits| > 1 ==> digits[1] != 'x' && digits[1] != 'X'
  {
    hide DigitValue;
    DigitIsPlain(digits[0]);
    if |digits| > 1 {
      DigitIsPlain(digits[1]);
    }
  }

  lemma {:induction false} SkipsSpace(s: string, i: nat, n: nat, base: nat, sign: string, prefix: string,
                                      digits: string)
    requires i <= n <= |s| && (forall k :: i <= k < n ==> IsSpace(s[k]))
    requires sign == "" || sign == "+" || sign == "-"
    requires prefix == "" || (base == 16 && (prefix == "0x" || prefix == "0X"))
    requires digits != "" && AllDigits(digits, base) && base <= 16 && s[n..] == sign + prefix + digits
    ensures SkipSpace(s, i) == n
    decreases n - i
  {
    hide DigitValue;
    if i < n {
      SkipsSpace(s, i + 1, n, base, sign, prefix, digits);
    } else {
      PlainStart(digits, base);
      assert s[n] == (sign + prefix + digits)[0];
    }
  }

  lemma {:induction false} SkipsPrefix(s: string, p: nat, base: nat, prefix: string, digits: string)
    requires p <= |s| && s[p..] == prefix + digits && digits != "" && AllDigits(digits, base) && base <= 16
    requires prefix == "" || (base == 16 && (prefix == "0x" || prefix == "0X"))
    ensures SkipPrefix(s, p, base) == p + |prefix|
  {
    hide DigitValue;
    PlainStart(digits, base);
    var t := s[p..];
    assert |t| > 1 ==> t[1] == s[p + 1];
    if prefix != "" {
      assert t[0] == s[p] && t[2] == s[p + 2] == digits[0];
      assert DigitValue(digits[0]) < base;
    } else {
      assert t == digits;
    }
  }

  // Bytes by their weights.

  /** The number in the bytes of a field, whose first byte weighs least or most. */
  function FieldNumber(b: seq<byte>, little: bool): nat
    requires FieldSize(|b|)
  {
    var d: seq<nat> := if little then b else seq(|b|, i requires 0 <= i < |b| => b[|b| - 1 - i]);
    if |d| == 1 then d[0]
    else if |d| == 2 then d[0] + 0x100 * d[1]
    else if |d| == 4 then d[0] + 0x100 * d[1] + 0x1_0000 * d[2] + 0x100_0000 * d[3]
    else
      d[0] + 0x100 * d[1] + 0x1_0000 * d[2] + 0x100_0000 * d[3]
      + 0x1_0000_0000 * d[4] + 0x100_0000_0000 * d[5] + 0x1_0000_0000_0000 * d[6] + 0x100_0000_0000_0000 * d[7]
  }

  lemma {:induction false} LoadIsFieldNumber(b: seq<byte>, little: bool)
    requires FieldSize(|b|)
    ensures Load(b, little) == FieldNumber(b, little)
  {
    hide LeValue, Reversed;
    var d: seq<byte> := if little then b else seq(|b|, i requires 0 <= i < |b| => b[|b| - 1 - i]);
    assert !little ==> d == Reversed(b);
    if |d| == 1 {
      OneByte(d);
    } else if |d| == 2 {
      TwoBytes(d);
    } else if |d| == 4 {
      LeValueOfFour(d);
    } else {
      EightBytes(d);
      LeValueOfFour(d[0..4]);
      LeValueOfFour(d[4..8]);
    }
  }

  lemma {:induction false} OneByte(d: seq<byte>)
    requires |d| == 1
    ensures LeValue(d) == d[0]
  {
    assert d[1..] == [];
  }

  /** Saving takes the number in the byte order that is forced or, if none is, in that of the field. */
  lemma {:induction false} SaveMeans(b: seq<byte>, hex: bool, forced: Endian, le: bool)
    requires FieldSize(|b|)
    ensures var n := FieldNumber(b, match forced case Unforced => le case Little => true case Big => false);
      SaveField(b, hex, forced, le) == if hex then Hex(n, |b|) else Decimal(n, |b|)
  {
    hide Load, FieldNumber, Hex, Decimal;
    LoadIsFieldNumber(b, PreferLe(forced, le));
  }

  /** Loading stores the low bytes of the number in that order. */
  lemma {:induction false} LoadMeans(s: string, size: nat, hex: bool, forced: Endian, le: bool)
    requires FieldSize(size)
    ensures Strict(s, if hex then 16 else 10).None? <==> LoadField(s, size, hex, forced, le).None?
    ensures Strict(s, if hex then 16 else 10).Some? ==>
      var b := LoadField(s, size, hex, forced, le).value;
      && |b| == size
      && FieldNumber(b, match forced case Unforced => le case Little => true case Big => false)
         == Strict(s, if hex then 16 else 10).value % Limit(size)
  {
    hide Load, Store, FieldNumber, Strict;
    var v := Strict(s, if hex then 16 else 10);
    if v.Some? {
      var little := PreferLe(forced, le);
      CutIsRemainder(v.value, size);
      LoadOfStore(Cut(v.value, size), size, little);
      LoadIsFieldNumber(Store(Cut(v.value, size), size, little), little);
    }
  }

  lemma {:induction false} CutIsRemainder(v: uint64, size: nat)
    requires FieldSize(size)
    ensures Cut(v, size) == v % Limit(size)
  {
  }

  lemma {:induction false} LoadOfStore(v: nat, size: nat, le: bool)
    requires FieldSize(size) && v < Limit(size)
    ensures Load(Store(v, size, le), le) == v
  {
    hide LeValue, LeBytes, Reversed;
    Pow256Values();
    assert Pow256(1) == 0x100 * Pow256(0);
    LeValueOfLeBytes(v, size);
    BeValueOfBeBytes(v, size);
    RemainderUnique(v, Limit(size), 0, v);
  }

  /** The fields of a structure and the byte order that is forced on them. */
  class Structure {
    var forced: Endian
    const bytes: array<byte>

    constructor (size: nat)
      ensures forced == Unforced && bytes.Length == size && fresh(bytes)
    {
      forced := Unforced;
      bytes := new byte[size](_ => 0);
    }

    /** Forces a byte order; the previous setting is returned so that it can be restored. */
    method ForceEndian(order: Endian) returns (previous: Endian)
      modifies this
      ensures previous == old(forced) && forced == order
    {
      previous := forced;
      forced := order;
    }

    /** Adds the text to an object; where the name exists already, its first value stays the one that is found. */
    method SaveJson(json: map<string, string>, name: string, off: nat, size: nat, hex: bool, le: bool)
      returns (after: map<string, string>)
      requires off + size <= bytes.Length
      ensures name !in json ==> after == json[name := SaveField(bytes[off..off + size], hex, forced, le)]
      ensures name in json ==> after == json
    {
      after := if name in json then json else json[name := SaveField(bytes[off..off + size], hex, forced, le)];
    }

    /** Sets the field from the text stored under its name; on an error no byte is changed. */
    method LoadJson(json: map<string, string>, name: string, off: nat, size: nat, hex: bool, le: bool)
      returns (ret: int)
      requires off + size <= bytes.Length
      modifies bytes
      ensures name !in json ==> ret == -1 && bytes[..] == old(bytes[..])
      ensures name in json ==>
        var r := LoadField(json[name], size, hex, forced, le);
        if r.None? then ret == -1 && bytes[..] == old(bytes[..])
        else ret == 0 && bytes[..] == old(bytes[..off]) + r.value + old(bytes[off + size..])
    {
      if name !in json {
        return -1;
      }
      var v := Strict(json[name], if hex then 16 else 10);
      if v.None? {
        return -1;
      }
      ret := SetUnsigned(off, size, PreferLe(forced, le), v.value);
    }

    /** Copies bytes into the structure from `off` on. */
    method CopyIn(off: nat, v: seq<byte>)
      requires off + |v| <= bytes.Length
      modifies bytes
      ensures bytes[..] == old(bytes[..off]) + v + old(bytes[off + |v|..])
    {
      for i := 0 to |v|
        invariant forall k :: 0 <= k < bytes.Length ==>
          bytes[k] == if off <= k < off + i then v[k - off] else old(bytes[k])
      {
        bytes[off + i] := v[i];
      }
    }

    method SetUnsigned(off: nat, size: nat, le: bool, un: uint64) returns (ret: int)
      requires off + size <= bytes.Length
      modifies bytes
      ensures !FieldSize(size) ==> ret == -1 && bytes[..] == old(bytes[..])
      ensures FieldSize(size) ==>
        ret == 0 && bytes[..] == old(bytes[..off]) + Store(Cut(un, size), size, le) + old(bytes[off + size..])
    {
      if !FieldSize(size) {
        return -1;
      }
      CopyIn(off, Store(Cut(un, size), size, le));
      ret := 0;
    }

    /**
     * Saving a field and loading it into another structure, with any bytes there before. The field is
     * restored when the object had no entry of its name; if it had one, that entry is what is loaded.
     */
    method SaveAndLoad(json: map<string, string>, name: string, off: nat, size: nat, hex: bool, le: bool,
                       other: Structure)
      returns (ret: int)
      requires off + size <= bytes.Length && other.bytes.Length == bytes.Length
      requires other.bytes != bytes && other.forced == forced
      modifies other.bytes
      ensures
        var saved := SaveField(bytes[off..off + size], hex, forced, le);
        var r := LoadField(if name in json then json[name] else saved, size, hex, forced, le);
        if r.None? then ret == -1 && other.bytes[..] == old(other.bytes[..])
        else ret == 0 && other.bytes[..] == old(other.bytes[..off]) + r.value + old(other.bytes[off + size..])
      ensures name !in json && FieldSize(size) ==>
        ret == 0 && other.bytes[..] == old(other.bytes[..off]) + bytes[off..off + size] + old(other.bytes[off + size..])
    {
      hide SaveField, LoadField;
      FieldRoundTrip(bytes[off..off + size], hex, forced, le);
      var after := SaveJson(json, name, off, size, hex, le);
      ret := other.LoadJson(after, name, off, size, hex, le);
    }
  }
}
