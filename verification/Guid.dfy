/** GUIDs as text and back (disk/gpt.c, xstring.c). */
module Guid {
  import opened Base
  import opened Numbers

  /** Where byte `i` of the text is kept: in place for a UUID, three little-endian groups first for a GUID. */
  function Order(isUuid: bool, i: nat): (r: nat)
    requires i < 16
    ensures r < 16
  {
    if isUuid || i >= 8 then i
    else if i < 4 then 3 - i
    else if i < 6 then 9 - i
    else 13 - i
  }

  lemma {:induction false} OrderTwice(isUuid: bool, i: nat)
    requires i < 16
    ensures Order(isUuid, Order(isUuid, i)) == i
  {
  }

  function HexByte(b: byte): string {
    [Digit(b / 16), Digit(b % 16)]
  }

  function Dash(i: nat): string {
    if i == 3 || i == 5 || i == 7 || i == 9 then "-" else ""
  }

  /** The text from byte `i` on, with dashes after bytes 3, 5, 7 and 9. */
  function Text(isUuid: bool, g: seq<byte>, i: nat): string
    requires |g| == 16 && i <= 16
    decreases 16 - i
  {
    if i == 16 then "" else HexByte(g[Order(isUuid, i)]) + (Dash(i) + Text(isUuid, g, i + 1))
  }

  predicate IsHex(c: char) {
    DigitValue(c) < 16
  }

  /** Up to `len` bytes of paired hexadecimal digits; other characters between pairs are skipped. */
  function Bytes(s: string, len: nat): (r: seq<byte>)
    ensures |r| <= len
    decreases |s|
  {
    if s == "" || len == 0 then []
    else if !IsHex(s[0]) then Bytes(s[1..], len)
    else if |s| < 2 || !IsHex(s[1]) then []
    else [DigitValue(s[0]) * 16 + DigitValue(s[1])] + Bytes(s[2..], len - 1)
  }

  /** The bytes of a text, put where they are kept; there must be exactly sixteen. */
  function Parsed(isUuid: bool, s: string): Option<seq<byte>> {
    var u := Bytes(s, 17);
    if |u| == 16 then Some(Placed(isUuid, u)) else None
  }

  function Placed(isUuid: bool, u: seq<byte>): (r: seq<byte>)
    requires |u| == 16
    ensures |r| == 16 && forall k :: 0 <= k < 16 ==> r[k] == u[Order(isUuid, k)]
  {
    seq(16, k requires 0 <= k < 16 => u[Order(isUuid, k)])
  }

  method Xstring(s: string, buf: array<byte>) returns (ret: nat)
    modifies buf
    ensures ret == |Bytes(s, buf.Length)| <= buf.Length
    ensures buf[..ret] == Bytes(s, buf.Length) && buf[ret..] == old(buf[ret..])
  {
    hide Bytes, DigitValue;
    var p, i := 0, 0;
    ghost var all := Bytes(s, buf.Length);
    assert s[0..] == s && all == [] + all;
    while p < |s| && i < buf.Length
      invariant 0 <= i <= buf.Length && 0 <= p <= |s|
      invariant all == buf[..i] + Bytes(s[p..], buf.Length - i)
      invariant forall k :: i <= k < buf.Length ==> buf[k] == old(buf[k])
    {
      BytesStep(s, p, buf.Length - i);
      if !IsHex(s[p]) {
        p := p + 1;
        continue;
      } else if p + 1 == |s| || !IsHex(s[p + 1]) {
        break;
      }
      ghost var before, rest := buf[..], Bytes(s[p + 2..], buf.Length - i - 1);
      var b: byte := DigitValue(s[p]) * 16 + DigitValue(s[p + 1]);
      assert all == before[..i] + ([b] + rest);
      Regroup(before[..i], [b], rest);
      buf[i] := b;
      assert buf[..i + 1] == before[..i] + [b];
      i := i + 1;
      p := p + 2;
    }
    BytesEnd(s, p, buf.Length - i);
    assert buf[..i] + [] == buf[..i];
    ret := i;
  }

  lemma {:induction false} BytesStep(s: string, p: nat, len: nat)
    requires p < |s| && len > 0
    ensures Bytes(s[p..], len)
         == if !IsHex(s[p]) then Bytes(s[p + 1..], len)
            else if p + 1 == |s| || !IsHex(s[p + 1]) then []
            else [DigitValue(s[p]) * 16 + DigitValue(s[p + 1])] + Bytes(s[p + 2..], len - 1)
  {
    hide DigitValue;
    var t := s[p..];
    assert t[1..] == s[p + 1..] && t[0] == s[p];
    if p + 1 < |s| {
      assert t[2..] == s[p + 2..] && t[1] == s[p + 1];
    }
  }

  lemma {:induction false} BytesEnd(s: string, p: nat, len: nat)
    requires p <= |s| && (p == |s| || len == 0 || (IsHex(s[p]) && (p + 1 == |s| || !IsHex(s[p + 1]))))
    ensures Bytes(s[p..], len) == []
  {
    hide DigitValue;
    if p < |s| && len > 0 {
      BytesStep(s, p, len);
    }
  }

  method SnprintfUuid(isUuid: bool, g: seq<byte>) returns (s: string)
    requires |g| == 16
    ensures s == Text(isUuid, g, 0) && Printed(s, Arranged(isUuid, g))
  {
    hide Text, HexByte, Order, Printed, Arranged;
    s := "";
    for i := 0 to 16
      invariant s + Text(isUuid, g, i) == Text(isUuid, g, 0)
    {
      TextStep(isUuid, g, i);
      assert s + (HexByte(g[Order(isUuid, i)]) + (Dash(i) + Text(isUuid, g, i + 1)))
          == s + HexByte(g[Order(isUuid, i)]) + Dash(i) + Text(isUuid, g, i + 1);
      s := s + HexByte(g[Order(isUuid, i)]) + Dash(i);
    }
    TextEnd(isUuid, g);
    TextMeans(isUuid, g);
  }

  lemma {:induction false} TextStep(isUuid: bool, g: seq<byte>, i: nat)
    requires |g| == 16 && i < 16
    ensures Text(isUuid, g, i) == HexByte(g[Order(isUuid, i)]) + (Dash(i) + Text(isUuid, g, i + 1))
  {
  }

  lemma {:induction false} TextEnd(isUuid: bool, g: seq<byte>)
    requires |g| == 16
    ensures Text(isUuid, g, 16) == ""
  {
  }

  /** On an error the GUID is not touched. */
  method SscanfUuid(guid: array<byte>, isUuid: bool, s: string) returns (ret: int)
    requires guid.Length == 16
    modifies guid
    ensures Parsed(isUuid, s).None? ==> ret == -1 && guid[..] == old(guid[..])
    ensures Parsed(isUuid, s).Some? ==> ret == 0 && guid[..] == Parsed(isUuid, s).value
  {
    hide Bytes, Order;
    var uuid := new byte[17](_ => 0);
    var n := Xstring(s, uuid);
    if n != 16 {
      return -1;
    }
    ghost var u := Bytes(s, 17);
    assert forall k :: 0 <= k < 16 ==> uuid[k] == uuid[..16][k] == u[k];
    for i := 0 to 16
      invariant forall k :: 0 <= k < 16 ==> uuid[k] == u[k]
      invariant forall k :: 0 <= k < i ==> guid[Order(isUuid, k)] == u[k]
    {
      forall k | 0 <= k < i
        ensures Order(isUuid, k) != Order(isUuid, i)
      {
        OrderTwice(isUuid, k);
        OrderTwice(isUuid, i);
      }
      guid[Order(isUuid, i)] := uuid[i];
    }
    forall k | 0 <= k < 16
      ensures guid[k] == u[Order(isUuid, k)]
    {
      OrderTwice(isUuid, k);
    }
    ret := 0;
  }

  lemma {:induction false} BytesOfHex(b: byte, rest: string, len: nat)
    requires len > 0
    ensures Bytes(HexByte(b) + rest, len) == [b] + Bytes(rest, len - 1)
  {
    hide Digit, DigitValue;
    DigitIsItself(b / 16);
    DigitIsItself(b % 16);
    var t := HexByte(b) + rest;
    assert t[0] == Digit(b / 16) && t[1] == Digit(b % 16) && t[2..] == rest;
  }

  lemma {:induction false} BytesSkipDash(i: nat, rest: string, len: nat)
    ensures Bytes(Dash(i) + rest, len) == Bytes(rest, len)
  {
    var t := Dash(i) + rest;
    if Dash(i) == "" {
      assert t == rest;
    } else {
      assert t[0] == '-' && t[1..] == rest;
    }
  }

  function Ordered(isUuid: bool, g: seq<byte>, i: nat): (r: seq<byte>)
    requires |g| == 16 && i <= 16
    ensures |r| == 16 - i && forall k :: 0 <= k < |r| ==> r[k] == g[Order(isUuid, i + k)]
    decreases 16 - i
  {
    if i == 16 then [] else [g[Order(isUuid, i)]] + Ordered(isUuid, g, i + 1)
  }

  lemma {:induction false} BytesNothing()
    ensures Bytes("", 1) == []
  {
  }

  lemma {:induction false} BytesOfText(isUuid: bool, g: seq<byte>, i: nat)
    requires |g| == 16 && i <= 16
    ensures Bytes(Text(isUuid, g, i), 17 - i) == Ordered(isUuid, g, i)
    decreases 16 - i
  {
    hide Bytes, HexByte, Order, Dash;
    if i == 16 {
      BytesNothing();
    } else {
      var rest := Text(isUuid, g, i + 1);
      BytesOfHex(g[Order(isUuid, i)], Dash(i) + rest, 17 - i);
      BytesSkipDash(i, rest, 16 - i);
      BytesOfText(isUuid, g, i + 1);
    }
  }

  /** A printed GUID is read back, in either byte order. */
  lemma {:induction false} GuidRoundTrip(isUuid: bool, g: seq<byte>)
    requires |g| == 16
    ensures Parsed(isUuid, Text(isUuid, g, 0)) == Some(g)
  {
    hide Bytes, Text, Order, Ordered, Placed;
    BytesOfText(isUuid, g, 0);
    var r := Placed(isUuid, Ordered(isUuid, g, 0));
    forall k | 0 <= k < 16
      ensures r[k] == g[k]
    {
      OrderTwice(isUuid, k);
    }
    assert r == g;
  }

  /** Read in the other order, the bytes of the first three groups are swapped. */
  lemma {:induction false} OtherOrder(isUuid: bool, g: seq<byte>)
    requires |g| == 16
    ensures Parsed(!isUuid, Text(isUuid, g, 0))
         == Some([g[3], g[2], g[1], g[0], g[5], g[4], g[7], g[6]] + g[8..])
  {
    hide Bytes, Text, Ordered, Placed;
    BytesOfText(isUuid, g, 0);
    var r := Placed(!isUuid, Ordered(isUuid, g, 0));
    assert r[0] == g[3] && r[1] == g[2] && r[2] == g[1] && r[3] == g[0];
    assert r[4] == g[5] && r[5] == g[4] && r[6] == g[7] && r[7] == g[6];
    assert r == [r[0], r[1], r[2], r[3], r[4], r[5], r[6], r[7]] + r[8..];
    assert r[8..] == g[8..];
  }

  // What the texts are, digit by digit.

  /** Where byte `k` stands in a text: in groups of four, two, two, two and six bytes. */
  function Column(k: nat): (r: nat)
  {
    if k < 4 then 2 * k
    else if k < 6 then 2 * k + 1
    else if k < 8 then 2 * k + 2
    else if k < 10 then 2 * k + 3
    else 2 * k + 4
  }

  /** A UUID is kept in order; of a GUID four, two and two bytes are reversed. */
  function Arranged(isUuid: bool, u: seq<byte>): (r: seq<byte>)
    requires |u| == 16
    ensures |r| == 16
  {
    if isUuid then u
    else [u[3], u[2], u[1], u[0], u[5], u[4], u[7], u[6], u[8], u[9], u[10], u[11], u[12], u[13], u[14], u[15]]
  }

  /** Two lower-case digits of `b` at `p`, the high one first. */
  predicate PrintedAt(s: string, p: nat, b: byte) {
    p + 1 < |s| && s[p] == LOWER[b / 16] && s[p + 1] == LOWER[b % 16]
  }

  /** The digits of sixteen bytes, with dashes between the groups. */
  ghost predicate Printed(s: string, u: seq<byte>)
    requires |u| == 16
  {
    && |s| == 36
    && s[8] == '-' && s[13] == '-' && s[18] == '-' && s[23] == '-'
    && forall k :: 0 <= k < 16 ==> PrintedAt(s, Column(k), u[k])
  }

  lemma {:induction false} ArrangedAt(isUuid: bool, u: seq<byte>, k: nat)
    requires |u| == 16 && k < 16
    ensures u[Order(isUuid, k)] == Arranged(isUuid, u)[k]
  {
  }

  lemma {:induction false} TextTail(isUuid: bool, g: seq<byte>, i: nat)
    requires |g| == 16 && i <= 16
    ensures |Text(isUuid, g, 0)| == Column(i) + |Text(isUuid, g, i)|
    ensures Text(isUuid, g, 0)[Column(i)..] == Text(isUuid, g, i)
    decreases i
  {
    hide Text, HexByte, Order;
    if i > 0 {
      TextTail(isUuid, g, i - 1);
      TextStep(isUuid, g, i - 1);
      var piece, rest := HexByte(g[Order(isUuid, i - 1)]) + Dash(i - 1), Text(isUuid, g, i);
      assert Text(isUuid, g, i - 1) == piece + rest;
      HexByteLength(g[Order(isUuid, i - 1)]);
      assert |piece| == Column(i) - Column(i - 1);
    }
  }

  lemma {:induction false} HexByteLength(b: byte)
    ensures |HexByte(b)| == 2
  {
  }

  /** The digits of byte `k`, and the dash behind it. */
  lemma {:induction false} TextAt(isUuid: bool, g: seq<byte>, k: nat)
    requires |g| == 16 && k < 16
    ensures var s := Text(isUuid, g, 0);
      && |s| == 36 && PrintedAt(s, Column(k), Arranged(isUuid, g)[k])
      && (Column(k + 1) == Column(k) + 3 ==> Column(k) + 2 < 36 && s[Column(k) + 2] == '-')
  {
    hide Text, Order, Arranged, Digit;
    TextTail(isUuid, g, 16);
    TextEnd(isUuid, g);
    TextTail(isUuid, g, k);
    TextStep(isUuid, g, k);
    ArrangedAt(isUuid, g, k);
    DigitIsLower(g[Order(isUuid, k)] / 16);
    DigitIsLower(g[Order(isUuid, k)] % 16);
    var t := Text(isUuid, g, k);
    assert t[0] == Text(isUuid, g, 0)[Column(k)] && t[1] == Text(isUuid, g, 0)[Column(k) + 1];
  }

  /** A UUID is printed in order, a GUID with its first three groups reversed. */
  lemma {:induction false} TextMeans(isUuid: bool, g: seq<byte>)
    requires |g| == 16
    ensures Printed(Text(isUuid, g, 0), Arranged(isUuid, g))
  {
    hide Text, Arranged, PrintedAt;
    forall k | 0 <= k < 16
      ensures PrintedAt(Text(isUuid, g, 0), Column(k), Arranged(isUuid, g)[k])
    {
      TextAt(isUuid, g, k);
    }
    TextAt(isUuid, g, 3);
    TextAt(isUuid, g, 5);
    TextAt(isUuid, g, 7);
    TextAt(isUuid, g, 9);
  }

  predicate NoDigit(c: char) {
    c !in LOWER && c !in UPPER
  }

  predicate NoDigits(s: string) {
    forall i :: 0 <= i < |s| ==> NoDigit(s[i])
  }

  /** Two digits of `b`. */
  predicate IsPair(s: string, b: byte) {
    |s| == 2 && IsDigit(s[0], b / 16) && IsDigit(s[1], b % 16)
  }

  /** Pairs of digits, each behind some text of its own. */
  function Spelled(gaps: seq<string>, pairs: seq<string>): string
    requires |gaps| == |pairs|
  {
    if gaps == [] then "" else gaps[0] + (pairs[0] + Spelled(gaps[1..], pairs[1..]))
  }

  /** No pair is left: the text ends, or a digit stands alone. */
  predicate Spent(gap: string, rest: string) {
    NoDigits(gap) && (rest == "" || (!NoDigit(rest[0]) && (|rest| == 1 || NoDigit(rest[1]))))
  }

  lemma {:induction false} NoDigitIsNotHex(c: char)
    ensures NoDigit(c) <==> !IsHex(c)
  {
    if IsHex(c) {
      var d := DigitValue(c);
      assert IsDigit(c, d);
    } else if !NoDigit(c) {
      var d :| 0 <= d < 16 && (LOWER[d] == c || UPPER[d] == c);
      DigitOf(c, d);
    }
  }

  lemma {:induction false} BytesSkip(gap: string, rest: string, len: nat)
    requires NoDigits(gap)
    ensures Bytes(gap + rest, len) == Bytes(rest, len)
    decreases |gap|
  {
    hide Bytes, DigitValue, NoDigit;
    if gap == "" {
      assert gap + rest == rest;
    } else if len > 0 {
      var t := gap + rest;
      NoDigitIsNotHex(t[0]);
      BytesStep(t, 0, len);
      assert t[0..] == t && t[1..] == gap[1..] + rest;
      BytesSkip(gap[1..], rest, len);
    } else {
      BytesEnd(gap + rest, 0, 0);
      BytesEnd(rest, 0, 0);
      assert (gap + rest)[0..] == gap + rest && rest[0..] == rest;
    }
  }

  lemma {:induction false} BytesOfPair(pair: string, b: byte, rest: string, len: nat)
    requires IsPair(pair, b) && len > 0
    ensures Bytes(pair + rest, len) == [b] + Bytes(rest, len - 1)
  {
    hide Bytes, DigitValue, IsDigit;
    var t := pair + rest;
    DigitOf(t[0], b / 16);
    DigitOf(t[1], b % 16);
    BytesStep(t, 0, len);
    assert t[0..] == t && t[2..] == rest;
  }

  lemma {:induction false} BytesSpent(gap: string, rest: string, len: nat)
    requires Spent(gap, rest) || len == 0
    ensures Bytes(gap + rest, len) == []
  {
    hide Bytes, DigitValue, NoDigit, NoDigits;
    var t := gap + rest;
    assert t[0..] == t && rest[0..] == rest;
    if len == 0 {
      BytesEnd(t, 0, 0);
    } else {
      BytesSkip(gap, rest, len);
      if rest != "" {
        NoDigitIsNotHex(rest[0]);
      }
      if |rest| > 1 {
        NoDigitIsNotHex(rest[1]);
      }
      BytesEnd(rest, 0, len);
    }
  }

  /** The bytes of a text are its pairs of digits, up to the room or a digit that stands alone. */
  lemma {:induction false} BytesMean(gaps: seq<string>, pairs: seq<string>, u: seq<byte>, gap: string, rest: string,
                                     room: nat)
    requires |gaps| == |pairs| == |u| <= room
    requires forall k :: 0 <= k < |u| ==> NoDigits(gaps[k]) && IsPair(pairs[k], u[k])
    requires |u| == room || Spent(gap, rest)
    ensures Bytes(Spelled(gaps, pairs) + (gap + rest), room) == u
    decreases |u|
  {
    hide Bytes, NoDigits, IsPair, Spent;
    var end := gap + rest;
    if u == [] {
      assert Spelled(gaps, pairs) + end == end;
      BytesSpent(gap, rest, room);
    } else {
      var others := Spelled(gaps[1..], pairs[1..]);
      assert Spelled(gaps, pairs) + end == gaps[0] + (pairs[0] + (others + end));
      BytesSkip(gaps[0], pairs[0] + (others + end), room);
      BytesOfPair(pairs[0], u[0], others + end, room);
      BytesMean(gaps[1..], pairs[1..], u[1..], gap, rest, room - 1);
    }
  }

  /** Sixteen pairs of digits give the GUID in the order asked for; fewer or more are refused. */
  lemma {:induction false} ParsedMeans(isUuid: bool, gaps: seq<string>, pairs: seq<string>, u: seq<byte>, gap: string,
                                       rest: string)
    requires |gaps| == |pairs| == |u| <= 17
    requires forall k :: 0 <= k < |u| ==> NoDigits(gaps[k]) && IsPair(pairs[k], u[k])
    requires |u| == 17 || Spent(gap, rest)
    ensures Parsed(isUuid, Spelled(gaps, pairs) + (gap + rest))
         == if |u| == 16 then Some(Arranged(isUuid, u)) else None
  {
    hide Bytes, Order, Arranged, NoDigits, IsPair, Spent;
    BytesMean(gaps, pairs, u, gap, rest, 17);
    if |u| == 16 {
      forall k | 0 <= k < 16
        ensures Placed(isUuid, u)[k] == Arranged(isUuid, u)[k]
      {
        ArrangedAt(isUuid, u, k);
      }
      assert Placed(isUuid, u) == Arranged(isUuid, u);
    }
  }

  lemma {:induction false} SpelledOne(gap: string, pair: string, gaps: seq<string>, pairs: seq<string>)
    requires |gaps| == |pairs|
    ensures Spelled([gap] + gaps, [pair] + pairs) == gap + (pair + Spelled(gaps, pairs))
  {
    assert ([gap] + gaps)[1..] == gaps && ([pair] + pairs)[1..] == pairs;
  }

  lemma {:induction false} SpelledLonger(first: string, gaps: seq<string>, pairs: seq<string>)
    requires |gaps| == |pairs| > 0
    ensures Spelled([first + gaps[0]] + gaps[1..], pairs) == first + Spelled(gaps, pairs)
  {
    SpelledOne(first + gaps[0], pairs[0], gaps[1..], pairs[1..]);
    assert [pairs[0]] + pairs[1..] == pairs;
  }

  lemma {:induction false} PairOf(s: string) returns (b: byte)
    requires |s| == 2 && !NoDigit(s[0]) && !NoDigit(s[1])
    ensures IsPair(s, b)
  {
    hide DigitValue, IsDigit, NoDigit;
    NoDigitIsNotHex(s[0]);
    NoDigitIsNotHex(s[1]);
    DigitIsEither(s[0]);
    DigitIsEither(s[1]);
    b := DigitValue(s[0]) * 16 + DigitValue(s[1]);
  }

  lemma {:induction false} DigitIsEither(c: char)
    requires IsHex(c)
    ensures IsDigit(c, DigitValue(c))
  {
  }

  lemma {:induction false} SpentAlone(s: string)
    ensures NoDigits("") && (s == "" || (!NoDigit(s[0]) && (|s| == 1 || NoDigit(s[1]))) ==> Spent("", s))
  {
  }

  lemma {:induction false} GapLonger(c: char, gap: string, rest: string)
    requires NoDigit(c)
    ensures NoDigits(gap) ==> NoDigits([c] + gap)
    ensures Spent(gap, rest) ==> Spent([c] + gap, rest)
  {
  }

  /** Every text is of that form. */
  lemma {:induction false} EveryTextSpells(s: string, room: nat)
      returns (gaps: seq<string>, pairs: seq<string>, u: seq<byte>, gap: string, rest: string)
    ensures |gaps| == |pairs| == |u| <= room
    ensures forall k :: 0 <= k < |u| ==> NoDigits(gaps[k]) && IsPair(pairs[k], u[k])
    ensures |u| == room || Spent(gap, rest)
    ensures s == Spelled(gaps, pairs) + (gap + rest)
    decreases |s|
  {
    hide Spelled, IsPair, NoDigit, NoDigits, Spent, DigitValue;
    SpentAlone(s);
    if s == "" || room == 0 || (!NoDigit(s[0]) && (|s| == 1 || NoDigit(s[1]))) {
      gaps, pairs, u, gap, rest := [], [], [], "", s;
      SpelledNone();
    } else if NoDigit(s[0]) {
      gaps, pairs, u, gap, rest := EveryTextSpells(s[1..], room);
      assert s == s[..1] + (Spelled(gaps, pairs) + (gap + rest));
      assert s[..1] == [s[0]];
      GapLonger(s[0], gap, rest);
      if u == [] {
        SpelledNone();
        gap := s[..1] + gap;
      } else {
        GapLonger(s[0], gaps[0], "");
        SpelledLonger(s[..1], gaps, pairs);
        gaps := [s[..1] + gaps[0]] + gaps[1..];
      }
    } else {
      gaps, pairs, u, gap, rest := EveryTextSpells(s[2..], room - 1);
      assert s == s[..2] + (Spelled(gaps, pairs) + (gap + rest));
      SpentAlone("");
      var b := PairOf(s[..2]);
      SpelledOne("", s[..2], gaps, pairs);
      gaps, pairs, u := [""] + gaps, [s[..2]] + pairs, [b] + u;
    }
  }

  lemma {:induction false} SpelledNone()
    ensures Spelled([], []) == ""
  {
  }
}
