/** The tokens of a devicetree structure block and their encoding (fdt/fdt.c). */
module FdtTokens {
  import opened Base

  datatype Token = Begin(name: seq<byte>) | Prop(name: seq<byte>, data: seq<byte>) | End | Nop | Stop | Bad

  function Aligned(n: nat): (r: nat)
    ensures n <= r < n + 4 && r % 4 == 0
  {
    (n + 3) / 4 * 4
  }

  /**
   * The longest name, with its zero byte, and the longest data: lengths are signed, and are rounded up to 4 in
   * the same type. A negative length of data asks for a node that cannot be allocated.
   */
  const MAX_LENGTH := 0x7FFF_FFFC

  /** Exactly the lengths up to the limit are still positive when they have been rounded up. */
  lemma {:induction false} LongestLength(n: nat)
    ensures n <= MAX_LENGTH <==> Aligned(n) < 0x8000_0000
  {
  }

  /** The bytes before the first zero byte at or after `p`. */
  function CString(dtb: seq<byte>, p: nat): Option<seq<byte>>
    decreases |dtb| - p
  {
    if p >= |dtb| then None
    else if dtb[p] == 0 then Some([])
    else
      var rest := CString(dtb, p + 1);
      if rest.None? then None else Some([dtb[p]] + rest.value)
  }

  /** The token at `off` and the room it takes; a token that runs past the end of the buffer is bad. */
  function TokenAt(dtb: seq<byte>, off: nat, strings: nat): (r: (Token, nat))
    ensures r.0.Stop? || r.0.Bad? || (r.1 >= 4 && off + 4 <= |dtb|)
  {
    if off + 4 > |dtb| then (Bad, 0)
    else
      var tag := Be32(dtb, off);
      if tag == 1 then
        var name := CString(dtb, off + 4);
        if name.None? || |name.value| + 1 > MAX_LENGTH then (Bad, 0)
        else (Begin(name.value), 4 + Aligned(|name.value| + 1))
      else if tag == 4 then (Nop, 4)
      else if tag == 3 then PropAt(dtb, off, strings)
      else if tag == 2 then (End, 4)
      else if tag == 9 then (Stop, 4)
      else (Bad, 0)
  }

  function PropAt(dtb: seq<byte>, off: nat, strings: nat): (r: (Token, nat))
    ensures r.0.Bad? || (r.0.Prop? && r.1 >= 12)
  {
    if off + 12 > |dtb| then (Bad, 0)
    else
      var len := Be32(dtb, off + 4);
      var name := CString(dtb, strings + Be32(dtb, off + 8));
      if len > MAX_LENGTH || off + 12 + len > |dtb| || name.None? then (Bad, 0)
      else (Prop(name.value, dtb[off + 12..off + 12 + len]), 12 + Aligned(len))
  }

  /** All tokens from `off` up to the first that ends the walk. */
  function Lex(dtb: seq<byte>, off: nat, strings: nat): seq<Token>
    decreases if off <= |dtb| then |dtb| - off else 0
  {
    var (t, size) := TokenAt(dtb, off, strings);
    if t.Stop? || t.Bad? then [t] else [t] + Lex(dtb, off + size, strings)
  }

  /** A token as bytes, padded with zeros; `nameoff` is where a property's name is in the strings block. */
  function TokenBytes(t: Token, nameoff: nat): seq<byte>
  {
    match t
    case Begin(name) => BeBytes(1, 4) + (name + Zeros(Aligned(|name| + 1) - |name|))
    case Prop(name, data) =>
      BeBytes(3, 4) + BeBytes(|data|, 4) + BeBytes(nameoff, 4) + (data + Zeros(Aligned(|data|) - |data|))
    case End => BeBytes(2, 4)
    case Nop => BeBytes(4, 4)
    case Stop => BeBytes(9, 4)
    case Bad => []
  }

  /** Tokens that a structure block can hold before its end, with their names where `nameoff` says. */
  ghost predicate Encodable(dtb: seq<byte>, strings: nat, t: Token, nameoff: nat) {
    && !t.Bad? && !t.Stop?
    && (t.Begin? ==> 0 !in t.name && |t.name| + 1 <= MAX_LENGTH)
    && (t.Prop? ==> |t.data| <= MAX_LENGTH && nameoff < 0x1_0000_0000
                    && CString(dtb, strings + nameoff) == Some(t.name))
  }

  /** The structure block of a token list, ended by a stop token. */
  function Encode(ts: seq<Token>, nameoffs: seq<nat>): seq<byte>
    requires |nameoffs| == |ts|
  {
    if ts == [] then TokenBytes(Stop, 0) else TokenBytes(ts[0], nameoffs[0]) + Encode(ts[1..], nameoffs[1..])
  }

  lemma {:induction false} CStringOf(dtb: seq<byte>, p: nat, name: seq<byte>)
    requires p + |name| < |dtb| && dtb[p..p + |name|] == name && dtb[p + |name|] == 0 && 0 !in name
    ensures CString(dtb, p) == Some(name)
    decreases |name|
  {
    if name != [] {
      assert dtb[p] == dtb[p..p + |name|][0] == name[0];
      assert dtb[p + 1..p + |name|] == name[1..] by {
        assert dtb[p + 1..p + |name|] == dtb[p..p + |name|][1..];
      }
      CStringOf(dtb, p + 1, name[1..]);
      assert [name[0]] + name[1..] == name;
    }
  }

  /** A string is found exactly when it stands there with a zero byte behind it. */
  lemma {:induction false} CStringMeans(dtb: seq<byte>, p: nat, name: seq<byte>)
    ensures CString(dtb, p) == Some(name)
       <==> p + |name| < |dtb| && dtb[p..p + |name|] == name && dtb[p + |name|] == 0 && 0 !in name
    decreases if p < |dtb| then |dtb| - p else 0
  {
    if p < |dtb| && dtb[p] != 0 {
      var rest := CString(dtb, p + 1);
      if rest.Some? {
        CStringMeans(dtb, p + 1, rest.value);
        var n := |rest.value|;
        assert dtb[p..p + 1 + n] == [dtb[p]] + dtb[p + 1..p + 1 + n];
      }
      if p + |name| < |dtb| && dtb[p..p + |name|] == name && dtb[p + |name|] == 0 && 0 !in name {
        CStringOf(dtb, p, name);
      }
    } else if p < |dtb| && name != [] && p + |name| < |dtb| {
      assert dtb[p..p + |name|][0] == dtb[p];
    }
  }

  lemma {:induction false} Inside(dtb: seq<byte>, off: nat, b: seq<byte>, i: nat, j: nat)
    requires off + |b| <= |dtb| && dtb[off..off + |b|] == b && i <= j <= |b|
    ensures dtb[off + i..off + j] == b[i..j]
  {
    var got := dtb[off + i..off + j];
    assert |got| == |b[i..j]| && forall k :: 0 <= k < |got| ==> got[k] == b[i..j][k];
  }

  /** Tag, name and terminating zero of a node's beginning. */
  lemma {:induction false} BeginBytes(name: seq<byte>)
    ensures var b := TokenBytes(Begin(name), 0);
      && |b| == 4 + Aligned(|name| + 1)
      && b[0..4] == BeBytes(1, 4) && b[4..4 + |name|] == name && b[4 + |name|] == 0
  {
    hide BeBytes, Aligned;
    var head, pad := BeBytes(1, 4), Zeros(Aligned(|name| + 1) - |name|);
    var b := TokenBytes(Begin(name), 0);
    assert b[4 + |name|] == (name + pad)[|name|] == pad[0];
  }

  lemma {:induction false} ReadsBegin(dtb: seq<byte>, off: nat, strings: nat, name: seq<byte>)
    requires 0 !in name && |name| + 1 <= MAX_LENGTH
    requires var b := TokenBytes(Begin(name), 0); off + |b| <= |dtb| && dtb[off..off + |b|] == b
    ensures TokenAt(dtb, off, strings) == (Begin(name), |TokenBytes(Begin(name), 0)|)
  {
    hide Be32, CString, Aligned, TokenBytes, BeBytes;
    BeginBytes(name);
    var b := TokenBytes(Begin(name), 0);
    Inside(dtb, off, b, 0, 4);
    Inside(dtb, off, b, 4, 4 + |name|);
    assert dtb[off + 4 + |name|] == dtb[off..off + |b|][4 + |name|] == 0;
    Be32OfBytes(dtb, off, 1);
    CStringOf(dtb, off + 4, name);
  }

  lemma {:induction false} ReadsProp(dtb: seq<byte>, off: nat, strings: nat, name: seq<byte>, data: seq<byte>,
                                     nameoff: nat)
    requires Encodable(dtb, strings, Prop(name, data), nameoff)
    requires var b := TokenBytes(Prop(name, data), nameoff); off + |b| <= |dtb| && dtb[off..off + |b|] == b
    ensures TokenAt(dtb, off, strings) == (Prop(name, data), |TokenBytes(Prop(name, data), nameoff)|)
  {
    hide Be32, CString, Aligned, BeBytes;
    var b := TokenBytes(Prop(name, data), nameoff);
    Inside(dtb, off, b, 0, 4);
    Inside(dtb, off, b, 4, 8);
    Inside(dtb, off, b, 8, 12);
    Inside(dtb, off, b, 12, 12 + |data|);
    assert b[0..4] == BeBytes(3, 4) && b[4..8] == BeBytes(|data|, 4) && b[8..12] == BeBytes(nameoff, 4);
    assert b[12..12 + |data|] == data;
    Be32OfBytes(dtb, off, 3);
    Be32OfBytes(dtb, off + 4, |data|);
    Be32OfBytes(dtb, off + 8, nameoff);
  }

  /** A token that was written is read, and the next one starts right after it. */
  lemma {:induction false} ReadsToken(dtb: seq<byte>, off: nat, strings: nat, t: Token, nameoff: nat)
    requires t == Stop || Encodable(dtb, strings, t, nameoff)
    requires var b := TokenBytes(t, nameoff); off + |b| <= |dtb| && dtb[off..off + |b|] == b
    ensures TokenAt(dtb, off, strings) == (t, |TokenBytes(t, nameoff)|)
  {
    hide Be32, CString, Aligned, BeBytes, PropAt;
    match t
    case Begin(name) => ReadsBegin(dtb, off, strings, name);
    case Prop(name, data) => ReadsProp(dtb, off, strings, name, data, nameoff);
    case End => Be32OfBytes(dtb, off, 2);
    case Nop => Be32OfBytes(dtb, off, 4);
    case Stop => Be32OfBytes(dtb, off, 9);
  }

  /** Reading a structure block gives back the tokens it was made of, NOPs and padding included. */
  lemma {:induction false} LexOfEncoding(dtb: seq<byte>, off: nat, strings: nat, ts: seq<Token>, nameoffs: seq<nat>)
    requires |nameoffs| == |ts|
    requires forall k :: 0 <= k < |ts| ==> Encodable(dtb, strings, ts[k], nameoffs[k])
    requires off + |Encode(ts, nameoffs)| <= |dtb|
    requires dtb[off..off + |Encode(ts, nameoffs)|] == Encode(ts, nameoffs)
    ensures Lex(dtb, off, strings) == ts + [Stop]
    decreases |ts|
  {
    hide TokenAt, TokenBytes, Encodable;
    var all := Encode(ts, nameoffs);
    if ts == [] {
      ReadsToken(dtb, off, strings, Stop, 0);
    } else {
      var b, rest := TokenBytes(ts[0], nameoffs[0]), Encode(ts[1..], nameoffs[1..]);
      Inside(dtb, off, all, 0, |b|);
      Inside(dtb, off, all, |b|, |all|);
      assert all[0..|b|] == b && all[|b|..|all|] == rest;
      ReadsToken(dtb, off, strings, ts[0], nameoffs[0]);
      LexOfEncoding(dtb, off + |b|, strings, ts[1..], nameoffs[1..]);
      NotLast(dtb, strings, ts[0], nameoffs[0]);
      assert [ts[0]] + (ts[1..] + [Stop]) == ts + [Stop];
    }
  }

  lemma {:induction false} NotLast(dtb: seq<byte>, strings: nat, t: Token, nameoff: nat)
    requires Encodable(dtb, strings, t, nameoff)
    ensures !t.Stop? && !t.Bad?
  {
  }
}
