/** The partition table as JSON and back (disk/gpt.c). */
module Gpt {
  import opened Base
  import opened Numbers
  import opened Guid

  /** The header fields that are saved. */
  datatype Header = Header(myLba: uint64, alternateLba: uint64, firstUsable: uint64, lastUsable: uint64,
                           diskGuid: seq<byte>, entryLba: uint64, numEntries: uint32, entrySize: uint32)

  datatype Entry = Entry(typeGuid: seq<byte>, uniqueGuid: seq<byte>, start: uint64, end: uint64, attributes: uint64,
                         name: seq<uint16>)

  ghost predicate ValidHeader(h: Header) {
    |h.diskGuid| == 16
  }

  ghost predicate ValidEntry(e: Entry) {
    |e.typeGuid| == 16 && |e.uniqueGuid| == 16 && |e.name| == 36
  }

  function Zeros16(n: nat): (z: seq<uint16>)
    ensures |z| == n && forall i :: 0 <= i < n ==> z[i] == 0
  {
    seq(n, _ => 0)
  }

  function ZeroEntry(): Entry {
    Entry(Zeros(16), Zeros(16), 0, 0, 0, Zeros16(36))
  }

  /** A JSON object whose values are strings. */
  type Json = map<string, string>

  // Partition names: 36 units of 16 bits in the table, bytes up to the first zero in the text.

  function NameText(ws: seq<uint16>): (s: seq<byte>)
    ensures |s| <= |ws|
  {
    if ws == [] || ws[0] % 0x100 == 0 then [] else [ws[0] % 0x100] + NameText(ws[1..])
  }

  /** A character is signed, so one above 0x7F sets the high byte as well. */
  function Widen(c: byte): uint16 {
    if c < 0x80 then c else 0xFF00 + c
  }

  /** At most 35 characters are taken; the rest of the name stays zero. */
  function NameUnits(s: seq<byte>): (ws: seq<uint16>)
    ensures |ws| == 36
  {
    seq(36, i requires 0 <= i < 36 => if i < 35 && i < |s| then Widen(s[i]) else 0)
  }

  /** Characters that survive, followed by zeros; the last unit is always zero. */
  ghost predicate PlainName(ws: seq<uint16>) {
    exists k: nat :: k <= 35 && PlainUpTo(ws, k)
  }

  ghost predicate PlainUpTo(ws: seq<uint16>, k: nat) {
    && k <= |ws|
    && (forall i :: 0 <= i < k ==> ws[i] % 0x100 != 0 && ws[i] == Widen(ws[i] % 0x100))
    && (forall i :: k <= i < |ws| ==> ws[i] == 0)
  }

  lemma {:induction false} NameTextOf(ws: seq<uint16>, k: nat)
    requires PlainUpTo(ws, k)
    ensures |NameText(ws)| == k && forall i :: 0 <= i < k ==> NameText(ws)[i] == ws[i] % 0x100
    decreases k
  {
    if k > 0 {
      assert forall i :: 0 <= i < |ws| - 1 ==> ws[1..][i] == ws[i + 1];
      NameTextOf(ws[1..], k - 1);
      assert ws[0] % 0x100 != 0;
      forall i | 0 <= i < k
        ensures NameText(ws)[i] == ws[i] % 0x100
      {
        if i > 0 {
          assert NameText(ws)[i] == NameText(ws[1..])[i - 1];
        }
      }
    }
  }

  lemma {:induction false} NameTextNoZero(ws: seq<uint16>)
    ensures 0 !in NameText(ws)
  {
    if ws != [] && ws[0] % 0x100 != 0 {
      NameTextNoZero(ws[1..]);
    }
  }

  lemma {:induction false} WidenKeeps(c: byte)
    ensures Widen(c) % 0x100 == c
  {
  }

  /** A partition name is restored exactly when it is plain. */
  lemma {:induction false} NameRoundTrip(ws: seq<uint16>)
    requires |ws| == 36
    ensures NameUnits(NameText(ws)) == ws <==> PlainName(ws)
  {
    var s := NameText(ws);
    if PlainName(ws) {
      var k: nat :| k <= 35 && PlainUpTo(ws, k);
      NameTextOf(ws, k);
      assert forall i :: 0 <= i < 36 ==> NameUnits(s)[i] == ws[i];
    }
    if NameUnits(s) == ws {
      var k := if |s| < 35 then |s| else 35;
      NameTextNoZero(ws);
      forall i | 0 <= i < k
        ensures ws[i] % 0x100 != 0 && ws[i] == Widen(ws[i] % 0x100)
      {
        WidenKeeps(s[i]);
        assert s[i] in s;
        assert NameUnits(s)[i] == Widen(s[i]);
      }
      forall i | k <= i < 36
        ensures ws[i] == 0
      {
        assert NameUnits(s)[i] == 0;
      }
      assert PlainUpTo(ws, k);
    }
  }

  /** Names as JSON text: one character for each byte. */
  function ToText(s: seq<byte>): (r: string)
    ensures |r| == |s| && forall i :: 0 <= i < |s| ==> r[i] == s[i] as char
  {
    seq(|s|, i requires 0 <= i < |s| => s[i] as char)
  }

  function FromText(r: string): (s: seq<byte>)
    ensures |s| == |r| && forall i :: 0 <= i < |r| ==> s[i] == r[i] as int % 0x100
  {
    seq(|r|, i requires 0 <= i < |r| => r[i] as int % 0x100)
  }

  lemma {:induction false} TextRoundTrip(s: seq<byte>)
    ensures FromText(ToText(s)) == s
  {
  }

  // Saving.

  function HeaderJson(h: Header): Json
    requires |h.diskGuid| == 16
  {
    map["my_lba" := Decimal(h.myLba, 8), "alternate_lba" := Decimal(h.alternateLba, 8),
        "first_usable_lba" := Decimal(h.firstUsable, 8), "last_usable_lba" := Decimal(h.lastUsable, 8),
        "disk_guid" := Text(false, h.diskGuid, 0), "partition_entry_lba" := Decimal(h.entryLba, 8),
        "num_partition_entries" := Decimal(h.numEntries, 4), "sizeof_partition_entry" := Decimal(h.entrySize, 4)]
  }

  /** The number of sectors, modulo 2^64. */
  function Sectors(e: Entry): uint64 {
    (e.end - e.start + 1) % 0x1_0000_0000_0000_0000
  }

  function NextLba(e: Entry): uint64 {
    (e.end + 1) % 0x1_0000_0000_0000_0000
  }

  function Fields(e: Entry): Json
    requires |e.typeGuid| == 16 && |e.uniqueGuid| == 16
  {
    map["lba_size" := Decimal(Sectors(e), 8),
        "partition_type_guid" := Text(false, e.typeGuid, 0), "unique_partition_guid" := Text(false, e.uniqueGuid, 0),
        "attributes" := Hex(e.attributes, 8), "partition_name" := ToText(NameText(e.name))]
  }

  /** The start is written only where it is not the one that follows from the entries before. */
  function PartJson(e: Entry, lba: uint64): Json
    requires |e.typeGuid| == 16 && |e.uniqueGuid| == 16
  {
    if lba == e.start then Fields(e) else Fields(e)["starting_lba" := Decimal(e.start, 8)]
  }

  predicate Unused(e: Entry) {
    e.start == 0 || e.end == 0
  }

  /** The objects for the entries up to the first unused one. */
  function Parts(es: seq<Entry>, lba: uint64): seq<Json>
    requires forall k :: 0 <= k < |es| ==> ValidEntry(es[k])
  {
    if es == [] || Unused(es[0]) then []
    else
      assert ValidEntry(es[0]);
      [PartJson(es[0], lba)] + Parts(es[1..], NextLba(es[0]))
  }

  method ToJson(h: Header, entries: seq<Entry>) returns (root: Json, parts: seq<Json>)
    requires ValidHeader(h) && forall k :: 0 <= k < |entries| ==> ValidEntry(entries[k])
    ensures root == HeaderJson(h) && parts == Parts(entries, h.firstUsable)
  {
    hide PartJson, Parts, NextLba, HeaderJson, ValidEntry;
    var lba := h.firstUsable;
    root := HeaderJson(h);
    parts := [];
    assert entries[0..] == entries && [] + Parts(entries, lba) == Parts(entries, lba);
    for i := 0 to |entries|
      invariant parts + Parts(entries[i..], lba) == Parts(entries, h.firstUsable)
    {
      var entry := entries[i];
      PartsStep(entries, i, lba, parts);
      if entry.start == 0 || entry.end == 0 {
        return;
      }
      var part;
      part, lba := Save(entry, lba);
      parts := parts + [part];
    }
    PartsEnd(entries, lba, parts);
  }

  /** The body of the loop: one object, and the start that follows from it. */
  method Save(entry: Entry, lba: uint64) returns (part: Json, next: uint64)
    requires ValidEntry(entry)
    ensures part == PartJson(entry, lba) && next == NextLba(entry)
  {
    hide Fields, Decimal;
    NoStart(entry);
    AddedFirst(Fields(entry), "starting_lba", Decimal(entry.start, 8));
    part := map[];
    if lba != entry.start {
      part := part["starting_lba" := Decimal(entry.start, 8)];
    }
    part := part + Fields(entry);
    next := NextLba(entry);
  }

  lemma {:induction false} PartsStep(es: seq<Entry>, i: nat, lba: uint64, done: seq<Json>)
    requires i < |es| && forall k :: 0 <= k < |es| ==> ValidEntry(es[k])
    ensures done + Parts(es[i..], lba)
         == if Unused(es[i]) then done else (done + [PartJson(es[i], lba)]) + Parts(es[i + 1..], NextLba(es[i]))
  {
    hide PartJson, NextLba;
    assert es[i..][1..] == es[i + 1..];
    if Unused(es[i]) {
      assert done + [] == done;
    } else {
      var part, rest := PartJson(es[i], lba), Parts(es[i + 1..], NextLba(es[i]));
      assert done + ([part] + rest) == (done + [part]) + rest;
    }
  }

  lemma {:induction false} PartsEnd(es: seq<Entry>, lba: uint64, done: seq<Json>)
    requires forall k :: 0 <= k < |es| ==> ValidEntry(es[k])
    ensures done + Parts(es[|es|..], lba) == done
  {
    assert done + [] == done;
  }

  lemma {:induction false} AddedFirst(m: Json, name: string, value: string)
    requires name !in m
    ensures map[name := value] + m == m[name := value]
    ensures map[] + m == m
  {
  }

  lemma {:induction false} NoStart(e: Entry)
    requires ValidEntry(e)
    ensures "starting_lba" !in Fields(e)
  {
  }

  // Loading.

  function GetU64(j: Json, name: string): Option<uint64> {
    if name in j then Strict(j[name], 10) else None
  }

  function GetGuid(j: Json, name: string): Option<seq<byte>> {
    if name in j then Parsed(false, j[name]) else None
  }

  function LoadHeader(j: Json): Option<Header> {
    var a, b := GetU64(j, "my_lba"), GetU64(j, "alternate_lba");
    var c, d := GetU64(j, "first_usable_lba"), GetU64(j, "last_usable_lba");
    var g, l := GetGuid(j, "disk_guid"), GetU64(j, "partition_entry_lba");
    var n, s := GetU64(j, "num_partition_entries"), GetU64(j, "sizeof_partition_entry");
    if a.None? || b.None? || c.None? || d.None? || g.None? || l.None? || n.None? || s.None? then None
    else Some(Header(a.value, b.value, c.value, d.value, g.value, l.value, Cut(n.value, 4), Cut(s.value, 4)))
  }

  /** The fields of an entry other than its place. */
  function LoadFields(j: Json): Option<Entry> {
    var t, u := GetGuid(j, "partition_type_guid"), GetGuid(j, "unique_partition_guid");
    var a := if "attributes" in j then Strict(j["attributes"], 16) else None;
    if t.None? || u.None? || a.None? || "partition_name" !in j then None
    else Some(Entry(t.value, u.value, 0, 0, a.value, NameUnits(FromText(j["partition_name"]))))
  }

  /** One entry, given the start that follows from the entries before it. */
  function LoadPart(j: Json, lba: uint64): Option<Entry> {
    var e := LoadFields(j);
    var start := if "starting_lba" in j then GetU64(j, "starting_lba") else Some(lba);
    var size := GetU64(j, "lba_size");
    if e.None? || start.None? || size.None? || size.value == 0 then None
    else Some(e.value.(start := start.value, end := (start.value + size.value - 1) % 0x1_0000_0000_0000_0000))
  }

  function LoadParts(parts: seq<Json>, lba: uint64): Option<seq<Entry>> {
    if parts == [] then Some([])
    else
      var e := LoadPart(parts[0], lba);
      if e.None? then None
      else
        var rest := LoadParts(parts[1..], NextLba(e.value));
        if rest.None? then None else Some([e.value] + rest.value)
  }

  function Repeated(e: Entry, n: nat): (r: seq<Entry>)
    ensures |r| == n && forall i :: 0 <= i < n ==> r[i] == e
  {
    seq(n, _ => e)
  }

  /** What is loaded: the header and all entries, those not listed being zero. */
  function Loaded(root: Json, parts: Option<seq<Json>>): Option<(Header, seq<Entry>)> {
    var h := LoadHeader(root);
    if parts.None? || h.None? || h.value.numEntries >= 0x8000_0000 || |parts.value| > h.value.numEntries
       || h.value.firstUsable <= h.value.myLba then None
    else
      var es := LoadParts(parts.value, h.value.firstUsable);
      LoadPartsLength(parts.value, h.value.firstUsable);
      if es.None? then None
      else Some((h.value, es.value + Repeated(ZeroEntry(), h.value.numEntries - |es.value|)))
  }

  lemma {:induction false} LoadPartsLength(parts: seq<Json>, lba: uint64)
    ensures LoadParts(parts, lba).Some? ==> |LoadParts(parts, lba).value| == |parts|
    decreases |parts|
  {
    hide LoadPart;
    if parts != [] && LoadPart(parts[0], lba).Some? {
      LoadPartsLength(parts[1..], NextLba(LoadPart(parts[0], lba).value));
    }
  }

  /** The entry as it comes back: only its name can differ. */
  function Kept(e: Entry): Entry {
    e.(name := NameUnits(NameText(e.name)))
  }

  /** The entries before the first unused one. */
  function Leading(es: seq<Entry>): (r: seq<Entry>)
    ensures |r| <= |es| && r == es[..|r|]
  {
    if es == [] || Unused(es[0]) then [] else [es[0]] + Leading(es[1..])
  }

  function KeptEach(es: seq<Entry>): (r: seq<Entry>)
    ensures |r| == |es| && forall i :: 0 <= i < |es| ==> r[i] == Kept(es[i])
  {
    seq(|es|, i requires 0 <= i < |es| => Kept(es[i]))
  }

  lemma {:induction false} DecimalLoads(v: uint64)
    ensures Strict(Decimal(v, 8), 10) == Some(v)
  {
    hide Decimal, Strict;
    DecimalRoundTrip(v, 8);
  }

  lemma {:induction false} HeaderLoads(h: Header)
    requires ValidHeader(h)
    ensures LoadHeader(HeaderJson(h)) == Some(h)
  {
    hide Decimal, Strict, Text, Parsed, Cut;
    DecimalLoads(h.myLba);
    DecimalLoads(h.alternateLba);
    DecimalLoads(h.firstUsable);
    DecimalLoads(h.lastUsable);
    DecimalLoads(h.entryLba);
    DecimalRoundTrip(h.numEntries, 4);
    DecimalRoundTrip(h.entrySize, 4);
    GuidRoundTrip(false, h.diskGuid);
  }

  lemma {:induction false} FieldsLoad(e: Entry, j: Json)
    requires ValidEntry(e) && (j == Fields(e) || j == Fields(e)["starting_lba" := Decimal(e.start, 8)])
    ensures LoadFields(j) == Some(Kept(e).(start := 0, end := 0))
    ensures GetU64(j, "lba_size") == Some(Sectors(e))
  {
    hide Decimal, Hex, Strict, Text, Parsed, NameText, NameUnits, ToText, FromText;
    GuidRoundTrip(false, e.typeGuid);
    GuidRoundTrip(false, e.uniqueGuid);
    HexRoundTrip(e.attributes, 8);
    DecimalLoads(Sectors(e));
    TextRoundTrip(NameText(e.name));
  }

  lemma {:induction false} EndFollows(start: uint64, end: uint64, size: uint64)
    requires size == (end - start + 1) % 0x1_0000_0000_0000_0000
    ensures (start + size - 1) % 0x1_0000_0000_0000_0000 == end
    ensures size == 0 <==> (end + 1) % 0x1_0000_0000_0000_0000 == start
  {
  }

  /** An entry is restored, with its start implied or not, exactly when it does not end just before it starts. */
  lemma {:induction false} PartLoads(e: Entry, lba: uint64)
    requires ValidEntry(e)
    ensures LoadPart(PartJson(e, lba), lba) == if NextLba(e) == e.start then None else Some(Kept(e))
  {
    hide Fields, LoadFields, Decimal, Strict, NameText, NameUnits;
    var j := PartJson(e, lba);
    FieldsLoad(e, j);
    DecimalLoads(e.start);
    NoStart(e);
    EndFollows(e.start, e.end, Sectors(e));
  }

  /** No entry ends just before it starts. */
  ghost predicate NoneEmpty(es: seq<Entry>) {
    forall k :: 0 <= k < |es| ==> NextLba(es[k]) != es[k].start
  }

  lemma {:induction false} PartsLoad(es: seq<Entry>, lba: uint64)
    requires forall k :: 0 <= k < |es| ==> ValidEntry(es[k])
    ensures |Parts(es, lba)| == |Leading(es)|
    ensures LoadParts(Parts(es, lba), lba) == if NoneEmpty(Leading(es)) then Some(KeptEach(Leading(es))) else None
    decreases |es|
  {
    hide PartJson, LoadPart, LoadParts, Kept, NoneEmpty, KeptEach, NextLba;
    if es != [] && !Unused(es[0]) {
      var rest := Leading(es[1..]);
      var part, tail := PartJson(es[0], lba), Parts(es[1..], NextLba(es[0]));
      PartLoads(es[0], lba);
      PartsLoad(es[1..], NextLba(es[0]));
      OneMore(es[0], rest);
      ConsLoads(part, tail, lba);
      KeptNext(es[0]);
    } else {
      NothingLoads(lba);
    }
  }

  lemma {:induction false} KeptNext(e: Entry)
    ensures NextLba(Kept(e)) == NextLba(e)
  {
  }

  lemma {:induction false} NothingLoads(lba: uint64)
    ensures LoadParts([], lba) == Some([]) && NoneEmpty([]) && KeptEach([]) == []
  {
  }

  lemma {:induction false} ConsLoads(part: Json, tail: seq<Json>, lba: uint64)
    ensures var e := LoadPart(part, lba);
      LoadParts([part] + tail, lba)
        == if e.None? || LoadParts(tail, NextLba(e.value)).None? then None
           else Some([e.value] + LoadParts(tail, NextLba(e.value)).value)
  {
    hide LoadPart, NextLba;
    assert ([part] + tail)[1..] == tail;
  }

  lemma {:induction false} OneMore(e: Entry, rest: seq<Entry>)
    ensures NoneEmpty([e] + rest) <==> NextLba(e) != e.start && NoneEmpty(rest)
    ensures KeptEach([e] + rest) == [Kept(e)] + KeptEach(rest)
  {
    hide NextLba, Kept, KeptEach;
    var all := [e] + rest;
    KeptOneMore(e, rest);
    if NoneEmpty(all) {
      assert NextLba(all[0]) != all[0].start;
      forall k | 0 <= k < |rest|
        ensures NextLba(rest[k]) != rest[k].start
      {
        assert all[k + 1] == rest[k];
      }
    }
    if NextLba(e) != e.start && NoneEmpty(rest) {
      forall k | 0 <= k < |all|
        ensures NextLba(all[k]) != all[k].start
      {
        assert k > 0 ==> all[k] == rest[k - 1];
      }
    }
  }

  lemma {:induction false} KeptOneMore(e: Entry, rest: seq<Entry>)
    ensures KeptEach([e] + rest) == [Kept(e)] + KeptEach(rest)
  {
    hide Kept;
    var a, b := KeptEach([e] + rest), [Kept(e)] + KeptEach(rest);
    forall k | 0 <= k < |a|
      ensures a[k] == b[k]
    {
      assert k > 0 ==> ([e] + rest)[k] == rest[k - 1];
    }
  }

  /**
   * A table written as JSON is loaded again exactly when the first usable sector lies above the header's,
   * the number of entries fits a signed integer, and no entry before the first unused one ends just before it
   * starts. Then those entries come back, although starts that follow from the ones before are not written.
   * What lies behind the first unused entry is lost.
   */
  lemma {:induction false} TableRoundTrip(h: Header, es: seq<Entry>)
    requires ValidHeader(h) && |es| == h.numEntries && forall k :: 0 <= k < |es| ==> ValidEntry(es[k])
    ensures var r := Loaded(HeaderJson(h), Some(Parts(es, h.firstUsable)));
      && (r.Some? <==> h.firstUsable > h.myLba && h.numEntries < 0x8000_0000 && NoneEmpty(Leading(es)))
      && (r.Some? ==> r.value == (h, KeptEach(Leading(es)) + Repeated(ZeroEntry(), |es| - |Leading(es)|)))
  {
    hide LoadHeader, HeaderJson, Parts, LoadParts, NoneEmpty, KeptEach, Leading, Kept, ZeroEntry;
    HeaderLoads(h);
    PartsLoad(es, h.firstUsable);
  }

  /** No used entry lies behind an unused one. */
  ghost predicate NoGap(es: seq<Entry>) {
    forall i, j :: 0 <= i < j < |es| && Unused(es[i]) ==> Unused(es[j])
  }

  /** A table that loads again has all its used entries restored exactly when it has no gap. */
  lemma {:induction false} GapsLose(h: Header, es: seq<Entry>)
    requires ValidHeader(h) && |es| == h.numEntries && forall k :: 0 <= k < |es| ==> ValidEntry(es[k])
    requires Loaded(HeaderJson(h), Some(Parts(es, h.firstUsable))).Some?
    ensures var out := Loaded(HeaderJson(h), Some(Parts(es, h.firstUsable))).value.1;
      && |out| == |es|
      && ((forall k :: 0 <= k < |es| && !Unused(es[k]) ==> out[k] == Kept(es[k])) <==> NoGap(es))
  {
    hide HeaderJson, Parts, Loaded, Kept, KeptEach, Leading, ZeroEntry, Unused;
    TableRoundTrip(h, es);
    LeadingStops(es);
    var n := |Leading(es)|;
    var out := Loaded(HeaderJson(h), Some(Parts(es, h.firstUsable))).value.1;
    forall k | 0 <= k < |es|
      ensures out[k] == if k < n then Kept(es[k]) else ZeroEntry()
    {
    }
    forall k | 0 <= k < |es| && !Unused(es[k])
      ensures Kept(es[k]) != ZeroEntry()
    {
      UsedIsNotZero(es[k]);
    }
    if forall k :: 0 <= k < |es| && !Unused(es[k]) ==> out[k] == Kept(es[k]) {
      forall i, j | 0 <= i < j < |es| && Unused(es[i])
        ensures Unused(es[j])
      {
        assert n <= i;
        assert out[j] == ZeroEntry();
      }
    }
  }

  lemma {:induction false} UsedIsNotZero(e: Entry)
    requires !Unused(e)
    ensures Kept(e) != ZeroEntry()
  {
    hide NameText, NameUnits;
  }

  lemma {:induction false} LeadingStops(es: seq<Entry>)
    ensures forall k :: 0 <= k < |Leading(es)| ==> !Unused(es[k])
    ensures |Leading(es)| < |es| ==> Unused(es[|Leading(es)|])
  {
    hide Unused;
    if es != [] && !Unused(es[0]) {
      LeadingStops(es[1..]);
      assert Leading(es) == [es[0]] + Leading(es[1..]);
    }
  }

  /** A table whose second partition was deleted: it loads again, without the third one. */
  lemma {:induction false} GapExample(h: Header, es: seq<Entry>)
    requires ValidHeader(h) && h.myLba == 1 && h.firstUsable == 34 && h.numEntries == |es| == 3
    requires forall k :: 0 <= k < |es| ==> ValidEntry(es[k])
    requires es[0].start == 34 && es[0].end == 40 && es[1] == ZeroEntry() && es[2].start == 50 && es[2].end == 60
    ensures var r := Loaded(HeaderJson(h), Some(Parts(es, h.firstUsable)));
      r.Some? && |r.value.1| == 3 && !Unused(es[2]) && r.value.1[2] == ZeroEntry()
  {
    hide HeaderJson, Parts, Loaded, Kept, KeptEach, Leading;
    OneLeading(es);
    TableRoundTrip(h, es);
  }

  lemma {:induction false} OneLeading(es: seq<Entry>)
    requires |es| > 1 && !Unused(es[0]) && Unused(es[1])
    ensures Leading(es) == [es[0]]
  {
    hide Unused;
    assert es[1..][0] == es[1];
    assert Leading(es[1..]) == [];
  }

  /** A table comes back unchanged, apart from what follows the first unused entry, when its names are plain. */
  lemma {:induction false} PlainNamesKept(es: seq<Entry>)
    requires forall k :: 0 <= k < |es| ==> ValidEntry(es[k])
    ensures KeptEach(es) == es <==> forall k :: 0 <= k < |es| ==> PlainName(es[k].name)
  {
    hide NameText, NameUnits, PlainName;
    forall k | 0 <= k < |es|
      ensures Kept(es[k]) == es[k] <==> PlainName(es[k].name)
    {
      NameRoundTrip(es[k].name);
    }
    if KeptEach(es) == es {
      forall k | 0 <= k < |es|
        ensures PlainName(es[k].name)
      {
        assert KeptEach(es)[k] == es[k];
      }
    }
  }

  /** The loader fills a table of zero entries in place. */
  method FromJson(root: Json, parts: Option<seq<Json>>)
    returns (ret: int, hdr: Option<Header>, partitions: array?<Entry>)
    ensures Loaded(root, parts).None? ==> ret == -1 && partitions == null
    ensures Loaded(root, parts).Some? ==>
      ret == 0 && partitions != null && fresh(partitions)
      && hdr == Some(Loaded(root, parts).value.0) && partitions[..] == Loaded(root, parts).value.1
  {
    hide LoadHeader, LoadPart, LoadParts, ZeroEntry;
    ret, hdr, partitions := -1, None, null;
    if parts.None? {
      return;
    }
    hdr := LoadHeader(root);
    if hdr.None? || hdr.value.numEntries >= 0x8000_0000 || |parts.value| > hdr.value.numEntries {
      return;
    }
    var lba := hdr.value.firstUsable;
    if lba <= hdr.value.myLba {
      return;
    }
    var table := new Entry[hdr.value.numEntries](_ => ZeroEntry());
    var ok := Fill(table, parts.value, lba);
    LoadPartsLength(parts.value, lba);
    if ok {
      ret, partitions := 0, table;
      assert table[..] == table[..|parts.value|] + table[|parts.value|..];
    }
  }

  method Fill(table: array<Entry>, parts: seq<Json>, first: uint64) returns (ok: bool)
    requires |parts| <= table.Length
    modifies table
    ensures ok == LoadParts(parts, first).Some?
    ensures ok ==> table[..|parts|] == LoadParts(parts, first).value
    ensures forall k :: |parts| <= k < table.Length ==> table[k] == old(table[k])
  {
    hide LoadPart, LoadParts, NextLba;
    var lba := first;
    assert parts[0..] == parts;
    LoadPartsStart(parts, first);
    for i := 0 to table.Length
      invariant i <= |parts|
      invariant LoadParts(parts, first) == Joined(table[..i], LoadParts(parts[i..], lba))
      invariant forall k :: |parts| <= k < table.Length ==> table[k] == old(table[k])
    {
      if i >= |parts| {
        break;
      }
      LoadPartsStep(parts, i, lba, table[..i]);
      var e := LoadPart(parts[i], lba);
      if e.None? {
        return false;
      }
      ghost var before := table[..i];
      table[i] := e.value;
      assert table[..i + 1] == before + [e.value];
      lba := NextLba(e.value);
    }
    LoadPartsEnd(parts, lba, table[..|parts|]);
    ok := true;
  }

  function Joined(a: seq<Entry>, b: Option<seq<Entry>>): Option<seq<Entry>> {
    if b.None? then None else Some(a + b.value)
  }

  lemma {:induction false} LoadPartsStart(parts: seq<Json>, lba: uint64)
    ensures LoadParts(parts, lba) == Joined([], LoadParts(parts, lba))
  {
    hide LoadParts;
    var r := LoadParts(parts, lba);
    assert r.Some? ==> [] + r.value == r.value;
  }

  lemma {:induction false} LoadPartsEnd(parts: seq<Json>, lba: uint64, done: seq<Entry>)
    ensures Joined(done, LoadParts(parts[|parts|..], lba)) == Some(done)
  {
    assert done + [] == done;
  }

  lemma {:induction false} LoadPartsStep(parts: seq<Json>, i: nat, lba: uint64, done: seq<Entry>)
    requires i < |parts|
    ensures var e := LoadPart(parts[i], lba);
      Joined(done, LoadParts(parts[i..], lba))
        == if e.None? then None else Joined(done + [e.value], LoadParts(parts[i + 1..], NextLba(e.value)))
  {
    hide LoadPart, NextLba;
    assert parts[i..][1..] == parts[i + 1..];
    var e := LoadPart(parts[i], lba);
    if e.Some? {
      var rest := LoadParts(parts[i + 1..], NextLba(e.value));
      if rest.Some? {
        assert done + ([e.value] + rest.value) == (done + [e.value]) + rest.value;
      }
    }
  }

  // The texts of a table, written out.

  /** The number without leading zeros. */
  ghost predicate IsNumber(s: string, n: nat, base: nat)
    requires 2 <= base <= 16
  {
    s != "" && Shows(s, n, base) && n < Pow(base, |s|) && (|s| > 1 ==> n >= Pow(base, |s| - 1))
  }

  /** A four-byte field is printed as a signed number. */
  ghost predicate IsSigned(s: string, n: uint32) {
    if n < 0x8000_0000 then IsNumber(s, n, 10)
    else s != "" && s[0] == '-' && IsNumber(s[1..], 0x1_0000_0000 - n, 10)
  }

  lemma {:induction false} DecimalMeans(n: uint64)
    ensures IsNumber(Decimal(n, 8), n, 10)
    ensures n < 0x1_0000_0000 ==> IsSigned(Decimal(n, 4), n)
  {
    hide Print, Pow, Shows;
    PrintMeans(n, 10);
    if 0x8000_0000 <= n < 0x1_0000_0000 {
      PrintMeans(0x1_0000_0000 - n, 10);
      assert Decimal(n, 4)[1..] == Print(0x1_0000_0000 - n, 10);
    }
  }

  /** Every field of the header stands under its name. */
  ghost predicate HeaderTexts(root: Json, h: Header)
    requires |h.diskGuid| == 16
  {
    && root.Keys == {"my_lba", "alternate_lba", "first_usable_lba", "last_usable_lba", "disk_guid",
                     "partition_entry_lba", "num_partition_entries", "sizeof_partition_entry"}
    && IsNumber(root["my_lba"], h.myLba, 10)
    && IsNumber(root["alternate_lba"], h.alternateLba, 10)
    && IsNumber(root["first_usable_lba"], h.firstUsable, 10)
    && IsNumber(root["last_usable_lba"], h.lastUsable, 10)
    && Printed(root["disk_guid"], Arranged(false, h.diskGuid))
    && IsNumber(root["partition_entry_lba"], h.entryLba, 10)
    && IsSigned(root["num_partition_entries"], h.numEntries)
    && IsSigned(root["sizeof_partition_entry"], h.entrySize)
  }

  lemma {:induction false} HeaderMeans(h: Header)
    requires ValidHeader(h)
    ensures HeaderTexts(HeaderJson(h), h)
  {
    hide Decimal, Text, IsNumber, IsSigned, Printed, Arranged;
    DecimalMeans(h.myLba);
    DecimalMeans(h.alternateLba);
    DecimalMeans(h.firstUsable);
    DecimalMeans(h.lastUsable);
    DecimalMeans(h.entryLba);
    DecimalMeans(h.numEntries);
    DecimalMeans(h.entrySize);
    TextMeans(false, h.diskGuid);
  }

  /** The low bytes of the units up to the first that is zero. */
  ghost predicate NameBytes(ws: seq<uint16>, s: seq<byte>) {
    && |s| <= |ws|
    && (forall i :: 0 <= i < |s| ==> s[i] == ws[i] % 0x100 != 0)
    && (|s| < |ws| ==> ws[|s|] % 0x100 == 0)
  }

  lemma {:induction false} NameTextMeans(ws: seq<uint16>)
    ensures NameBytes(ws, NameText(ws))
    decreases |ws|
  {
    if ws != [] && ws[0] % 0x100 != 0 {
      NameTextMeans(ws[1..]);
      var s, t := NameText(ws), NameText(ws[1..]);
      assert s == [ws[0] % 0x100] + t;
      forall i | 0 <= i < |s|
        ensures s[i] == ws[i] % 0x100 != 0
      {
        assert i > 0 ==> s[i] == t[i - 1] && ws[i] == ws[1..][i - 1];
      }
    }
  }

  /** On loading, at most 35 characters are taken as signed ones; the rest of the name is zero. */
  lemma {:induction false} NameUnitsMean(s: seq<byte>, i: nat)
    requires i < 36
    ensures NameUnits(s)[i]
         == if i >= 35 || i >= |s| then 0 else if s[i] < 0x80 then s[i] else s[i] as int - 0x100 + 0x1_0000
  {
  }

  /** Every field of an entry stands under its name; the start does so only where it does not follow. */
  ghost predicate PartTexts(part: Json, e: Entry, implied: uint64)
    requires |e.typeGuid| == 16 && |e.uniqueGuid| == 16
  {
    && part.Keys == {"lba_size", "partition_type_guid", "unique_partition_guid", "attributes", "partition_name"}
                    + (if e.start == implied then {} else {"starting_lba"})
    && ("starting_lba" in part ==> IsNumber(part["starting_lba"], e.start, 10))
    && IsNumber(part["lba_size"], (e.end - e.start + 1) % 0x1_0000_0000_0000_0000, 10)
    && Printed(part["partition_type_guid"], Arranged(false, e.typeGuid))
    && Printed(part["unique_partition_guid"], Arranged(false, e.uniqueGuid))
    && |part["attributes"]| == 18 && part["attributes"][..2] == "0x" && Shows(part["attributes"][2..], e.attributes, 16)
    && part["partition_name"] == ToText(NameText(e.name)) && NameBytes(e.name, NameText(e.name))
  }

  lemma {:induction false} PartMeans(e: Entry, implied: uint64)
    requires ValidEntry(e)
    ensures PartTexts(PartJson(e, implied), e, implied)
  {
    hide Decimal, Hex, Text, IsNumber, Printed, Arranged, Shows, NameText, NameBytes, ToText;
    DecimalMeans(e.start);
    DecimalMeans((e.end - e.start + 1) % 0x1_0000_0000_0000_0000);
    TextMeans(false, e.typeGuid);
    TextMeans(false, e.uniqueGuid);
    HexMeans(e.attributes, 8);
    NameTextMeans(e.name);
  }

  /** The start that follows: the first usable sector, or the one behind the entry before. */
  function Implied(es: seq<Entry>, k: nat, first: uint64): uint64
    requires k < |es|
  {
    if k == 0 then first else (es[k - 1].end + 1) % 0x1_0000_0000_0000_0000
  }

  /** One object for each entry before the first whose start or end is zero. */
  lemma {:induction false} PartsMean(es: seq<Entry>, first: uint64)
    requires forall k :: 0 <= k < |es| ==> ValidEntry(es[k])
    ensures var n := |Parts(es, first)|;
      && n <= |es| && (n < |es| ==> es[n].start == 0 || es[n].end == 0)
      && (forall k :: 0 <= k < n ==> es[k].start != 0 && es[k].end != 0)
      && forall k :: 0 <= k < n ==> PartTexts(Parts(es, first)[k], es[k], Implied(es, k, first))
    decreases |es|
  {
    hide PartJson, PartTexts, NextLba;
    if es != [] && !Unused(es[0]) {
      PartMeans(es[0], first);
      var rest, lba := es[1..], NextLba(es[0]);
      PartsMean(rest, lba);
      var ps, qs := Parts(es, first), Parts(rest, lba);
      assert ps == [PartJson(es[0], first)] + qs;
      forall k | 0 <= k < |ps|
        ensures PartTexts(ps[k], es[k], Implied(es, k, first))
      {
        if k > 0 {
          assert ps[k] == qs[k - 1] && es[k] == rest[k - 1];
          ImpliedNext(es, k, first);
        }
      }
    }
  }

  lemma {:induction false} ImpliedNext(es: seq<Entry>, k: nat, first: uint64)
    requires 0 < k < |es|
    ensures Implied(es, k, first) == Implied(es[1..], k - 1, NextLba(es[0]))
  {
  }
}
