/** The physical-eraseblock cache of the UBI reader (fs/ubi.c). */
module UbiCache {
  import opened Base

  const SLOTS := 8
  const EC_HDR_SIZE := 64

  /** Outcome of reading a physical eraseblock. */
  datatype Status = Ok | Failed | Incomplete | AllFF | BadEcHdr

  /**
   * The medium: an image of eraseblocks, those whose read fails with an I/O error,
   * and the check of an erase counter header (its magic and checksum).
   */
  datatype Flash = Flash(
    image: seq<byte>, pebSize: nat, vidHdrOffset: nat, faulty: set<nat>, ecHdrGood: seq<byte> -> bool)
  {
    ghost predicate Valid() {
      && EC_HDR_SIZE <= vidHdrOffset && vidHdrOffset + 64 <= pebSize
      && |image| < 0x1_0000_0000 * pebSize
    }

    predicate Complete(p: nat) {
      (p + 1) * pebSize <= |image|
    }

    function Bytes(p: nat): (b: seq<byte>)
      requires Complete(p)
      ensures |b| == pebSize
    {
      assert (p + 1) * pebSize == p * pebSize + pebSize;
      image[p * pebSize..(p + 1) * pebSize]
    }

    /** What a read of block `p` without a cache reports. */
    function Read(p: nat): (r: Status)
      requires Valid()
      ensures r.Ok? ==> Complete(p)
    {
      if p in faulty then Failed
      else if !Complete(p) then Incomplete
      else if Erased(Bytes(p)) then AllFF
      else if !ecHdrGood(Bytes(p)[..EC_HDR_SIZE]) then BadEcHdr
      else Ok
    }

    /** The logical number in the volume identifier header at offset `off`. */
    function LnumAt(p: nat, off: nat): uint32
      requires Complete(p) && off + 16 <= pebSize
    {
      Be32(Bytes(p), off + 12)
    }

    function Lnum(p: nat): uint32
      requires Valid() && Read(p).Ok?
    {
      LnumAt(p, vidHdrOffset)
    }

    /** Every readable block puts its volume identifier header at the offset taken from the detected block. */
    ghost predicate SharedVidOffset()
      requires Valid()
    {
      forall p: nat :: Read(p).Ok? ==> Be32(Bytes(p), 16) == vidHdrOffset
    }

    predicate Stops(p: nat)
      requires Valid()
    {
      Read(p).Failed? || Read(p).Incomplete?
    }

    /** The block that a scan from `p` finds for a logical number: the first match before the scan stops. */
    function Scan(lnum: uint32, p: nat): (r: Option<nat>)
      requires Valid()
      ensures r.Some? ==> r.value >= p && Read(r.value).Ok? && Lnum(r.value) == lnum
      decreases |image| + 1 - p
    {
      if Stops(p) then None
      else
        CompleteBound(p);
        if Read(p).Ok? && Lnum(p) == lnum then Some(p) else Scan(lnum, p + 1)
    }

    lemma {:induction false} CompleteBound(p: nat)
      requires Valid() && Complete(p)
      ensures p < |image| && p + 1 < 0x1_0000_0000
    {
      MulMonotone(1, pebSize, p + 1);
      if p + 1 >= 0x1_0000_0000 {
        MulMonotone(0x1_0000_0000, p + 1, pebSize);
      }
    }

    /** Block `p` can be reached by a scan that starts after the two volume table blocks. */
    ghost predicate Reachable(p: nat)
      requires Valid()
    {
      2 <= p && forall q :: 2 <= q < p ==> !Stops(q)
    }

    /** What a scan finds is complete. */
    lemma {:induction false} ScanComplete(lnum: uint32, from: nat)
      requires Valid()
      ensures Scan(lnum, from).Some? ==> Complete(Scan(lnum, from).value)
    {
      hide LnumAt, Scan;
    }

    /** One step of a scan. */
    lemma {:induction false} ScanStep(lnum: uint32, p: nat)
      requires Valid()
      ensures Stops(p) ==> Scan(lnum, p) == None
      ensures !Stops(p) ==> Complete(p)
      ensures !Stops(p) ==> Scan(lnum, p) == if Read(p).Ok? && Lnum(p) == lnum then Some(p) else Scan(lnum, p + 1)
      ensures !Stops(p) && Reachable(p) ==> Reachable(p + 1)
    {
      hide LnumAt;
    }

    lemma {:induction false} ReachableFrom(p: nat)
      requires Valid() && Reachable(p)
      ensures 2 <= p
    {
    }

    lemma {:induction false} ReachableFirst()
      requires Valid()
      ensures Reachable(2)
    {
    }

    /** A scan that starts at a block it can reach only finds such blocks. */
    lemma {:induction false} ScanReaches(lnum: uint32, from: nat)
      requires Valid() && Reachable(from)
      ensures Scan(lnum, from).Some? ==> Reachable(Scan(lnum, from).value)
      decreases |image| + 1 - from
    {
      if !Stops(from) {
        CompleteBound(from);
        ScanReaches(lnum, from + 1);
      }
    }

    ghost predicate UniqueLnum(lnum: uint32)
      requires Valid()
    {
      forall p, q :: 2 <= p < q && Read(p).Ok? && Read(q).Ok? && Lnum(p) == lnum ==> Lnum(q) != lnum
    }

    // The blocks as bytes of the image.

    /** The number stored in the four bytes at an offset of the image, most significant first. */
    ghost predicate NumberAt(at: nat, x: int) {
      && at + 4 <= |image|
      && x == image[at] as int * 0x100_0000 + image[at + 1] as int * 0x1_0000 + image[at + 2] as int * 0x100
              + image[at + 3] as int
    }

    /** Block `p` is whole and readable, not erased, has a good header, and is mapped to a logical number. */
    ghost predicate Carries(p: nat, lnum: uint32)
      requires Valid()
    {
      CarriesAt(p, p * pebSize, lnum)
    }

    ghost predicate CarriesAt(p: nat, at: nat, lnum: uint32)
      requires Valid()
    {
      && p !in faulty && at + pebSize <= |image|
      && !AllFFAt(at) && ecHdrGood(image[at..at + 64])
      && NumberAt(at + vidHdrOffset + 12, lnum)
    }

    ghost predicate AllFFAt(at: nat)
      requires at + pebSize <= |image|
    {
      forall k :: at <= k < at + pebSize ==> image[k] == 0xFF
    }

    lemma {:induction false} BytesAreImage(p: nat, at: nat)
      requires Valid() && at == p * pebSize
      ensures Complete(p) <==> at + pebSize <= |image|
      ensures Complete(p) ==> Bytes(p) == image[at..at + pebSize]
    {
      Distribute(p, 1, pebSize);
    }

    lemma {:induction false} ErasedAt(at: nat)
      requires at + pebSize <= |image|
      ensures Erased(image[at..at + pebSize]) <==> AllFFAt(at)
    {
      var b := image[at..at + pebSize];
      assert forall k :: at <= k < at + pebSize ==> image[k] == b[k - at];
    }

    lemma {:induction false} NumberInBlock(at: nat, off: nat, x: int)
      requires at + pebSize <= |image| && off + 4 <= pebSize
      ensures NumberAt(at + off, x) <==> Be32(image[at..at + pebSize], off) == x
    {
    }

    /** The outcome of reading a block, from its bytes. */
    lemma {:induction false} ReadMeans(p: nat, lnum: uint32)
      requires Valid()
      ensures Read(p).Failed? <==> p in faulty
      ensures Read(p).Incomplete? <==> p !in faulty && p * pebSize + pebSize > |image|
      ensures Read(p).AllFF? <==> p !in faulty && p * pebSize + pebSize <= |image| && AllFFAt(p * pebSize)
      ensures Carries(p, lnum) <==> Read(p).Ok? && Lnum(p) == lnum
    {
      hide Complete, Bytes, AllFFAt, NumberAt, Be32;
      var at := p * pebSize;
      BytesAreImage(p, at);
      if at + pebSize <= |image| {
        ErasedAt(at);
        NumberInBlock(at, vidHdrOffset + 12, lnum);
        assert at + (vidHdrOffset + 12) == at + vidHdrOffset + 12;
        assert image[at..at + pebSize][..64] == image[at..at + 64];
      }
    }

    /** From a block on, `p` is the first that is mapped to the number, and all before it can be read. */
    ghost predicate FirstMapped(lnum: uint32, from: nat, p: nat)
      requires Valid()
    {
      && from <= p && Carries(p, lnum)
      && forall q :: from <= q < p ==> q !in faulty && q * pebSize + pebSize <= |image| && !Carries(q, lnum)
    }

    /** A scan finds the first block that is mapped to the number, if all before it can be read. */
    lemma {:induction false} ScanMeans(lnum: uint32, from: nat, p: nat)
      requires Valid()
      ensures Scan(lnum, from) == Some(p) <==> FirstMapped(lnum, from, p)
      decreases |image| + 1 - from
    {
      hide Read, Carries, LnumAt;
      ReadMeans(from, lnum);
      if !Stops(from) {
        CompleteBound(from);
        ScanMeans(lnum, from + 1, p);
      }
    }

    /** The volume identifier header's offset is stored at byte 16 of a block. */
    lemma {:induction false} SharedMeans(p: nat, lnum: uint32)
      requires Valid() && SharedVidOffset() && Carries(p, lnum)
      ensures NumberAt(p * pebSize + 16, vidHdrOffset)
    {
      hide Read, Bytes, Complete, NumberAt, Be32, Carries;
      var at := p * pebSize;
      ReadMeans(p, lnum);
      BytesAreImage(p, at);
      NumberInBlock(at, 16, vidHdrOffset);
    }

    lemma {:induction false} ScanFinds(lnum: uint32, p: nat, from: nat)
      requires Valid() && 2 <= from <= p && Reachable(p) && Read(p).Ok? && Lnum(p) == lnum && UniqueLnum(lnum)
      ensures Scan(lnum, from) == Some(p)
      decreases p - from
    {
      if from < p {
        ScanFinds(lnum, p, from + 1);
      }
    }
  }

  predicate Erased(b: seq<byte>) {
    forall i :: 0 <= i < |b| ==> b[i] == 0xFF
  }

  lemma {:induction false} Be32Prefix(b: seq<byte>, n: nat, off: nat)
    requires off + 4 <= n <= |b|
    ensures Be32(b[..n], off) == Be32(b, off)
  {
  }

  datatype Slot = Slot(hit: int, lnum: uint32, pnum: uint32, peb: seq<byte>)

  /** A request to the reader, and the answer to it. */
  datatype Request = Peb(pnum: uint32) | Leb(lnum: uint32)
  datatype Answer = PebAnswer(status: Status, bytes: seq<byte>) | LebAnswer(pnum: Option<nat>, bytes: seq<byte>)

  /** The answer a reader without a cache gives: one block read, or a scan from block 2. */
  function Uncached(flash: Flash, r: Request): Answer
    requires flash.Valid()
  {
    match r
    case Peb(p) => PebAnswer(flash.Read(p), if flash.Read(p).Ok? then flash.Bytes(p) else [])
    case Leb(l) =>
      var p := flash.Scan(l, 2);
      LebAnswer(p, if p.Some? then flash.Bytes(p.value) else [])
  }

  /** What the slots hold while they are live: the bytes and the logical number of the block they name. */
  ghost predicate Faithful(flash: Flash, slot: Slot)
    requires flash.Valid()
  {
    && slot.hit >= 0 && |slot.peb| == flash.pebSize
    && (slot.hit > 0 ==>
          && flash.Read(slot.pnum).Ok?
          && slot.peb == flash.Bytes(slot.pnum)
          && slot.lnum == flash.Lnum(slot.pnum))
  }

  /** Every live slot is faithful, and no two live slots name the same block. */
  ghost predicate Sound(flash: Flash, s: seq<Slot>) {
    && flash.Valid() && |s| == SLOTS
    && (forall i :: 0 <= i < SLOTS ==> Faithful(flash, s[i]))
    && (forall i, j :: 0 <= i < j < SLOTS && s[i].hit > 0 && s[j].hit > 0 ==> s[i].pnum != s[j].pnum)
  }

  /** The blocks that live slots name. */
  ghost function LiveBlocks(s: seq<Slot>): set<nat> {
    set i | 0 <= i < |s| && s[i].hit > 0 :: s[i].pnum
  }

  /** Replacing a slot by one that names a block no other live slot names. */
  lemma {:induction false} ReplaceSlot(flash: Flash, s: seq<Slot>, t: seq<Slot>, i: nat, slot: Slot)
    requires Sound(flash, s) && i < SLOTS && t == s[i := slot] && Faithful(flash, slot)
    requires slot.hit > 0 ==> forall j :: 0 <= j < SLOTS && j != i && s[j].hit > 0 ==> s[j].pnum != slot.pnum
    ensures Sound(flash, t)
    ensures LiveBlocks(t) <= LiveBlocks(s) + (if slot.hit > 0 then {slot.pnum} else {})
    ensures slot.hit > 0 ==> slot.pnum in LiveBlocks(t)
  {
    assert forall j :: 0 <= j < SLOTS && j != i ==> t[j] == s[j];
    assert t[i] == slot;
  }

  lemma {:induction false} SoundFlash(flash: Flash, s: seq<Slot>)
    requires Sound(flash, s)
    ensures flash.Valid() && |s| == SLOTS
  {
  }

  /** What a live slot answers, and when the scan agrees. */
  lemma {:induction false} SlotAnswers(flash: Flash, s: seq<Slot>, i: nat)
    requires Sound(flash, s) && i < SLOTS && s[i].hit > 0
    ensures flash.Read(s[i].pnum).Ok? && flash.Lnum(s[i].pnum) == s[i].lnum && s[i].peb == flash.Bytes(s[i].pnum)
    ensures s[i].pnum in LiveBlocks(s)
    ensures flash.UniqueLnum(s[i].lnum) ==>
      (flash.Scan(s[i].lnum, 2) == Some(s[i].pnum) <==> flash.Reachable(s[i].pnum))
  {
    hide Flash.Scan, Flash.Reachable, Flash.Read, Flash.LnumAt, Flash.UniqueLnum;
    assert Faithful(flash, s[i]);
    flash.ReachableFirst();
    flash.ScanReaches(s[i].lnum, 2);
    if flash.UniqueLnum(s[i].lnum) && flash.Reachable(s[i].pnum) {
      flash.ReachableFrom(s[i].pnum);
      flash.ScanFinds(s[i].lnum, s[i].pnum, 2);
    }
  }

  lemma {:induction false} NoSlotAnswers(flash: Flash, s: seq<Slot>, lnum: uint32)
    requires Sound(flash, s) && forall i :: 0 <= i < |s| && s[i].hit > 0 ==> s[i].lnum != lnum
    ensures forall p :: p in LiveBlocks(s) ==> flash.Read(p).Ok? && flash.Lnum(p) != lnum
  {
    hide Flash.Read, Flash.LnumAt;
  }

  method FindByLnum(s: seq<Slot>, lnum: uint32) returns (r: Option<nat>)
    ensures r.Some? ==> r.value < |s| && s[r.value].hit > 0 && s[r.value].lnum == lnum
    ensures r.Some? ==> forall i :: 0 <= i < r.value && s[i].hit > 0 ==> s[i].lnum != lnum
    ensures r.None? ==> forall i :: 0 <= i < |s| && s[i].hit > 0 ==> s[i].lnum != lnum
  {
    for i := 0 to |s|
      invariant forall j :: 0 <= j < i && s[j].hit > 0 ==> s[j].lnum != lnum
    {
      if s[i].hit > 0 && s[i].lnum == lnum {
        return Some(i);
      }
    }
    return None;
  }

  method FindByPnum(s: seq<Slot>, pnum: uint32) returns (r: Option<nat>)
    ensures r.Some? ==> r.value < |s| && s[r.value].hit > 0 && s[r.value].pnum == pnum
    ensures r.None? ==> forall i :: 0 <= i < |s| && s[i].hit > 0 ==> s[i].pnum != pnum
  {
    for i := 0 to |s|
      invariant forall j :: 0 <= j < i && s[j].hit > 0 ==> s[j].pnum != pnum
    {
      if s[i].hit > 0 && s[i].pnum == pnum {
        return Some(i);
      }
    }
    return None;
  }

  /** The victim is the first slot with the least hit count, so a dead slot is taken before a live one. */
  method FindMinHit(s: seq<Slot>) returns (r: nat)
    requires |s| > 0
    ensures r < |s|
    ensures forall i :: 0 <= i < |s| ==> s[r].hit <= s[i].hit
    ensures forall i :: 0 <= i < r ==> s[r].hit < s[i].hit
  {
    r := 0;
    for i := 1 to |s|
      invariant r < i
      invariant forall j :: 0 <= j < i ==> s[r].hit <= s[j].hit
      invariant forall j :: 0 <= j < r ==> s[r].hit < s[j].hit
    {
      if s[i].hit < s[r].hit {
        r := i;
      }
    }
  }

  method PebIsEmpty(buf: seq<byte>) returns (r: bool)
    ensures r <==> Erased(buf)
  {
    for i := 0 to |buf|
      invariant forall j :: 0 <= j < i ==> buf[j] == 0xFF
    {
      if buf[i] != 0xFF {
        return false;
      }
    }
    return true;
  }

  class PebCache {
    const flash: Flash
    const slots: array<Slot>

    ghost predicate Valid()
      reads slots
    {
      Sound(flash, slots[..])
    }

    ghost function Cached(): set<nat>
      reads slots
    {
      LiveBlocks(slots[..])
    }

    /** Only blocks that a scan can reach are cached. */
    ghost predicate Scanned()
      requires Valid()
      reads slots
    {
      forall p :: p in Cached() ==> flash.Reachable(p)
    }

    constructor (flash: Flash)
      requires flash.Valid()
      ensures Valid() && Cached() == {} && fresh(slots) && this.flash == flash
    {
      this.flash := flash;
      slots := new Slot[SLOTS](_ => Slot(0, 0, 0, Zeros(flash.pebSize)));
    }

    /**
     * Fills a slot with block `peb`. On a failed read the buffer holds garbage;
     * on every error the slot is left dead.
     */
    method Fill(slot: Slot, peb: uint32) returns (status: Status, r: Slot)
      requires flash.Valid() && |slot.peb| == flash.pebSize
      ensures status == flash.Read(peb) && |r.peb| == flash.pebSize
      ensures r.hit == if status.Ok? then 1 else 0
      ensures status.Ok? ==> r.pnum == peb && r.peb == flash.Bytes(peb) && r.lnum == flash.Lnum(peb)
    {
      r := slot.(hit := 0);
      if peb in flash.faulty || !flash.Complete(peb) {
        assert |Zeros(flash.pebSize)| == flash.pebSize;
        var garbage: seq<byte> :| |garbage| == flash.pebSize;
        r := r.(peb := garbage);
        return if peb in flash.faulty then Failed else Incomplete, r;
      }
      r := r.(peb := flash.Bytes(peb));
      var empty := PebIsEmpty(r.peb);
      if empty {
        return AllFF, r;
      }
      if !flash.ecHdrGood(r.peb[..EC_HDR_SIZE]) {
        return BadEcHdr, r;
      }
      return Ok, r.(pnum := peb, lnum := Be32(r.peb, flash.vidHdrOffset + 12), hit := r.hit + 1);
    }

    /** Reads block `peb` into the first `bufsz` bytes of a buffer, exactly as a read without a cache would. */
    method ReadPeb(peb: uint32, bufsz: nat) returns (status: Status, buf: seq<byte>)
      requires Valid() && bufsz <= flash.pebSize
      modifies slots
      ensures Valid() && Cached() <= old(Cached()) + {peb}
      ensures status == flash.Read(peb)
      ensures status.Ok? ==> buf == flash.Bytes(peb)[..bufsz] && peb in Cached()
      ensures !status.Ok? ==> Cached() <= old(Cached())
    {
      buf := [];
      ghost var before := slots[..];
      var found := FindByPnum(slots[..], peb);
      var i, slot;
      if found.None? {
        i := FindMinHit(slots[..]);
        status, slot := Fill(slots[i], peb);
      } else {
        i := found.value;
        status, slot := Ok, slots[i].(hit := slots[i].hit + 1);
      }
      slots[i] := slot;
      ReplaceSlot(flash, before, slots[..], i, slot);
      if status.Ok? {
        buf := slot.peb[..bufsz];
      }
    }

    /**
     * One step of the scan: reads the header of block `peb`, then, if it is good, the whole block,
     * and compares its logical number.
     */
    method Probe(peb: uint32, lnum: uint32, bufsz: nat) returns (status: Status, matched: bool, buf: seq<byte>)
      requires Valid() && flash.SharedVidOffset()
      requires flash.vidHdrOffset + 16 <= bufsz <= flash.pebSize
      modifies slots
      ensures Valid() && Cached() <= old(Cached()) + {peb}
      ensures status == flash.Read(peb)
      ensures matched <==> status.Ok? && flash.Lnum(peb) == lnum
      ensures matched ==> buf == flash.Bytes(peb)[..bufsz]
    {
      hide Sound, LiveBlocks, Be32, Flash.Read, Flash.Complete, Flash.Bytes;
      SoundFlash(flash, slots[..]);
      matched := false;
      status, buf := ReadPeb(peb, EC_HDR_SIZE);
      if status.Ok? {
        status, buf := ReadPeb(peb, bufsz);
        Be32Prefix(flash.Bytes(peb), bufsz, 16);
        Be32Prefix(flash.Bytes(peb), bufsz, flash.vidHdrOffset + 12);
        var vidHdr: nat := Be32(buf, 16);
        matched := Be32(buf, vidHdr + 12) == lnum;
      }
    }

    /**
     * Finds the block of a logical number: in the cache, else by reading blocks from 2 up.
     * A cached answer is the one the scan would give when only scanned blocks are cached and the number is unique.
     */
    method ReadLeb(lnum: uint32, bufsz: nat) returns (r: Option<nat>, buf: seq<byte>)
      requires Valid() && flash.SharedVidOffset()
      requires flash.vidHdrOffset + 16 <= bufsz <= flash.pebSize
      modifies slots
      ensures Valid()
      ensures r.Some? ==>
        flash.Read(r.value).Ok? && flash.Lnum(r.value) == lnum && buf == flash.Bytes(r.value)[..bufsz]
      ensures r == flash.Scan(lnum, 2) || (r.Some? && r.value in old(Cached()))
      ensures (exists p :: p in old(Cached()) && flash.Lnum(p) == lnum) ==> r.Some? && r.value in old(Cached())
      ensures old(Scanned()) ==> Scanned()
      ensures old(Scanned()) && flash.UniqueLnum(lnum) ==> r == flash.Scan(lnum, 2)
      ensures flash.UniqueLnum(lnum) ==> (r == flash.Scan(lnum, 2) <==> (r.Some? ==> flash.Reachable(r.value)))
    {
      hide Sound, LiveBlocks, Flash.Scan, Flash.Reachable, Flash.Read, Flash.UniqueLnum;
      SoundFlash(flash, slots[..]);
      var found := FindByLnum(slots[..], lnum);
      if found.Some? {
        var slot := slots[found.value];
        SlotAnswers(flash, slots[..], found.value);
        return Some(slot.pnum), slot.peb[..bufsz];
      }
      NoSlotAnswers(flash, slots[..], lnum);
      flash.ReachableFirst();
      flash.ScanReaches(lnum, 2);
      r, buf := ScanFlash(lnum, bufsz);
    }

    /** The scan of the flash, block by block from 2 up. */
    method ScanFlash(lnum: uint32, bufsz: nat) returns (r: Option<nat>, buf: seq<byte>)
      requires Valid() && flash.SharedVidOffset()
      requires flash.vidHdrOffset + 16 <= bufsz <= flash.pebSize
      modifies slots
      ensures Valid() && r == flash.Scan(lnum, 2)
      ensures r.Some? ==> buf == flash.Bytes(r.value)[..bufsz]
      ensures forall p :: p in Cached() ==> p in old(Cached()) || flash.Reachable(p)
    {
      hide Sound, LiveBlocks, Flash.Scan, Flash.Reachable, Flash.Read, Flash.SharedVidOffset, Flash.LnumAt;
      buf := [];
      var peb: nat := 2;
      SoundFlash(flash, slots[..]);
      flash.ReachableFirst();
      while true
        invariant Valid() && flash.Reachable(peb)
        invariant flash.Scan(lnum, 2) == flash.Scan(lnum, peb)
        invariant forall p :: p in Cached() ==> p in old(Cached()) || flash.Reachable(p)
        invariant peb < 0x1_0000_0000
        decreases |flash.image| + 1 - peb
      {
        var status, matched;
        status, matched, buf := Probe(peb, lnum, bufsz);
        flash.ScanStep(lnum, peb);
        if status.Failed? || status.Incomplete? {
          return None, buf;
        }
        flash.CompleteBound(peb);
        if matched {
          return Some(peb), buf;
        }
        peb := peb + 1;
      }
    }

    method Serve(request: Request) returns (answer: Answer)
      requires Valid() && Scanned() && flash.SharedVidOffset()
      requires Harmless(flash, request)
      modifies slots
      ensures Valid() && Scanned()
      ensures answer == Uncached(flash, request)
    {
      match request {
        case Peb(pnum) =>
          var status, bytes := ReadPeb(pnum, flash.pebSize);
          answer := PebAnswer(status, if status.Ok? then bytes else []);
        case Leb(lnum) =>
          var pnum, bytes := ReadLeb(lnum, flash.pebSize);
          answer := LebAnswer(pnum, if pnum.Some? then bytes else []);
      }
    }

    /** A whole run of requests is answered as if there were no cache. */
    method Run(requests: seq<Request>) returns (answers: seq<Answer>)
      requires Valid() && Scanned() && flash.SharedVidOffset()
      requires forall r :: r in requests ==> Harmless(flash, r)
      modifies slots
      ensures Valid() && Scanned()
      ensures |answers| == |requests|
      ensures forall i :: 0 <= i < |requests| ==> answers[i] == Uncached(flash, requests[i])
    {
      answers := [];
      for i := 0 to |requests|
        invariant Valid() && Scanned()
        invariant |answers| == i && forall j :: 0 <= j < i ==> answers[j] == Uncached(flash, requests[j])
      {
        assert requests[i] in requests;
        var answer := Serve(requests[i]);
        answers := answers + [answer];
      }
    }

    /**
     * A block that was read directly answers for its logical number from then on. This is what a reader
     * without a cache answers exactly when a scan can reach the block: one of the two volume table
     * blocks, or a good block behind an unreadable one, hides the block that the scan finds.
     */
    static method ReadThenLookUp(flash: Flash, pnum: uint32) returns (r: Option<nat>)
      requires flash.Valid() && flash.SharedVidOffset()
      requires flash.Read(pnum).Ok? && flash.UniqueLnum(flash.Lnum(pnum))
      ensures r == Some(pnum)
      ensures r == flash.Scan(flash.Lnum(pnum), 2) <==> flash.Reachable(pnum)
    {
      var cache := new PebCache(flash);
      var status, bytes := cache.ReadPeb(pnum, flash.pebSize);
      assert cache.Cached() == {pnum};
      r, bytes := cache.ReadLeb(flash.Lnum(pnum), flash.pebSize);
    }
  }

  /**
   * A request after which the cache holds only blocks that a scan can reach: a block that does not
   * read well may be asked for anywhere, because it is never kept.
   */
  ghost predicate Harmless(flash: Flash, r: Request)
    requires flash.Valid()
  {
    match r
    case Peb(pnum) => flash.Read(pnum).Ok? ==> flash.Reachable(pnum)
    case Leb(lnum) => flash.UniqueLnum(lnum)
  }
}
