/** The recursive listing of directories, and when it ends (fs/ubi.c). */
module UbiList {
  import opened Base
  import opened UbiIndex
  import opened UbiFiles

  datatype Line = Line(indent: nat, inum: uint32, kind: byte, name: string)

  /** What a part of a listing comes to: its result and its lines. */
  datatype Report = Report(ok: bool, lines: seq<Line>)

  /** One part after the other; a failure ends the listing. */
  function AndThen(first: Option<Report>, second: Option<Report>): Option<Report> {
    if first.None? || !first.value.ok then first
    else if second.None? then None
    else Some(Report(second.value.ok, first.value.lines + second.value.lines))
  }

  predicate IsDir(v: Volume, e: Entry) {
    v.read(e).Some? && v.read(e).value.DentNode? && v.read(e).value.kind == ITYPE_DIR
  }

  function Inum(v: Volume, e: Entry): uint32 {
    if v.read(e).Some? && v.read(e).value.DentNode? then (v.read(e).value.inum % 0x1_0000_0000) as uint32 else 0
  }

  /**
   * The listing of a directory from a hash on: each entry found, and then the rest from the hash after it.
   * Nothing stands for a listing that goes on for more than `fuel` turns within or after one another.
   */
  function ListWithin(v: Volume, ino: uint32, hash: uint32, indent: nat, fuel: nat): Option<Report>
    decreases fuel, 0
  {
    if fuel == 0 then None
    else
      var leaf := FirstFrom(Dents(v, ino), hash);
      if leaf.None? then Some(Report(true, []))
      else
        AndThen(EntryWithin(v, leaf.value, indent, fuel - 1),
                ListWithin(v, ino, NextHash(leaf.value), indent, fuel - 1))
  }

  /** The turn of one entry: its line, followed by the lines of its subdirectory. */
  function EntryWithin(v: Volume, e: Entry, indent: nat, fuel: nat): Option<Report>
    decreases fuel, 1
  {
    var node := v.read(e);
    if node.None? || !node.value.DentNode? || node.value.kind >= ITYPES_CNT then Some(Report(false, []))
    else
      var line := Line(indent, Inum(v, e), node.value.kind, node.value.name);
      if node.value.kind == ITYPE_DIR then
        AndThen(Some(Report(true, [line])), ListWithin(v, Inum(v, e), 0, indent + 1, fuel))
      else if node.value.kind == ITYPE_REG || node.value.kind == ITYPE_LNK then
        Some(Report(InodeOf(v, Inum(v, e)).Some?, [line]))
      else Some(Report(true, [line]))
  }

  /** What is listed does not depend on the fuel, once there is enough. */
  lemma {:induction false} MoreToList(v: Volume, ino: uint32, hash: uint32, indent: nat, fuel: nat, more: nat)
    requires ListWithin(v, ino, hash, indent, fuel).Some? && fuel <= more
    ensures ListWithin(v, ino, hash, indent, more) == ListWithin(v, ino, hash, indent, fuel)
    decreases fuel, 0
  {
    hide Dents, FirstFrom, NextHash, EntryWithin;
    var leaf := FirstFrom(Dents(v, ino), hash);
    if leaf.Some? {
      var one := EntryWithin(v, leaf.value, indent, fuel - 1);
      MoreToEntry(v, leaf.value, indent, fuel - 1, more - 1);
      if one.value.ok {
        MoreToList(v, ino, NextHash(leaf.value), indent, fuel - 1, more - 1);
      }
    }
  }

  lemma {:induction false} MoreToEntry(v: Volume, e: Entry, indent: nat, fuel: nat, more: nat)
    requires EntryWithin(v, e, indent, fuel).Some? && fuel <= more
    ensures EntryWithin(v, e, indent, more) == EntryWithin(v, e, indent, fuel)
    decreases fuel, 1
  {
    hide ListWithin, InodeOf;
    if IsDir(v, e) {
      MoreToList(v, Inum(v, e), 0, indent + 1, fuel, more);
    }
  }

  /** The indentation shows in the lines only. */
  ghost predicate SameResult(a: Option<Report>, b: Option<Report>) {
    a.Some? == b.Some? && (a.Some? ==> a.value.ok == b.value.ok)
  }

  lemma {:induction false} ListAtIndent(v: Volume, ino: uint32, hash: uint32, indent: nat, other: nat, fuel: nat)
    ensures SameResult(ListWithin(v, ino, hash, indent, fuel), ListWithin(v, ino, hash, other, fuel))
    decreases fuel, 0
  {
    hide Dents, FirstFrom, NextHash, EntryWithin;
    var leaf := FirstFrom(Dents(v, ino), hash);
    if fuel > 0 && leaf.Some? {
      EntryAtIndent(v, leaf.value, indent, other, fuel - 1);
      ListAtIndent(v, ino, NextHash(leaf.value), indent, other, fuel - 1);
    }
  }

  lemma {:induction false} EntryAtIndent(v: Volume, e: Entry, indent: nat, other: nat, fuel: nat)
    ensures SameResult(EntryWithin(v, e, indent, fuel), EntryWithin(v, e, other, fuel))
    decreases fuel, 1
  {
    hide ListWithin, InodeOf;
    if IsDir(v, e) {
      ListAtIndent(v, Inum(v, e), 0, indent + 1, other + 1, fuel);
    }
  }

  /** The listing of a directory ends. */
  ghost predicate Ends(v: Volume, ino: uint32) {
    exists fuel: nat :: ListWithin(v, ino, 0, 0, fuel).Some?
  }

  /** The turn of an entry ends, with this result. */
  ghost predicate Turn(v: Volume, e: Entry, ok: bool) {
    exists fuel: nat :: EntryWithin(v, e, 0, fuel).Some? && EntryWithin(v, e, 0, fuel).value.ok == ok
  }

  ghost function Succeeds(v: Volume): Entry -> bool {
    (e: Entry) => Turn(v, e, true)
  }

  lemma {:induction false} TurnKnown(v: Volume, e: Entry, fuel: nat)
    requires EntryWithin(v, e, 0, fuel).Some?
    ensures Turn(v, e, true) <==> EntryWithin(v, e, 0, fuel).value.ok
    ensures Turn(v, e, false) <==> !EntryWithin(v, e, 0, fuel).value.ok
  {
    hide EntryWithin;
    forall other: nat | EntryWithin(v, e, 0, other).Some?
      ensures EntryWithin(v, e, 0, other) == EntryWithin(v, e, 0, fuel)
    {
      if other <= fuel {
        MoreToEntry(v, e, 0, other, fuel);
      } else {
        MoreToEntry(v, e, 0, fuel, other);
      }
    }
  }

  /** The turn of a subdirectory ends when its listing does; that of anything else always ends. */
  lemma {:induction false} TurnEnds(v: Volume, e: Entry)
    ensures Turn(v, e, true) || Turn(v, e, false) <==> (IsDir(v, e) ==> Ends(v, Inum(v, e)))
  {
    hide ListWithin, InodeOf;
    if IsDir(v, e) {
      forall fuel: nat
        ensures EntryWithin(v, e, 0, fuel).Some? <==> ListWithin(v, Inum(v, e), 0, 0, fuel).Some?
      {
        ListAtIndent(v, Inum(v, e), 0, 1, 0, fuel);
      }
    } else {
      assert EntryWithin(v, e, 0, 0).Some?;
    }
  }

  // One directory.

  /** The loop meets a failing turn after `n` that succeed, or passes all of them and none has the greatest hash. */
  ghost predicate EndsAfter(v: Volume, sweep: seq<Entry>, n: nat) {
    && n <= |sweep|
    && (forall i :: 0 <= i < n ==> Turn(v, sweep[i], true))
    && if n < |sweep| then Turn(v, sweep[n], false)
       else sweep == [] || Hash(sweep[|sweep| - 1]) < HASH_MASK
  }

  /** The listing of a directory ends exactly when its turns do up to the first that fails, and it is not stuck. */
  lemma {:induction false} DirectoryEnds(v: Volume, ino: uint32)
    requires WellFormed(v.root)
    ensures Ends(v, ino) <==> exists n :: EndsAfter(v, Sweep(Dents(v, ino), 0), n)
  {
    hide ListWithin, Dents, Sweep, EndsAfter;
    DentsOrdered(v, ino);
    if Ends(v, ino) {
      var fuel: nat :| ListWithin(v, ino, 0, 0, fuel).Some?;
      var n := EndsSomewhere(v, ino, 0, fuel);
    }
    if exists n :: EndsAfter(v, Sweep(Dents(v, ino), 0), n) {
      var n :| EndsAfter(v, Sweep(Dents(v, ino), 0), n);
      EndsForSure(v, ino, n);
    }
  }

  lemma {:induction false} EndsForSure(v: Volume, ino: uint32, n: nat)
    requires WellFormed(v.root) && EndsAfter(v, Sweep(Dents(v, ino), 0), n)
    ensures Ends(v, ino)
  {
    hide ListWithin, Dents, Sweep, EndsAfter;
    DentsOrdered(v, ino);
    var fuel := EndsThere(v, ino, 0, n);
  }

  lemma {:induction false} DentsOrdered(v: Volume, ino: uint32)
    requires WellFormed(v.root)
    ensures HashOrdered(Dents(v, ino))
  {
    InodeLeavesOrdered(Leaves(v.root), DENT_KEY, ino);
  }

  /** After the greatest hash the same entry is found for ever, if its turn succeeds. */
  lemma {:induction false} StuckListing(v: Volume, ino: uint32, e: Entry, indent: nat, known: nat, fuel: nat)
    requires FirstFrom(Dents(v, ino), HASH_MASK) == Some(e) && NextHash(e) == HASH_MASK
    requires EntryWithin(v, e, indent, known).Some? && EntryWithin(v, e, indent, known).value.ok
    ensures ListWithin(v, ino, HASH_MASK, indent, fuel).None?
    decreases fuel
  {
    hide Dents, FirstFrom, NextHash, EntryWithin;
    if fuel > 0 {
      StuckListing(v, ino, e, indent, known, fuel - 1);
      if EntryWithin(v, e, indent, fuel - 1).Some? {
        if known <= fuel - 1 {
          MoreToEntry(v, e, indent, known, fuel - 1);
        } else {
          MoreToEntry(v, e, indent, fuel - 1, known);
        }
      }
    }
  }

  /** A listing that ends goes on behind an entry only below the greatest hash. */
  lemma {:induction false} NotStuck(v: Volume, ino: uint32, hash: uint32, indent: nat, fuel: nat, e: Entry)
    requires HashOrdered(Dents(v, ino)) && hash <= HASH_MASK && fuel > 0
    requires FirstFrom(Dents(v, ino), hash) == Some(e) && ListWithin(v, ino, hash, indent, fuel).Some?
    requires EntryWithin(v, e, indent, fuel - 1).Some? && EntryWithin(v, e, indent, fuel - 1).value.ok
    ensures Hash(e) < HASH_MASK && NextHash(e) == Hash(e) + 1
    ensures Sweep(Dents(v, ino), hash) == [e] + Sweep(Dents(v, ino), NextHash(e))
    ensures ListWithin(v, ino, NextHash(e), indent, fuel - 1).Some?
  {
    hide Dents, FirstFrom, EntryWithin, Sweep, HashOrdered, NextHash, Hash;
    NextHashValue(e);
    HashBound(e);
    SweepStep(Dents(v, ino), hash);
    if Hash(e) == HASH_MASK {
      StuckAtGreatest(Dents(v, ino), hash, e);
      StuckListing(v, ino, e, indent, fuel - 1, fuel - 1);
    }
  }

  lemma {:induction false} EndsSomewhere(v: Volume, ino: uint32, hash: uint32, fuel: nat) returns (n: nat)
    requires HashOrdered(Dents(v, ino)) && hash <= HASH_MASK && ListWithin(v, ino, hash, 0, fuel).Some?
    ensures EndsAfter(v, Sweep(Dents(v, ino), hash), n)
    decreases fuel
  {
    hide Dents, FirstFrom, EntryWithin, Sweep, HashOrdered, NextHash, Hash, Turn, EndsAfter;
    n := 0;
    SweepStep(Dents(v, ino), hash);
    var leaf := FirstFrom(Dents(v, ino), hash);
    if leaf.None? {
      EndsEmpty(v);
    } else {
      var e := leaf.value;
      TurnKnown(v, e, fuel - 1);
      if EntryWithin(v, e, 0, fuel - 1).value.ok {
        NotStuck(v, ino, hash, 0, fuel, e);
        var rest := EndsSomewhere(v, ino, NextHash(e), fuel - 1);
        EndsBehind(v, e, Sweep(Dents(v, ino), NextHash(e)), rest);
        n := rest + 1;
      } else {
        EndsAtOnce(v, e, Sweep(Dents(v, ino), Hash(e) + 1));
      }
    }
  }

  lemma {:induction false} EndsEmpty(v: Volume)
    ensures EndsAfter(v, [], 0)
  {
  }

  lemma {:induction false} EndsAtOnce(v: Volume, e: Entry, rest: seq<Entry>)
    requires Turn(v, e, false)
    ensures EndsAfter(v, [e] + rest, 0)
  {
    hide Turn;
  }

  lemma {:induction false} EndsBehind(v: Volume, e: Entry, rest: seq<Entry>, n: nat)
    requires Turn(v, e, true) && Hash(e) < HASH_MASK
    ensures EndsAfter(v, rest, n) <==> EndsAfter(v, [e] + rest, n + 1)
  {
    hide Turn, Hash;
    var all := [e] + rest;
    assert forall i :: 0 <= i < |rest| ==> all[i + 1] == rest[i];
    assert forall i :: 0 < i < |all| ==> all[i] == rest[i - 1];
  }

  lemma {:induction false} EndsThere(v: Volume, ino: uint32, hash: uint32, n: nat) returns (fuel: nat)
    requires HashOrdered(Dents(v, ino)) && hash <= HASH_MASK && EndsAfter(v, Sweep(Dents(v, ino), hash), n)
    ensures ListWithin(v, ino, hash, 0, fuel).Some?
    decreases n
  {
    hide Dents, FirstFrom, EntryWithin, Sweep, HashOrdered, NextHash, Hash, Turn, EndsAfter;
    fuel := 1;
    var sweep := Sweep(Dents(v, ino), hash);
    SweepStep(Dents(v, ino), hash);
    var leaf := FirstFrom(Dents(v, ino), hash);
    if leaf.Some? {
      var e := leaf.value;
      var known := FirstTurn(v, sweep, n);
      if n == 0 {
        fuel := known + 1;
      } else {
        var rest := Sweep(Dents(v, ino), Hash(e) + 1);
        BelowGreatest(Dents(v, ino), hash, v, n);
        NextHashValue(e);
        EndsBehind(v, e, rest, n - 1);
        var later := EndsThere(v, ino, NextHash(e), n - 1);
        var most := if known <= later then later else known;
        MoreToEntry(v, e, 0, known, most);
        MoreToList(v, ino, NextHash(e), 0, later, most);
        fuel := most + 1;
      }
    }
  }

  /** The first turn of a listing that ends. */
  lemma {:induction false} FirstTurn(v: Volume, sweep: seq<Entry>, n: nat) returns (known: nat)
    requires EndsAfter(v, sweep, n) && sweep != []
    ensures EntryWithin(v, sweep[0], 0, known).Some? && EntryWithin(v, sweep[0], 0, known).value.ok == (n > 0)
    ensures n > 0 ==> Turn(v, sweep[0], true)
  {
    hide EntryWithin, Hash;
    known :| EntryWithin(v, sweep[0], 0, known).Some? && EntryWithin(v, sweep[0], 0, known).value.ok == (n > 0);
  }

  lemma {:induction false} BelowGreatest(es: seq<Entry>, hash: uint32, v: Volume, n: nat)
    requires HashOrdered(es) && EndsAfter(v, Sweep(es, hash), n) && n > 0 && Sweep(es, hash) != []
    ensures Hash(Sweep(es, hash)[0]) < HASH_MASK
  {
    hide Sweep, Turn, Hash, HashOrdered;
    var sweep := Sweep(es, hash);
    SweepIsStrict(es, hash);
    if |sweep| > 1 {
      assert Hash(sweep[0]) < Hash(sweep[1]);
      HashBound(sweep[1]);
    }
  }

  // All directories below one.

  /** The loop of a directory reaches its `k`th turn. */
  ghost predicate Reaches(v: Volume, sweep: seq<Entry>, k: nat) {
    k < |sweep| && forall i :: 0 <= i < k ==> Turn(v, sweep[i], true)
  }

  /**
   * A rank that falls from each directory to the subdirectories whose turn comes, and no directory that is
   * stuck. Only directories in the map are constrained.
   */
  ghost predicate Hierarchy(v: Volume, rank: map<uint32, nat>) {
    forall d :: d in rank ==>
      var sweep := Sweep(Dents(v, d), 0);
      && !Stuck(sweep, Succeeds(v))
      && forall k: nat :: Reaches(v, sweep, k) && IsDir(v, sweep[k]) ==>
           Inum(v, sweep[k]) in rank && rank[Inum(v, sweep[k])] < rank[d]
  }

  /** The listing of a directory ends exactly when there is such a rank for it. */
  lemma {:induction false} ListingEnds(v: Volume, ino: uint32)
    requires WellFormed(v.root)
    ensures Ends(v, ino) <==> exists rank: map<uint32, nat> :: ino in rank && Hierarchy(v, rank)
  {
    hide Ends, Hierarchy, Leaves, ListWithin;
    if Ends(v, ino) {
      EndingIsRanked(v);
      assert ino in LeastRank(v);
    }
    if exists rank: map<uint32, nat> :: ino in rank && Hierarchy(v, rank) {
      var rank: map<uint32, nat> :| ino in rank && Hierarchy(v, rank);
      RankedEnds(v, rank, ino);
    }
  }

  lemma {:induction false} RankedEnds(v: Volume, rank: map<uint32, nat>, d: uint32)
    requires WellFormed(v.root) && Hierarchy(v, rank) && d in rank
    ensures Ends(v, d)
    decreases rank[d]
  {
    hide Ends, Turn, Dents, Sweep, IsDir, Inum, Hash;
    var sweep := Sweep(Dents(v, d), 0);
    var n := FirstUnknown(v, sweep);
    if n < |sweep| {
      assert Reaches(v, sweep, n);
      TurnEnds(v, sweep[n]);
      if IsDir(v, sweep[n]) {
        RankedEnds(v, rank, Inum(v, sweep[n]));
      }
    } else {
      AllSucceed(v, sweep);
    }
    EndsForSure(v, d, n);
  }

  /** The number of turns that succeed before another. */
  ghost function FirstUnknown(v: Volume, sweep: seq<Entry>): (n: nat)
    ensures n <= |sweep| && (forall i :: 0 <= i < n ==> Turn(v, sweep[i], true))
    ensures n < |sweep| ==> !Turn(v, sweep[n], true)
  {
    if sweep == [] || !Turn(v, sweep[0], true) then 0 else 1 + FirstUnknown(v, sweep[1..])
  }

  lemma {:induction false} AllSucceed(v: Volume, sweep: seq<Entry>)
    requires !Stuck(sweep, Succeeds(v)) && forall i :: 0 <= i < |sweep| ==> Turn(v, sweep[i], true)
    ensures EndsAfter(v, sweep, |sweep|)
  {
    hide Turn, Hash;
    if sweep != [] {
      HashBound(sweep[|sweep| - 1]);
    }
  }

  /** The least fuel with which the listing of a directory ends. */
  ghost function Least(v: Volume, d: uint32): (fuel: nat)
    requires Ends(v, d)
    ensures ListWithin(v, d, 0, 0, fuel).Some?
    ensures forall less: nat :: ListWithin(v, d, 0, 0, less).Some? ==> fuel <= less
  {
    var enough: nat :| ListWithin(v, d, 0, 0, enough).Some?;
    LeastUpTo(v, d, enough)
  }

  ghost function LeastUpTo(v: Volume, d: uint32, enough: nat): (fuel: nat)
    requires ListWithin(v, d, 0, 0, enough).Some?
    ensures ListWithin(v, d, 0, 0, fuel).Some?
    ensures forall less: nat :: ListWithin(v, d, 0, 0, less).Some? ==> fuel <= less
  {
    if enough > 0 && ListWithin(v, d, 0, 0, enough - 1).Some? then LeastUpTo(v, d, enough - 1)
    else
      NoLess(v, d, enough);
      enough
  }

  lemma {:induction false} NoLess(v: Volume, d: uint32, enough: nat)
    requires enough == 0 || ListWithin(v, d, 0, 0, enough - 1).None?
    ensures forall less: nat :: ListWithin(v, d, 0, 0, less).Some? ==> enough <= less
  {
    hide ListWithin;
    forall less: nat | ListWithin(v, d, 0, 0, less).Some?
      ensures enough <= less
    {
      if less < enough {
        MoreToList(v, d, 0, 0, less, enough - 1);
      }
    }
  }

  ghost function LeastRank(v: Volume): map<uint32, nat> {
    map d: uint32 | 0 <= d < 0x1_0000_0000 && Ends(v, d) :: Least(v, d)
  }

  lemma {:induction false} EndingIsRanked(v: Volume)
    requires WellFormed(v.root)
    ensures forall d :: Ends(v, d) ==> d in LeastRank(v)
    ensures Hierarchy(v, LeastRank(v))
  {
    hide Ends, Turn, Dents, Sweep, IsDir, Inum, Hash, Stuck, ListWithin, Least, WellFormed;
    var rank := LeastRank(v);
    forall d | d in rank
      ensures !Stuck(Sweep(Dents(v, d), 0), Succeeds(v))
    {
      EndingNotStuck(v, d);
    }
    forall d, k: nat | d in rank && Reaches(v, Sweep(Dents(v, d), 0), k) && IsDir(v, Sweep(Dents(v, d), 0)[k])
      ensures Inum(v, Sweep(Dents(v, d), 0)[k]) in rank && rank[Inum(v, Sweep(Dents(v, d), 0)[k])] < rank[d]
    {
      LeastFalls(v, d, k);
    }
  }

  lemma {:induction false} EndingNotStuck(v: Volume, d: uint32)
    requires WellFormed(v.root) && Ends(v, d)
    ensures !Stuck(Sweep(Dents(v, d), 0), Succeeds(v))
  {
    hide Ends, Turn, Dents, Sweep, Hash;
    DirectoryEnds(v, d);
    var sweep := Sweep(Dents(v, d), 0);
    var n: nat :| EndsAfter(v, sweep, n);
    if n < |sweep| {
      assert sweep[n] in sweep;
      OneResult(v, sweep[n]);
    }
  }

  lemma {:induction false} OneResult(v: Volume, e: Entry)
    ensures !Turn(v, e, true) || !Turn(v, e, false)
  {
    hide EntryWithin;
    if Turn(v, e, true) {
      var fuel: nat :| EntryWithin(v, e, 0, fuel).Some? && EntryWithin(v, e, 0, fuel).value.ok == true;
      TurnKnown(v, e, fuel);
    }
  }

  lemma {:induction false} LeastFalls(v: Volume, d: uint32, k: nat)
    requires WellFormed(v.root) && Ends(v, d)
    requires Reaches(v, Sweep(Dents(v, d), 0), k) && IsDir(v, Sweep(Dents(v, d), 0)[k])
    ensures var sub := Inum(v, Sweep(Dents(v, d), 0)[k]);
      Ends(v, sub) && Least(v, sub) < Least(v, d)
  {
    hide ListWithin, Dents, Sweep, Turn, Inum, Least;
    DentsOrdered(v, d);
    var e, fuel := Sweep(Dents(v, d), 0)[k], Least(v, d);
    LeastIsLeast(v, d);
    ReachedWithin(v, d, 0, fuel, k);
    ListAtIndent(v, Inum(v, e), 0, 1, 0, fuel - 1);
    LeastIsLeast(v, Inum(v, e));
  }

  lemma {:induction false} LeastIsLeast(v: Volume, d: uint32)
    ensures Ends(v, d) ==> ListWithin(v, d, 0, 0, Least(v, d)).Some?
    ensures forall less: nat :: ListWithin(v, d, 0, 0, less).Some? ==> Ends(v, d) && Least(v, d) <= less
  {
    hide ListWithin;
  }

  /** A turn that is reached ends with less fuel than the whole listing. */
  lemma {:induction false} ReachedWithin(v: Volume, ino: uint32, hash: uint32, fuel: nat, k: nat)
    requires HashOrdered(Dents(v, ino)) && hash <= HASH_MASK && ListWithin(v, ino, hash, 0, fuel).Some?
    requires Reaches(v, Sweep(Dents(v, ino), hash), k)
    ensures fuel > 0 && EntryWithin(v, Sweep(Dents(v, ino), hash)[k], 0, fuel - 1).Some?
    decreases k
  {
    hide Dents, FirstFrom, EntryWithin, Sweep, HashOrdered, NextHash, Hash, Turn, Reaches, ListWithin;
    SweepStep(Dents(v, ino), hash);
    ReachesSome(v, Sweep(Dents(v, ino), hash), k);
    var e := FirstFrom(Dents(v, ino), hash).value;
    HeadEnds(v, ino, hash, fuel);
    if k > 0 {
      ReachesBehind(v, e, Sweep(Dents(v, ino), Hash(e) + 1), k - 1);
      TurnKnown(v, e, fuel - 1);
      NotStuck(v, ino, hash, 0, fuel, e);
      ReachedWithin(v, ino, NextHash(e), fuel - 1, k - 1);
      MoreToEntry(v, Sweep(Dents(v, ino), hash)[k], 0, fuel - 2, fuel - 1);
    }
  }

  lemma {:induction false} HeadEnds(v: Volume, ino: uint32, hash: uint32, fuel: nat)
    requires ListWithin(v, ino, hash, 0, fuel).Some? && FirstFrom(Dents(v, ino), hash).Some?
    ensures fuel > 0 && EntryWithin(v, FirstFrom(Dents(v, ino), hash).value, 0, fuel - 1).Some?
  {
    hide Dents, FirstFrom, EntryWithin, NextHash;
  }

  lemma {:induction false} ReachesSome(v: Volume, sweep: seq<Entry>, k: nat)
    requires Reaches(v, sweep, k)
    ensures k < |sweep|
  {
    hide Turn;
  }

  lemma {:induction false} ReachesBehind(v: Volume, e: Entry, rest: seq<Entry>, k: nat)
    requires Reaches(v, [e] + rest, k + 1)
    ensures Turn(v, e, true) && Reaches(v, rest, k) && ([e] + rest)[k + 1] == rest[k]
  {
    hide Turn;
    assert ([e] + rest)[0] == e;
    assert forall i :: 0 <= i < |rest| ==> rest[i] == ([e] + rest)[i + 1];
  }

  // What is listed.

  /** The turns of a list of entries, one after the other. */
  function TurnsWithin(v: Volume, ds: seq<Entry>, indent: nat, fuel: nat): Option<Report> {
    if ds == [] then Some(Report(true, []))
    else AndThen(EntryWithin(v, ds[0], indent, fuel), TurnsWithin(v, ds[1..], indent, fuel))
  }

  lemma {:induction false} MoreTurns(v: Volume, ds: seq<Entry>, indent: nat, fuel: nat, more: nat)
    requires TurnsWithin(v, ds, indent, fuel).Some? && fuel <= more
    ensures TurnsWithin(v, ds, indent, more) == TurnsWithin(v, ds, indent, fuel)
    decreases |ds|
  {
    hide EntryWithin;
    if ds != [] {
      MoreToEntry(v, ds[0], indent, fuel, more);
      if EntryWithin(v, ds[0], indent, fuel).value.ok {
        MoreTurns(v, ds[1..], indent, fuel, more);
      }
    }
  }

  /** A listing that ends is that of the first entry of each hash, in order, up to the first failure. */
  lemma {:induction false} ListingOfSweep(v: Volume, ino: uint32, hash: uint32, indent: nat, fuel: nat)
    requires HashOrdered(Dents(v, ino)) && hash <= HASH_MASK && ListWithin(v, ino, hash, indent, fuel).Some?
    ensures TurnsWithin(v, Sweep(Dents(v, ino), hash), indent, fuel) == ListWithin(v, ino, hash, indent, fuel)
    decreases fuel
  {
    hide Dents, FirstFrom, EntryWithin, Sweep, HashOrdered, NextHash, Hash, TurnsWithin;
    SweepStep(Dents(v, ino), hash);
    var leaf := FirstFrom(Dents(v, ino), hash);
    if leaf.None? {
      NoTurns(v, indent, fuel);
    } else {
      var e := leaf.value;
      MoreToEntry(v, e, indent, fuel - 1, fuel);
      if EntryWithin(v, e, indent, fuel - 1).value.ok {
        NotStuck(v, ino, hash, indent, fuel, e);
        ListingOfSweep(v, ino, NextHash(e), indent, fuel - 1);
        MoreTurns(v, Sweep(Dents(v, ino), NextHash(e)), indent, fuel - 1, fuel);
        TurnsStep(v, e, Sweep(Dents(v, ino), NextHash(e)), indent, fuel);
      } else {
        TurnsStep(v, e, Sweep(Dents(v, ino), Hash(e) + 1), indent, fuel);
      }
    }
  }

  lemma {:induction false} NoTurns(v: Volume, indent: nat, fuel: nat)
    ensures TurnsWithin(v, [], indent, fuel) == Some(Report(true, []))
  {
  }

  lemma {:induction false} TurnsStep(v: Volume, e: Entry, rest: seq<Entry>, indent: nat, fuel: nat)
    ensures TurnsWithin(v, [e] + rest, indent, fuel)
         == AndThen(EntryWithin(v, e, indent, fuel), TurnsWithin(v, rest, indent, fuel))
  {
    hide EntryWithin;
    assert ([e] + rest)[1..] == rest;
  }

  /** With distinct hashes every entry of the directory has its turn, in order. */
  lemma {:induction false} ListingOfEvery(v: Volume, ino: uint32, indent: nat, fuel: nat)
    requires WellFormed(v.root) && HashDistinct(Dents(v, ino)) && ListWithin(v, ino, 0, indent, fuel).Some?
    ensures ListWithin(v, ino, 0, indent, fuel) == TurnsWithin(v, Dents(v, ino), indent, fuel)
  {
    hide Dents, Sweep, ListWithin, TurnsWithin, HashOrdered;
    DentsOrdered(v, ino);
    SweepComplete(Dents(v, ino));
    ListingOfSweep(v, ino, 0, indent, fuel);
  }

  /** Lists a directory, wherever that ends, by searching from the last hash + 1 until nothing is found. */
  method ListDent(v: Volume, ino: uint32, indent: nat, ghost fuel: nat) returns (ok: bool, lines: seq<Line>)
    requires WellFormed(v.root) && ListWithin(v, ino, 0, indent, fuel).Some?
    ensures ListWithin(v, ino, 0, indent, fuel) == Some(Report(ok, lines))
    decreases fuel, 0
  {
    hide Dents, FirstFrom, EntryWithin, WellFormed, NextHash;
    lines := [];
    var hashMin: uint32 := 0;
    ghost var whole := ListWithin(v, ino, 0, indent, fuel).value;
    ghost var left: nat := fuel;
    assert [] + whole.lines == whole.lines;
    while true
      invariant hashMin <= HASH_MASK && left <= fuel
      invariant ListWithin(v, ino, hashMin, indent, left).Some?
      invariant var rest := ListWithin(v, ino, hashMin, indent, left).value;
        whole == Report(rest.ok, lines + rest.lines)
      decreases left
    {
      var leaf := NextLeaf(v, DENT_KEY, ino, hashMin);
      assert leaf == FirstFrom(Dents(v, ino), hashMin) by { DentsAre(v, ino); }
      if leaf.None? {
        assert lines + [] == lines;
        break;
      }
      var e := leaf.value;
      var more;
      ok, more := ListEntry(v, e, indent, left - 1);
      ghost var tail := ListWithin(v, ino, NextHash(e), indent, left - 1);
      if !ok {
        lines := lines + more;
        return;
      }
      Regroup(lines, more, tail.value.lines);
      NextHashValue(e);
      lines := lines + more;
      hashMin, left := NextHash(e), left - 1;
    }
    ok := true;
  }

  lemma {:induction false} DentsAre(v: Volume, ino: uint32)
    ensures Dents(v, ino) == InodeLeaves(Leaves(v.root), DENT_KEY, ino)
  {
  }

  /** The body of the listing loop for the entry that was found. */
  method ListEntry(v: Volume, e: Entry, indent: nat, ghost fuel: nat) returns (ok: bool, lines: seq<Line>)
    requires WellFormed(v.root) && EntryWithin(v, e, indent, fuel).Some?
    ensures EntryWithin(v, e, indent, fuel) == Some(Report(ok, lines))
    decreases fuel, 1
  {
    hide ListWithin, InodeOf, WellFormed;
    var node := v.read(e);
    if node.None? || !node.value.DentNode? || node.value.kind >= ITYPES_CNT {
      return false, [];
    }
    var inum := node.value.inum % 0x1_0000_0000;
    lines := [Line(indent, inum, node.value.kind, node.value.name)];
    if node.value.kind == ITYPE_DIR {
      var more;
      ok, more := ListDent(v, inum, indent + 1, fuel);
      lines := lines + more;
    } else if node.value.kind == ITYPE_REG || node.value.kind == ITYPE_LNK {
      var inode := ReadInode(v, inum);
      ok := inode.Some?;
    } else {
      ok := true;
    }
  }

  // The listing of a directory tree.

  /**
   * An entry of a directory, with the entries below it if it is a directory itself. `present` says whether its
   * inode is there. A damaged entry has no readable node, one of another type, or one of an unknown kind.
   */
  datatype Item =
    | Item(hash: uint32, inum: uint32, kind: byte, name: string, present: bool, items: seq<Item>)
    | Damaged(hash: uint32)

  /** What a listing should show: the tree in preorder, indented by depth, up to the first thing that is missing. */
  function Shown(items: seq<Item>, indent: nat): Report
    decreases items
  {
    if items == [] then Report(true, [])
    else
      match items[0]
      case Damaged(_) => Report(false, [])
      case Item(_, inum, kind, name, present, below) =>
        var line := Line(indent, inum, kind, name);
        if kind == 1 && !Shown(below, indent + 1).ok then Report(false, [line] + Shown(below, indent + 1).lines)
        else if (kind == 0 || kind == 2) && !present then Report(false, [line])
        else
          var inside := if kind == 1 then Shown(below, indent + 1).lines else [];
          var rest := Shown(items[1..], indent);
          Report(rest.ok, [line] + inside + rest.lines)
  }

  /** The first leaf whose key is the inode number with zero for type and hash reads as an inode. */
  ghost predicate InodeThere(v: Volume, inum: uint32) {
    exists i :: 0 <= i < |Leaves(v.root)| && InodeAt(v, inum, i)
  }

  ghost predicate InodeAt(v: Volume, inum: uint32, i: nat)
    requires i < |Leaves(v.root)|
  {
    var es := Leaves(v.root);
    && es[i].key0 == inum && es[i].key1 == 0 && v.read(es[i]).Some? && v.read(es[i]).value.InodeNode?
    && forall j :: 0 <= j < i ==> es[j].key0 != inum || es[j].key1 != 0
  }

  /** The node of a leaf is that of an item. */
  ghost predicate Names(v: Volume, e: Entry, item: Item) {
    match item
    case Damaged(_) => v.read(e).None? || !v.read(e).value.DentNode? || v.read(e).value.kind >= 7
    case Item(_, inum, kind, name, _, _) => kind < 7 && v.read(e) == Some(DentNode(inum, kind, name))
  }

  /** A leaf belongs to a directory's item: inode number, then type 2 in the upper 3 bits and the hash below. */
  ghost predicate LeafOf(v: Volume, e: Entry, ino: uint32, item: Item) {
    e.key0 == ino && e.key1 == 0x4000_0000 + item.hash && Names(v, e, item)
  }

  ghost predicate InOrder(items: seq<Item>, hash: uint32) {
    && (forall i :: 0 <= i < |items| ==> hash <= items[i].hash < 0x1FFF_FFFF)
    && (forall i, j :: 0 <= i < j < |items| ==> items[i].hash < items[j].hash)
  }

  ghost predicate HasLeaf(v: Volume, ino: uint32, item: Item) {
    exists e :: e in Leaves(v.root) && LeafOf(v, e, ino, item)
  }

  ghost predicate HasItem(v: Volume, ino: uint32, items: seq<Item>, e: Entry) {
    exists item :: item in items && LeafOf(v, e, ino, item)
  }

  /** Every leaf of the directory from a hash on belongs to one of the items. */
  ghost predicate NoOthers(v: Volume, ino: uint32, hash: uint32, items: seq<Item>) {
    forall e :: e in Leaves(v.root) && e.key0 == ino && 0x4000_0000 + hash <= e.key1 < 0x6000_0000 ==>
      HasItem(v, ino, items, e)
  }

  /** The items are those of a directory from a hash on, and so are the items below them. */
  ghost predicate Holds(v: Volume, ino: uint32, hash: uint32, items: seq<Item>)
    decreases items
  {
    && InOrder(items, hash) && NoOthers(v, ino, hash, items)
    && (forall i :: 0 <= i < |items| ==> HasLeaf(v, ino, items[i]))
    && (forall i :: 0 <= i < |items| && items[i].Item? ==>
          && items[i].present == InodeThere(v, items[i].inum)
          && (items[i].kind == 1 ==> Holds(v, items[i].inum, 0, items[i].items)))
  }

  function Weight(items: seq<Item>): nat
    decreases items
  {
    if items == [] then 1
    else 1 + (if items[0].Item? then Weight(items[0].items) else 0) + Weight(items[1..])
  }

  /** The listing of a directory tree that the volume holds shows that tree. */
  lemma {:induction false} TreeIsListed(v: Volume, ino: uint32, hash: uint32, items: seq<Item>, indent: nat, fuel: nat)
    requires WellFormed(v.root) && hash < 0x2000_0000 && Holds(v, ino, hash, items) && fuel >= Weight(items)
    ensures ListWithin(v, ino, hash, indent, fuel) == Some(Shown(items, indent))
    decreases items, 1
  {
    hide Dents, FirstFrom, EntryWithin, NextHash, Leaves, Names, LeafOf, InodeThere, WellFormed, Holds;
    var leaf := FirstFrom(Dents(v, ino), hash);
    FirstIsItem(v, ino, hash, items);
    if items != [] {
      var e, item := leaf.value, items[0];
      RestHolds(v, ino, hash, items);
      NextHashValue(e);
      ItemIsListed(v, e, item, indent, fuel - 1);
      TreeIsListed(v, ino, item.hash + 1, items[1..], indent, fuel - 1);
      ShownStep(items, indent);
    }
  }

  /** The turn of one item. */
  function ShownItem(item: Item, indent: nat): Report {
    match item
    case Damaged(_) => Report(false, [])
    case Item(_, inum, kind, name, present, below) =>
      var line := Line(indent, inum, kind, name);
      if kind == 1 then Report(Shown(below, indent + 1).ok, [line] + Shown(below, indent + 1).lines)
      else Report((kind != 0 && kind != 2) || present, [line])
  }

  lemma {:induction false} ShownStep(items: seq<Item>, indent: nat)
    requires items != []
    ensures Some(Shown(items, indent)) == AndThen(Some(ShownItem(items[0], indent)), Some(Shown(items[1..], indent)))
  {
    if items[0].Item? {
      var line := Line(indent, items[0].inum, items[0].kind, items[0].name);
      assert [line] + [] == [line];
    }
  }

  lemma {:induction false} ItemIsListed(v: Volume, e: Entry, item: Item, indent: nat, fuel: nat)
    requires WellFormed(v.root) && Names(v, e, item)
    requires item.Item? ==> item.present == InodeThere(v, item.inum)
    requires item.Item? ==> fuel >= Weight(item.items)
    requires item.Item? && item.kind == 1 ==> Holds(v, item.inum, 0, item.items)
    ensures EntryWithin(v, e, indent, fuel) == Some(ShownItem(item, indent))
    decreases item, 0
  {
    hide ListWithin, InodeThere, InodeOf, WellFormed, Holds, Shown, Weight;
    if item.Item? {
      if item.kind == 1 {
        TreeIsListed(v, item.inum, 0, item.items, indent + 1, fuel);
      }
      PresentMeans(v, item.inum);
    }
  }

  lemma {:induction false} PresentMeans(v: Volume, inum: uint32)
    ensures InodeOf(v, inum).Some? <==> InodeThere(v, inum)
  {
    hide InodeOf, Leaves;
    var es := Leaves(v.root);
    if forall e :: e in es ==> e.key0 != inum || e.key1 != 0 {
      NoInodeMeans(v, inum);
      assert forall i :: 0 <= i < |es| ==> es[i] in es;
    } else {
      var i := FirstInode(es, inum);
      InodeMeans(v, inum, i);
      if InodeThere(v, inum) {
        var k :| 0 <= k < |es| && InodeAt(v, inum, k);
        assert k == i;
      } else {
        assert !InodeAt(v, inum, i);
      }
    }
  }

  lemma {:induction false} FirstInode(es: seq<Entry>, inum: uint32) returns (i: nat)
    requires exists e :: e in es && e.key0 == inum && e.key1 == 0
    ensures i < |es| && es[i].key0 == inum && es[i].key1 == 0
    ensures forall j :: 0 <= j < i ==> es[j].key0 != inum || es[j].key1 != 0
  {
    var known :| 0 <= known < |es| && es[known].key0 == inum && es[known].key1 == 0;
    i := 0;
    while es[i].key0 != inum || es[i].key1 != 0
      invariant i <= known && forall j :: 0 <= j < i ==> es[j].key0 != inum || es[j].key1 != 0
      decreases known - i
    {
      i := i + 1;
    }
  }

  lemma {:induction false} RestHolds(v: Volume, ino: uint32, hash: uint32, items: seq<Item>)
    requires Holds(v, ino, hash, items) && items != []
    ensures Holds(v, ino, items[0].hash + 1, items[1..])
    ensures items[0].hash < 0x1FFF_FFFF
    ensures items[0].Item? ==> items[0].present == InodeThere(v, items[0].inum)
    ensures items[0].Item? && items[0].kind == 1 ==> Holds(v, items[0].inum, 0, items[0].items)
  {
    hide Leaves, Names, InodeThere, NoOthers, HasLeaf, InOrder;
    assert forall i :: 0 <= i < |items[1..]| ==> items[1..][i] == items[i + 1];
    RestInOrder(items, hash);
    NoOthersInRest(v, ino, hash, items);
  }

  lemma {:induction false} RestInOrder(items: seq<Item>, hash: uint32)
    requires InOrder(items, hash) && items != []
    ensures items[0].hash < 0x1FFF_FFFF && InOrder(items[1..], items[0].hash + 1)
    ensures forall item :: item in items && item != items[0] ==> item in items[1..]
    ensures forall item :: item in items ==> items[0].hash <= item.hash
  {
    assert forall i :: 0 <= i < |items[1..]| ==> items[1..][i] == items[i + 1];
    assert forall item :: item in items ==> item == items[0] || item in items[1..];
  }

  lemma {:induction false} NoOthersInRest(v: Volume, ino: uint32, hash: uint32, items: seq<Item>)
    requires InOrder(items, hash) && items != [] && NoOthers(v, ino, hash, items)
    ensures items[0].hash < 0x1FFF_FFFF && NoOthers(v, ino, items[0].hash + 1, items[1..])
  {
    hide Leaves, Names, InOrder;
    RestInOrder(items, hash);
    FirstInOrder(items, hash);
    forall e | e in Leaves(v.root) && e.key0 == ino && 0x4000_0000 + items[0].hash + 1 <= e.key1 < 0x6000_0000
      ensures HasItem(v, ino, items[1..], e)
    {
      var item :| item in items && LeafOf(v, e, ino, item);
      assert item in items[1..];
    }
  }

  lemma {:induction false} FirstInOrder(items: seq<Item>, hash: uint32)
    requires InOrder(items, hash) && items != []
    ensures hash <= items[0].hash
  {
  }

  /** The search finds the leaf of the first item, or nothing when there is none. */
  lemma {:induction false} FirstIsItem(v: Volume, ino: uint32, hash: uint32, items: seq<Item>)
    requires WellFormed(v.root) && hash < 0x2000_0000 && Holds(v, ino, hash, items)
    ensures var leaf := FirstFrom(Dents(v, ino), hash);
      if items == [] then leaf.None?
      else leaf.Some? && Hash(leaf.value) == items[0].hash && Names(v, leaf.value, items[0])
  {
    hide Leaves, Names, InodeThere, Dents, FirstFrom, HashOrdered, WellFormed, Hash, InOrder;
    DentsOrdered(v, ino);
    DentsMean(v, ino);
    FirstFromMeans(Dents(v, ino), hash);
    var leaf := FirstFrom(Dents(v, ino), hash);
    if items != [] {
      RestInOrder(items, hash);
      FirstInOrder(items, hash);
      assert HasLeaf(v, ino, items[0]);
      var e :| e in Leaves(v.root) && LeafOf(v, e, ino, items[0]);
      assert e in Dents(v, ino);
    }
    if leaf.Some? {
      assert HasItem(v, ino, items, leaf.value);
      var item :| item in items && LeafOf(v, leaf.value, ino, item);
      OneOfHash(items, hash, item);
    }
  }

  lemma {:induction false} OneOfHash(items: seq<Item>, hash: uint32, item: Item)
    requires InOrder(items, hash) && item in items
    ensures item.hash <= items[0].hash ==> item == items[0]
  {
  }

  lemma {:induction false} DentsMean(v: Volume, ino: uint32)
    ensures forall e :: e in Dents(v, ino) <==>
      e in Leaves(v.root) && e.key0 == ino && 0x4000_0000 <= e.key1 < 0x6000_0000
    ensures forall e :: e in Dents(v, ino) ==> e.key1 == 0x4000_0000 + Hash(e)
  {
    hide Leaves, InodeLeaves;
    InodeLeavesMembers(Leaves(v.root), DENT_KEY, ino);
  }

  lemma {:induction false} FirstFromMeans(es: seq<Entry>, hash: uint32)
    requires HashOrdered(es)
    ensures FirstFrom(es, hash).None? ==> forall e :: e in es ==> Hash(e) < hash
    ensures FirstFrom(es, hash).Some? ==>
      var r := FirstFrom(es, hash).value;
      r in es && hash <= Hash(r) && forall e :: e in es && hash <= Hash(e) ==> Hash(r) <= Hash(e)
  {
    hide Hash;
    if es != [] && Hash(es[0]) < hash {
      FirstFromMeans(es[1..], hash);
    } else if es != [] {
      forall e | e in es
        ensures Hash(es[0]) <= Hash(e)
      {
        var k :| 0 <= k < |es| && es[k] == e;
      }
    }
  }

  /** Lists a directory tree that the volume holds. */
  method ListTree(v: Volume, ino: uint32, indent: nat, ghost items: seq<Item>) returns (ok: bool, lines: seq<Line>)
    requires WellFormed(v.root) && Holds(v, ino, 0, items)
    ensures Report(ok, lines) == Shown(items, indent)
  {
    hide WellFormed, Holds, Shown, ListWithin;
    TreeIsListed(v, ino, 0, items, indent, Weight(items));
    ok, lines := ListDent(v, ino, indent, Weight(items));
  }
}
