/** Memory maps and calls on which the allocator does less than it should. */
module FrameExamples {
  import opened MachineTypes
  import opened FrameSearch
  import opened FrameState
  import opened FrameRuns
  import opened MemoryMap
  import opened BootMemory
  import opened FrameAllocator

  const MB: nat := 0x10_0000

  /** A range below 4 GB of whole megabytes. */
  function Range(start: nat, end: nat, kind: Dword): Entry
    requires start <= end < 4096
  {
    Entry(start * MB, 0, (end - start) * MB, 0, kind)
  }

  lemma RangeFrames(start: nat, end: nat, kind: Dword)
    requires start <= end < 4096 && start % 2 == 0 && end % 2 == 0
    ensures var e := Range(start, end, kind); e.NoWrap() && e.StartPfn() == start / 2 && e.EndPfn() == end / 2
    ensures forall a: nat :: Range(start, end, kind).Contains(a) <==> start * MB <= a < end * MB
  {
    AlignedRange(Range(start, end, kind));
  }

  /** The zones and frames of a map of one usable range. */
  lemma OneRange(start: nat, end: nat)
    requires start < end < 4096 && start % 2 == 0 && end % 2 == 0
    ensures var es := [Range(start, end, 1)];
      && GoodMap(es) && MaxPfn(es) == end / 2 && ZonesOf(es) == ZonesOfEntry(es[0])
      && FirstZoneFirst(ZonesOf(es)) && forall p: nat :: !ReservedFrame(es, p)
  {
    var e := Range(start, end, 1);
    RangeFrames(start, end, 1);
    EntryByFrames(e);
    assert [e][..0] == [];
    assert [] + ZonesOfEntry(e) == ZonesOfEntry(e);
  }

  /** What boot leaves of a map with one zone. */
  lemma OneZoneStart(es: seq<Entry>, s: State, lo: nat, hi: nat, zone: Zone)
    requires Initial(es, s, lo, hi) && ZonesOf(es) == [zone]
    ensures |s.frames| == MaxPfn(es) + 1 <= 64 * |s.bitmap|
    ensures s.zones == [zone.(nrFree := Wrap(zone.totalPages - ChargedCount([zone], lo, hi, 0)))]
    ensures Accounted(s, MetaHolders(s.zones, lo, hi))
  {
    hide ZonesOf;
    hide MaxPfn;
    hide ReservedFrame;
    hide BootedFrames;
    hide Accounted;
    hide ChargedCount;
    hide MetaHolders;
    hide Wrap;
  }

  // ---------- a held frame is handed out ----------

  /** Usable memory from 128 MB to 2 GB: one zone, frames 64 to 1023. */
  function TornMap(): seq<Entry> { [Range(128, 2048, 1)] }

  lemma TornZones()
    ensures GoodMap(TornMap()) && MaxPfn(TornMap()) == 1024 && ZonesOf(TornMap()) == [NewZone(64, 1024, ZoneNormal)]
    ensures FirstZoneFirst(ZonesOf(TornMap()))
  {
    OneRange(128, 2048);
    RangeZones(128, 2048);
  }

  /** The frames 1 and 2 lie below the zone. */
  lemma TornMetadata(zs: seq<Zone>)
    requires |zs| == 1 && zs[0].startPfn == 64
    ensures ChargedCount(zs, 1, 3, 0) == 0 && MetaHolders(zs, 1, 3) == []
  {
    assert Charged(zs, 1, 0) == None && Charged(zs, 2, 0) == None;
    assert ChargedCount(zs, 1, 1, 0) == 0 && ChargedCount(zs, 1, 2, 0) == 0;
    assert !SomeZone(zs, 1) && !SomeZone(zs, 2);
    assert MetaHolders(zs, 1, 1) == [] && MetaHolders(zs, 1, 2) == [];
  }

  lemma TornStart(s: State)
    requires Initial(TornMap(), s, 1, 3)
    ensures |s.frames| == 1025 <= 64 * |s.bitmap|
    ensures |s.zones| == 1 && s.zones[0] == Zone(64, 1024, 960, 960, ZoneNormal)
    ensures Accounted(s, [])
  {
    var zone := NewZone(64, 1024, ZoneNormal);
    hide *;
    TornZones();
    TornCounter(zone);
    OneZoneStart(TornMap(), s, 1, 3, zone);
    TornMetadata([zone]);
    TornMetadata(s.zones);
  }

  lemma TornCounter(zone: Zone)
    requires zone == NewZone(64, 1024, ZoneNormal)
    ensures zone.startPfn == 64 && zone.(nrFree := Wrap(zone.totalPages - 0)) == Zone(64, 1024, 960, 960, ZoneNormal)
  {
  }

  /** The zone of that map with some counter. */
  ghost predicate TornZone(s: State, nrFree: Word64) {
    |s.frames| == 1025 <= 64 * |s.bitmap| && s.zones == [Zone(64, 1024, 960, nrFree, ZoneNormal)]
  }

  lemma OneBlock(b: Block, p: nat)
    ensures Holders([b], p) == if Holds(b, p) then 1 else 0
  {
    OneMore([], b, p);
    assert [] + [b] == [b];
  }

  lemma TwoBlocks(a: Block, b: Block, p: nat)
    ensures Holders([a, b], p) == Holders([a], p) + Holders([b], p)
  {
    HoldersAppend([a], [b], p);
    assert [a] + [b] == [a, b];
  }

  lemma ZoneFrame(s: State, nrFree: Word64, p: nat)
    requires TornZone(s, nrFree) && 64 <= p < 1024
    ensures Managed(s, p)
  {
    assert InZone(s.zones[0], p);
  }

  lemma FirstCall(s: State)
    requires TornZone(s, 960) && Accounted(s, [])
    ensures Request(s, ZoneNormal, 64) && Placement(s, ZoneNormal, 64) == Some(64)
    ensures var (r, s') := AllocPages(s, ZoneNormal, 64, {});
      r == Some(64) && TornZone(s', 832) && Accounted(s', [Block(64, 64)])
  {
    forall p: nat | 64 <= p < 128
      ensures !Marked(s.bitmap, p)
    {
      ZoneFrame(s, 960, p);
      MarkedIffHeld(s, [], p);
    }
    assert ChooseZone(s.zones, ZoneNormal, 64, 0) == Some(0);
    TornPlacement(s, ZoneNormal, 64);
    AllocTakes(s, ZoneNormal, 64, {});
    AllocAccounted(s, [], ZoneNormal, 64, {});
    assert [] + [Block(64, 64)] == [Block(64, 64)];
  }

  lemma SecondCall(s: State)
    requires TornZone(s, 832) && Accounted(s, [Block(64, 64)])
    ensures Request(s, ZoneNormal, 1) && Placement(s, ZoneNormal, 1) == Some(128)
    ensures var (r, s') := AllocPages(s, ZoneNormal, 1, {});
      && r == Some(128) && TornZone(s', 830) && Accounted(s', [Block(64, 64), Block(128, 1)])
      && s'.frames[128].flags == {Used}
  {
    SecondPlace(s);
    AllocTakes(s, ZoneNormal, 1, {});
    assert [Block(64, 64)] + [Block(128, 1)] == [Block(64, 64), Block(128, 1)];
    hide AllocPages;
    hide Placement;
    hide Marked;
    hide Accounted;
    AllocAccounted(s, [Block(64, 64)], ZoneNormal, 1, {});
  }

  lemma SecondPlace(s: State)
    requires TornZone(s, 832) && Accounted(s, [Block(64, 64)])
    ensures ChooseZone(s.zones, ZoneNormal, 1, 0) == Some(0)
    ensures Request(s, ZoneNormal, 1) && Placement(s, ZoneNormal, 1) == Some(128)
  {
    forall p: nat | 64 <= p <= 128
      ensures Marked(s.bitmap, p) <==> p < 128
    {
      ZoneFrame(s, 832, p);
      MarkedIffHeld(s, [Block(64, 64)], p);
      OneBlock(Block(64, 64), p);
    }
    assert ChooseZone(s.zones, ZoneNormal, 1, 0) == Some(0);
    SearchExact(s.bitmap, 64, 1024, 1);
    assert Hit(s.bitmap, 64, 1024, 1, 128);
    var found := Search(s.bitmap, 64, 1024, 1).value;
    assert !Marked(s.bitmap, found);
  }

  lemma {:induction false} LastAtMost(frames: seq<Frame>, start: nat, n: nat)
    requires start + n <= |frames|
    ensures LastReferences(frames, start, n) <= n
    decreases n
  {
    if n > 0 { LastAtMost(frames, start, n - 1); }
  }

  lemma ThirdCall(s: State)
    requires TornZone(s, 830) && Accounted(s, [Block(64, 64), Block(128, 1)]) && s.frames[128].flags == {Used}
    ensures var (s', held') := Execute(s, [Block(64, 64), Block(128, 1)], Release(0));
      && (exists c: Word64 :: c >= 65 && TornZone(s', c))
      && held' == [Block(128, 1)] && Accounted(s', held') && s'.frames[128].flags == {Used}
  {
    var held := [Block(64, 64), Block(128, 1)];
    var (s', held') := Execute(s, held, Release(0));
    BlockFreeable(s, held[0]);
    FreeFramesEffect(s, 0, 64, 64);
    LastAtMost(s.frames, 64, 64);
    StepAccounted(s, held, Release(0));
    assert held' == [Block(128, 1)];
    assert TornZone(s', 830 + LastReferences(s.frames, 64, 64));
  }

  /** 65 frames are wanted and frame 128 is held. */
  lemma TornCall(s: State, c: Word64)
    requires c >= 65 && TornZone(s, c) && Accounted(s, [Block(128, 1)]) && s.frames[128].flags == {Used}
    ensures Servable(s, ZoneNormal, 65) && AllocPages(s, ZoneNormal, 65, {}).0 == Some(64)
    ensures !Accounted(AllocPages(s, ZoneNormal, 65, {}).1, [Block(128, 1)] + [Block(64, 65)])
  {
    forall p: nat | 64 <= p <= 128
      ensures Marked(s.bitmap, p) <==> p == 128
    {
      ZoneFrame(s, c, p);
      MarkedIffHeld(s, [Block(128, 1)], p);
      OneBlock(Block(128, 1), p);
    }
    assert ChooseZone(s.zones, ZoneNormal, 65, 0) == Some(0);
    TornPlacement(s, ZoneNormal, 65);
    TornAccount(s, [Block(128, 1)], ZoneNormal, 65, {});
  }

  /** A run is its first call, then the run from there. */
  lemma RunOn(s: State, held: seq<Block>, op: Op, rest: seq<Op>)
    requires Accounted(s, held) && Allowed(s, held, op)
    ensures var (s', held') := Execute(s, held, op);
      && Accounted(s', held') && (RunAllowed(s, held, [op] + rest) <==> RunAllowed(s', held', rest))
      && (RunAllowed(s', held', rest) ==> RunState(s, held, [op] + rest) == RunState(s', held', rest))
  {
    StepAccounted(s, held, op);
    assert ([op] + rest)[1..] == rest;
  }

  const TORN_RUN: seq<Op> := [Alloc(ZoneNormal, 64, {})] + ([Alloc(ZoneNormal, 1, {})] + ([Release(0)] + []))

  /** What one call leaves, and that a run may begin with it. */
  ghost predicate Leads(s: State, held: seq<Block>, op: Op, s': State, held': seq<Block>) {
    Accounted(s, held) && Allowed(s, held, op) && Execute(s, held, op) == (s', held')
  }

  lemma FirstLeads(s: State)
    requires TornZone(s, 960) && Accounted(s, [])
    ensures var s' := AllocPages(s, ZoneNormal, 64, {}).1;
      Leads(s, [], Alloc(ZoneNormal, 64, {}), s', [Block(64, 64)]) && TornZone(s', 832) && Accounted(s', [Block(64, 64)])
  {
    FirstCall(s);
    assert [] + [Block(64, 64)] == [Block(64, 64)];
    hide AllocPages;
    hide Accounted;
    hide Placement;
  }

  lemma SecondLeads(s: State)
    requires TornZone(s, 832) && Accounted(s, [Block(64, 64)])
    ensures var s', held' := AllocPages(s, ZoneNormal, 1, {}).1, [Block(64, 64), Block(128, 1)];
      && Leads(s, [Block(64, 64)], Alloc(ZoneNormal, 1, {}), s', held')
      && TornZone(s', 830) && Accounted(s', held') && s'.frames[128].flags == {Used}
  {
    SecondCall(s);
    assert [Block(64, 64)] + [Block(128, 1)] == [Block(64, 64), Block(128, 1)];
    hide AllocPages;
    hide Accounted;
    hide Placement;
  }

  lemma LeadsOn(s: State, held: seq<Block>, op: Op, s': State, held': seq<Block>, rest: seq<Op>)
    requires Leads(s, held, op, s', held')
    ensures Accounted(s, held) && Accounted(s', held')
    ensures (RunAllowed(s, held, [op] + rest) <==> RunAllowed(s', held', rest))
    ensures RunAllowed(s', held', rest) ==> RunState(s, held, [op] + rest) == RunState(s', held', rest)
  {
    hide Accounted;
    hide Execute;
    RunOn(s, held, op, rest);
  }

  /** From boot with this map: take 64 frames, take one, free the 64. A request for 65
      frames is then given frame 128, which is held, and the counts are wrong. */
  lemma TornExample(s: State)
    requires Initial(TornMap(), s, 1, 3)
    ensures Accounted(s, []) && RunAllowed(s, [], TORN_RUN)
    ensures var (s', held') := RunState(s, [], TORN_RUN);
      && held' == [Block(128, 1)] && Servable(s', ZoneNormal, 65)
      && AllocPages(s', ZoneNormal, 65, {}).0 == Some(64) && Holds(Block(64, 65), 128)
      && !Accounted(AllocPages(s', ZoneNormal, 65, {}).1, held' + [Block(64, 65)])
  {
    TornStart(s);
    hide Initial;
    hide AllocPages;
    hide Accounted;
    hide Execute;
    hide Leads;
    hide RunState;
    hide RunAllowed;
    hide Servable;
    FirstLeads(s);
    var s1 := AllocPages(s, ZoneNormal, 64, {}).1;
    SecondLeads(s1);
    var s2 := AllocPages(s1, ZoneNormal, 1, {}).1;
    var s3 := TornThird(s2);
    LeadsOn(s2, [Block(64, 64), Block(128, 1)], Release(0), s3, [Block(128, 1)], []);
    LeadsOn(s1, [Block(64, 64)], Alloc(ZoneNormal, 1, {}), s2, [Block(64, 64), Block(128, 1)], [Release(0)] + []);
    LeadsOn(s, [], Alloc(ZoneNormal, 64, {}), s1, [Block(64, 64)], [Alloc(ZoneNormal, 1, {})] + ([Release(0)] + []));
    RunNothing(s3, [Block(128, 1)]);
    var c: Word64 :| c >= 65 && TornZone(s3, c);
    TornCall(s3, c);
  }

  lemma TornThird(s: State) returns (s': State)
    requires TornZone(s, 830) && Accounted(s, [Block(64, 64), Block(128, 1)]) && s.frames[128].flags == {Used}
    ensures Leads(s, [Block(64, 64), Block(128, 1)], Release(0), s', [Block(128, 1)])
    ensures exists c: Word64 :: c >= 65 && TornZone(s', c)
    ensures Accounted(s', [Block(128, 1)]) && s'.frames[128].flags == {Used}
  {
    ThirdCall(s);
    hide Accounted;
    hide FreePages;
    s' := Execute(s, [Block(64, 64), Block(128, 1)], Release(0)).0;
  }

  lemma RunNothing(s: State, held: seq<Block>)
    requires Accounted(s, held)
    ensures RunAllowed(s, held, []) && RunState(s, held, []) == (s, held)
  {
  }

  /** Freeing the first of the two blocks is the third call. */
  lemma ThirdIsFree(s: State)
    requires TornZone(s, 830) && Accounted(s, [Block(64, 64), Block(128, 1)]) && s.frames[128].flags == {Used}
    ensures Freeable(s, Some(64), 64)
    ensures var s' := FreePages(s, Some(64), 64);
      && (exists c: Word64 :: c >= 65 && TornZone(s', c))
      && Accounted(s', [Block(128, 1)]) && s'.frames[128].flags == {Used}
  {
    var held := [Block(64, 64), Block(128, 1)];
    BlockFreeable(s, held[0]);
    ThirdCall(s);
  }

  /** The same calls on the arrays: frame 128 is granted, never released, and lies in
      the block of 65 frames granted last. */
  method TornCalls() returns (first: Option<nat>, second: Option<nat>, third: Option<nat>)
    ensures first == Some(64) && second == Some(128) && third == Some(64)
  {
    OneRange(128, 2048);
    assert Truncated(TornMap()) == TornMap();
    var m := new MemoryManager(TornMap(), 1, 3);
    TornStart(m.Snapshot());
    hide Initial;
    hide AllocPages;
    hide FreePages;
    hide Accounted;
    hide Placement;
    FirstCall(m.Snapshot());
    first := m.AllocPages(ZoneNormal, 64, {});
    SecondCall(m.Snapshot());
    second := m.AllocPages(ZoneNormal, 1, {});
    ThirdIsFree(m.Snapshot());
    m.FreePages(Some(64), 64);
    ghost var c: Word64 :| c >= 65 && TornZone(m.Snapshot(), c);
    TornCall(m.Snapshot(), c);
    third := m.AllocPages(ZoneNormal, 65, {});
  }

  // ---------- frame 0 ----------

  /** The zones of a range in frame numbers. */
  lemma RangeZones(start: nat, end: nat)
    requires start < end < 4096 && start % 2 == 0 && end % 2 == 0
    ensures var a, b := start / 2, end / 2;
      ZonesOfEntry(Range(start, end, 1))
        == (if a < DMA_PFN < b then [NewZone(a, DMA_PFN, ZoneDma), NewZone(DMA_PFN, b, ZoneNormal)]
            else [NewZone(a, b, if a < DMA_PFN then ZoneDma else ZoneNormal)])
  {
    RangeFrames(start, end, 1);
    EntryByFrames(Range(start, end, 1));
  }

  lemma LowCharges(zs: seq<Zone>)
    requires zs == [NewZone(0, 2, ZoneDma)]
    ensures ChargedCount(zs, 1, 2, 0) == 1
  {
    assert Charged(zs, 1, 0) == Some(0);
    assert ChargedCount(zs, 1, 1, 0) == 0;
  }

  /** Usable memory from 0 to 4 MB. */
  function LowMap(): seq<Entry> { [Range(0, 4, 1)] }

  lemma LowZones()
    ensures GoodMap(LowMap()) && MaxPfn(LowMap()) == 2 && ZonesOf(LowMap()) == [NewZone(0, 2, ZoneDma)]
  {
    OneRange(0, 4);
    RangeZones(0, 4);
  }

  lemma LowStart(s: State)
    requires Initial(LowMap(), s, 1, 2)
    ensures Shaped(s) && |s.frames| == 3 && s.zones == [Zone(0, 2, 2, 1, ZoneDma)] && !Marked(s.bitmap, 0)
  {
    LowZones();
    LowCharges(ZonesOf(LowMap()));
    hide LowMap;
    hide GoodMap;
    hide MaxPfn;
    hide ZonesOf;
    hide ChargedCount;
    hide Agrees;
    hide Accounted;
    hide MetaHolders;
    hide ReservedFrame;
  }

  /** With one metadata frame taken the zone's counter allows one frame more and frame 0
      is free, but a request for one frame finds nothing. */
  lemma FrameZeroExample(s: State)
    requires Initial(LowMap(), s, 1, 2)
    ensures |s.frames| == 3 <= 64 * |s.bitmap| && s.zones == [Zone(0, 2, 2, 1, ZoneDma)]
    ensures Managed(s, 0) && !Marked(s.bitmap, 0)
    ensures Servable(s, ZoneDma, 1) && AllocPages(s, ZoneDma, 1, {}) == (None, s)
  {
    LowStart(s);
    hide Initial;
    hide LowMap;
    assert InZone(s.zones[0], 0);
    assert ChooseZone(s.zones, ZoneDma, 1, 0) == Some(0);
    FrameZeroNotFound(s, ZoneDma, 1);
  }

  lemma ReversedMap()
    ensures var es := [Range(128, 132, 1), Range(0, 4, 1)];
      GoodMap(es) && MaxPfn(es) == 66 && ZonesOf(es) == [NewZone(64, 66, ZoneNormal), NewZone(0, 2, ZoneDma)]
  {
    TwoRanges(128, 132, 1, 0, 4, 1);
    RangeFrames(128, 132, 1);
    RangeFrames(0, 4, 1);
    EntryByFrames(Range(128, 132, 1));
    EntryByFrames(Range(0, 4, 1));
  }

  /** Usable memory from 128 to 132 MB and, listed after it, from 0 to 4 MB: frame 0
      lies in the second zone and is booked to the first. */
  lemma FrameZeroElsewhere(s: State)
    requires Fresh([Range(128, 132, 1), Range(0, 4, 1)], s)
    ensures |s.zones| == 2 && InZone(s.zones[1], 0) && |s.frames| > 0 && s.frames[0].zone == Some(0) && !Shaped(s)
  {
    hide ZonesOf;
    hide MaxPfn;
    hide StillReserved;
    ReversedMap();
  }

  lemma TwoRanges(start: nat, end: nat, kind: Dword, start': nat, end': nat, kind': Dword)
    requires start < end < 4096 && start % 2 == 0 && end % 2 == 0
    requires start' < end' < 4096 && start' % 2 == 0 && end' % 2 == 0 && (end <= start' || end' <= start)
    ensures var a, b := Range(start, end, kind), Range(start', end', kind');
      && GoodMap([a, b]) && ZonesOf([a, b]) == ZonesOfEntry(a) + ZonesOfEntry(b)
      && MaxPfn([a, b]) == if end > end' then end / 2 else end' / 2
  {
    var a, b := Range(start, end, kind), Range(start', end', kind');
    RangeFrames(start, end, kind);
    RangeFrames(start', end', kind');
    var es := [a, b];
    assert es[..1] == [a] && [a][..0] == [];
    assert ZonesOf([a]) == ZonesOfEntry(a) by { assert [] + ZonesOfEntry(a) == ZonesOfEntry(a); }
    assert MaxPfn([a]) == end / 2;
    assert end <= start' ==> end * MB <= start' * MB;
    assert end' <= start ==> end' * MB <= start * MB;
  }

  // ---------- metadata ----------

  lemma SplitCharges(zs: seq<Zone>)
    requires zs == [NewZone(0, 8, ZoneDma), NewZone(8, 16, ZoneNormal)]
    ensures Charged(zs, 8, 0) == Some(0) && ChargedCount(zs, 8, 9, 0) == 1 && ChargedCount(zs, 8, 9, 1) == 0
  {
    assert Charged(zs, 8, 0) == Some(0);
    assert ChargedCount(zs, 8, 8, 0) == 0 && ChargedCount(zs, 8, 8, 1) == 0;
  }

  /** Usable memory from 0 to 32 MB. */
  function SplitMap(): seq<Entry> { [Range(0, 32, 1)] }

  lemma SplitZones()
    ensures GoodMap(SplitMap()) && ZonesOf(SplitMap()) == [NewZone(0, 8, ZoneDma), NewZone(8, 16, ZoneNormal)]
  {
    OneRange(0, 32);
    RangeZones(0, 32);
  }

  lemma SplitCounters(s: State)
    requires BootedCounters(SplitMap(), s, 8, 9)
    ensures s.zones == [Zone(0, 8, 8, 7, ZoneDma), Zone(8, 16, 8, 8, ZoneNormal)] && Charged(s.zones, 8, 0) == Some(0)
  {
    SplitZones();
    SplitCharges(ZonesOf(SplitMap()));
    assert Wrap(7) == 7 && Wrap(8) == 8;
    hide *;
    ChargedAlike(s.zones, ZonesOf(SplitMap()), 8, 0);
    SplitRead(s, SplitMap());
  }

  lemma SplitRead(s: State, es: seq<Entry>)
    requires BootedCounters(es, s, 8, 9) && ZonesOf(es) == [NewZone(0, 8, ZoneDma), NewZone(8, 16, ZoneNormal)]
    requires ChargedCount(ZonesOf(es), 8, 9, 0) == 1 && ChargedCount(ZonesOf(es), 8, 9, 1) == 0
    requires Wrap(7) == 7 && Wrap(8) == 8
    ensures SameRanges(s.zones, ZonesOf(es))
    ensures s.zones == [Zone(0, 8, 8, 7, ZoneDma), Zone(8, 16, 8, 8, ZoneNormal)]
  {
    hide Wrap;
    hide ZonesOf;
    hide ChargedCount;
  }

  /** With the metadata in frame 8, the first above 16 MB, the zone below is charged for
      it, so both counters differ from the clear frames. */
  lemma MischargedExample(s: State)
    requires Initial(SplitMap(), s, 8, 9)
    ensures |s.zones| == 2 && InZone(s.zones[1], 8) && Charged(s.zones, 8, 0) == Some(0)
    ensures s.zones[0].nrFree == 7 && ZoneClear(s, 0) == 8
    ensures s.zones[1].nrFree == 8 && ZoneClear(s, 1) == 7
  {
    SplitZones();
    SplitCounters(s);
    hide SplitMap;
    hide ZonesOf;
    hide GoodMap;
    hide Charged;
    hide ZoneClear;
    hide BootedBits;
    hide BootedFrames;
    hide BootedCounters;
    hide Accounted;
    hide MetaHolders;
    BootClear(SplitMap(), s, 8, 9, 0);
    BootClear(SplitMap(), s, 8, 9, 1);
  }

  // ---------- the self-test ----------

  /** Usable memory from 128 to 132 MB, reserved from 148 to 150 MB. */
  function TestedMap(): seq<Entry> { [Range(128, 132, 1), Range(148, 150, 2)] }

  lemma TestedZones()
    ensures GoodMap(TestedMap()) && MaxPfn(TestedMap()) == 75 && TestFrame(ZonesOf(TestedMap())) == 74
    ensures ReservedFrame(TestedMap(), 74)
  {
    var a, b := Range(128, 132, 1), Range(148, 150, 2);
    RangeZones(128, 132);
    RangeFrames(148, 150, 2);
    assert !b.Usable() && ZonesOfEntry(b) == [];
    hide GoodMap;
    hide MaxPfn;
    hide ZonesOf;
    hide ZonesOfEntry;
    hide ReservedFrame;
    TwoRanges(128, 132, 1, 148, 150, 2);
    ReservedSecond(a, b, 74);
  }

  lemma ReservedSecond(a: Entry, b: Entry, p: nat)
    requires !b.Usable() && b.StartPfn() <= p < b.EndPfn()
    ensures ReservedFrame([a, b], p)
  {
    assert [a, b][1] == b;
  }

  /** The bit of the reserved frame 74 is clear after boot. */
  lemma SelfTestExample(s: State)
    requires Initial(TestedMap(), s, 1, 3)
    ensures ReservedFrame(TestedMap(), 74)
    ensures 74 < |s.frames| <= 64 * |s.bitmap| && !Marked(s.bitmap, 74)
  {
    TestedZones();
    hide TestedMap;
    hide MaxPfn;
    hide ZonesOf;
    hide ReservedFrame;
    hide TestFrame;
    hide Accounted;
    hide MetaHolders;
    hide BootedFrames;
    hide BootedCounters;
  }
}
