/** What init_memory leaves: the state in which the allocator's runs begin. */
module BootMemory {
  import opened MachineTypes
  import opened FrameSearch
  import opened FrameState
  import opened FrameRuns
  import opened MemoryMap

  function Truncated(entries: seq<Entry>): seq<Entry> {
    if |entries| > E820_MAX_ENTRIES then entries[..E820_MAX_ENTRIES] else entries
  }

  /** The firmware's map is cut behind its entry 64. */
  lemma MapCut(entries: seq<Entry>)
    ensures |Truncated(entries)| == (if |entries| <= 64 then |entries| else 64)
    ensures Truncated(entries) <= entries
  {
  }

  /** Frame 0 is booked to the first zone of the list whatever zone it is in, so
      a zone that starts at frame 0 must be the first; a sorted map gives that. */
  ghost predicate FirstZoneFirst(zs: seq<Zone>) { forall z :: 0 <= z < |zs| && zs[z].startPfn == 0 ==> z == 0 }

  /** The zones span the same ranges and differ in their free counters only. */
  ghost predicate SameRanges(zs: seq<Zone>, zs': seq<Zone>) {
    |zs| == |zs'| && forall z :: 0 <= z < |zs| ==> zs[z] == zs'[z].(nrFree := zs[z].nrFree)
  }

  /** Zone frames are free and know their zone, all others are reserved. */
  ghost predicate ZoneFramesSet(frames: seq<Frame>, zones: seq<Zone>) {
    && (forall z, p: nat :: 0 <= z < |zones| && InZone(zones[z], p) ==> p < |frames|)
    && (forall z, p: nat :: 0 <= z < |zones| && InZone(zones[z], p) ==> frames[p] == Frame(Some(z), p, 0, {}))
    && (forall p: nat :: p < |frames| && !SomeZone(zones, p) ==> frames[p] == Frame(None, p, 0, {Reserved}))
  }

  lemma ReservedGrows(es: seq<Entry>, i: nat)
    requires i < |es|
    ensures forall p: nat :: ReservedFrame(es[..i + 1], p) <==>
              ReservedFrame(es[..i], p) || (!es[i].Usable() && es[i].StartPfn() <= p < es[i].EndPfn())
  {
    var one, two := es[..i], es[..i + 1];
    forall p: nat
      ensures ReservedFrame(two, p) <==>
              ReservedFrame(one, p) || (!es[i].Usable() && es[i].StartPfn() <= p < es[i].EndPfn())
    {
      assert two[i] == es[i];
      if ReservedFrame(one, p) {
        var k :| 0 <= k < |one| && !one[k].Usable() && one[k].StartPfn() <= p < one[k].EndPfn();
        assert two[k] == one[k];
      }
      if ReservedFrame(two, p) {
        var k :| 0 <= k < |two| && !two[k].Usable() && two[k].StartPfn() <= p < two[k].EndPfn();
        if k < i { assert two[k] == one[k]; }
      }
    }
  }

  /** Zones may be added to a list one by one without overlap. */
  ghost predicate Addable(zones: seq<Zone>, more: seq<Zone>, limit: nat) {
    && (forall k :: 0 <= k < |more| ==> more[k].startPfn <= more[k].endPfn <= limit)
    && (forall k :: 0 <= k <= |more| ==> Disjoint(zones + more[..k]))
  }

  /** The zones of one more entry. */
  lemma PrefixZones(es: seq<Entry>, i: nat)
    requires GoodMap(es) && i < |es|
    ensures ZonesOf(es[..i + 1]) == ZonesOf(es[..i]) + ZonesOfEntry(es[i])
    ensures Addable(ZonesOf(es[..i]), ZonesOfEntry(es[i]), MaxPfn(es))
  {
    assert es[..i + 1][..i] == es[..i];
    ZonesSound(es[..i + 1]);
    EntryZones(es[i]);
    MaxPfnBound(es, i);
    var all := ZonesOf(es[..i + 1]);
    forall k | 0 <= k <= |ZonesOfEntry(es[i])|
      ensures Disjoint(ZonesOf(es[..i]) + ZonesOfEntry(es[i])[..k])
    {
      var part := ZonesOf(es[..i]) + ZonesOfEntry(es[i])[..k];
      assert forall z :: 0 <= z < |part| ==> part[z] == all[z];
    }
  }

  lemma ZoneAdded(before: seq<Frame>, after: seq<Frame>, zones: seq<Zone>, zone: Zone)
    requires Disjoint(zones + [zone]) && zone.startPfn <= zone.endPfn <= |before| == |after|
    requires ZoneFramesSet(before, zones)
    requires forall p :: 0 <= p < |after| ==>
               after[p] == if zone.startPfn <= p < zone.endPfn then Frame(Some(|zones|), p, 0, {}) else before[p]
    ensures ZoneFramesSet(after, zones + [zone])
  {
    var all := zones + [zone];
    assert all[|zones|] == zone;
    forall z, p: nat | 0 <= z < |all| && InZone(all[z], p)
      ensures p < |after| && after[p] == Frame(Some(z), p, 0, {})
    {
      if z < |zones| {
        assert InZone(zones[z], p);
      }
    }
    forall p: nat | p < |after| && !SomeZone(all, p)
      ensures after[p] == Frame(None, p, 0, {Reserved})
    {
      assert [zone][0] == zone;
      SomeZoneAppend(zones, [zone], p);
    }
  }

  // ---------- the metadata frames ----------

  /** The zone the reserve pass charges for a frame: the first from z up whose
      range, its end included, holds it. */
  function Charged(zones: seq<Zone>, pfn: nat, z: nat): (r: Option<nat>)
    ensures r.Some? ==> z <= r.value < |zones| && zones[r.value].startPfn <= pfn <= zones[r.value].endPfn
    ensures forall y :: z <= y < (if r.Some? then r.value else |zones|) ==> !(zones[y].startPfn <= pfn <= zones[y].endPfn)
    decreases |zones| - z
  {
    if z >= |zones| then None
    else if zones[z].startPfn <= pfn <= zones[z].endPfn then Some(z)
    else Charged(zones, pfn, z + 1)
  }

  /** A zone frame is charged to its own zone exactly when it does not lie right
      behind an earlier zone of the list. */
  lemma BoundaryFrameMischarged(zones: seq<Zone>, z: nat, p: nat)
    requires Disjoint(zones) && (forall y :: 0 <= y < |zones| ==> zones[y].startPfn < zones[y].endPfn)
    requires z < |zones| && InZone(zones[z], p)
    ensures Charged(zones, p, 0) == Some(z) <==> forall y :: 0 <= y < z ==> zones[y].endPfn != p
  {
    ChargedFirst(zones, z, p, 0);
    if y: nat :| y < z && zones[y].endPfn == p {
      ChargedFirst(zones, y, p, 0);
    } else {
      var c := Charged(zones, p, 0).value;
      assert InZone(zones[c], p) ==> c == z;
    }
  }

  lemma {:induction false} ChargedFirst(zones: seq<Zone>, y: nat, p: nat, i: nat)
    requires i <= y < |zones| && zones[y].startPfn <= p <= zones[y].endPfn
    ensures Charged(zones, p, i).Some? && Charged(zones, p, i).value <= y
    decreases y - i
  {
    if !(zones[i].startPfn <= p <= zones[i].endPfn) { ChargedFirst(zones, y, p, i + 1); }
  }

  function MetaFrame(f: Frame): Frame { f.(flags := {Kernel, Present, Writable, Used}, refCount := 1) }

  function ReserveOne(s: State, p: nat): State
    requires p < |s.frames| <= 64 * |s.bitmap|
  {
    var z := Charged(s.zones, p, 0);
    State(SetFrame(s.bitmap, p),
          s.frames[p := MetaFrame(s.frames[p])],
          if z.None? then s.zones
          else s.zones[z.value := s.zones[z.value].(nrFree := Wrap(s.zones[z.value].nrFree - 1))])
  }

  function ReserveRange(s: State, lo: nat, hi: nat): (r: State)
    requires lo <= hi <= |s.frames| <= 64 * |s.bitmap|
    ensures |r.bitmap| == |s.bitmap| && |r.frames| == |s.frames|
    decreases hi - lo
  {
    if lo == hi then s else ReserveOne(ReserveRange(s, lo, hi - 1), hi - 1)
  }

  lemma ReserveRangeNext(s: State, lo: nat, hi: nat)
    requires lo <= hi < |s.frames| <= 64 * |s.bitmap|
    ensures ReserveRange(s, lo, hi + 1) == ReserveOne(ReserveRange(s, lo, hi), hi)
  {
  }

  /** How many frames of a range are charged to zone z. */
  function ChargedCount(zones: seq<Zone>, lo: nat, hi: nat, z: nat): nat
    decreases hi - lo
  {
    if lo >= hi then 0 else ChargedCount(zones, lo, hi - 1, z) + if Charged(zones, hi - 1, 0) == Some(z) then 1 else 0
  }

  lemma NothingCharged(s: State, lo: nat)
    ensures forall z: nat :: z < |s.zones| ==> s.zones[z].nrFree == Wrap(s.zones[z].nrFree - ChargedCount(s.zones, lo, lo, z))
  {
  }

  /** Whom a frame is charged to does not depend on the counters. */
  lemma {:induction false} ChargedAlike(zs: seq<Zone>, zs': seq<Zone>, p: nat, z: nat)
    requires SameRanges(zs, zs')
    ensures Charged(zs, p, z) == Charged(zs', p, z)
    decreases |zs| - z
  {
    if z < |zs| { ChargedAlike(zs, zs', p, z + 1); }
  }

  /** What the reserve pass leaves: its bits and frames, and each counter lowered by
      the frames charged to the zone. */
  lemma {:induction false} ReserveEffect(s: State, lo: nat, hi: nat)
    requires lo <= hi <= |s.frames| <= 64 * |s.bitmap|
    ensures var r := ReserveRange(s, lo, hi);
      && SameRanges(r.zones, s.zones)
      && (forall p: nat :: p < 64 * |s.bitmap| ==> (Marked(r.bitmap, p) <==> Marked(s.bitmap, p) || lo <= p < hi))
      && (forall p: nat :: p < |s.frames| ==> r.frames[p] == if lo <= p < hi then MetaFrame(s.frames[p]) else s.frames[p])
      && (forall z: nat :: z < |s.zones| ==>
            r.zones[z].nrFree == Wrap(s.zones[z].nrFree - ChargedCount(s.zones, lo, hi, z)))
    decreases hi - lo
  {
    hide Charged;
    hide ChargedCount;
    hide Marked;
    hide MetaFrame;
    hide Wrap;
    hide SetFrame;
    if lo == hi {
      NothingCharged(s, lo);
    } else {
      ReserveEffect(s, lo, hi - 1);
      var before, r := ReserveRange(s, lo, hi - 1), ReserveRange(s, lo, hi);
      forall p: nat | p < 64 * |s.bitmap|
        ensures Marked(r.bitmap, p) <==> Marked(s.bitmap, p) || lo <= p < hi
      {
        MarkedAfterSet(before.bitmap, hi - 1, p);
      }
      ChargedAlike(before.zones, s.zones, hi - 1, 0);
      ReserveCounters(s, before, lo, hi);
    }
  }

  lemma ReserveCounters(s: State, before: State, lo: nat, hi: nat)
    requires lo < hi <= |s.frames| <= 64 * |s.bitmap| && before == ReserveRange(s, lo, hi - 1)
    requires SameRanges(before.zones, s.zones) && Charged(before.zones, hi - 1, 0) == Charged(s.zones, hi - 1, 0)
    requires forall z: nat :: z < |s.zones| ==>
               before.zones[z].nrFree == Wrap(s.zones[z].nrFree - ChargedCount(s.zones, lo, hi - 1, z))
    ensures var r := ReserveRange(s, lo, hi);
      && SameRanges(r.zones, s.zones)
      && (forall z: nat :: z < |s.zones| ==>
            r.zones[z].nrFree == Wrap(s.zones[z].nrFree - ChargedCount(s.zones, lo, hi, z)))
  {
    hide Charged;
    forall z: nat | z < |s.zones|
      ensures ReserveRange(s, lo, hi).zones[z].nrFree == Wrap(s.zones[z].nrFree - ChargedCount(s.zones, lo, hi, z))
    {
      WrapAgain(s.zones[z].nrFree - ChargedCount(s.zones, lo, hi - 1, z), -1);
    }
  }

  /** One holder for each managed metadata frame. */
  ghost function MetaHolders(zones: seq<Zone>, lo: nat, hi: nat): seq<Block>
    decreases hi - lo
  {
    if lo >= hi then []
    else MetaHolders(zones, lo, hi - 1) + if SomeZone(zones, hi - 1) then [Block(hi - 1, 1)] else []
  }

  lemma {:induction false} MetaHoldersCount(zones: seq<Zone>, lo: nat, hi: nat, p: nat)
    ensures Holders(MetaHolders(zones, lo, hi), p) == if lo <= p < hi && SomeZone(zones, p) then 1 else 0
    ensures forall b :: 0 <= b < |MetaHolders(zones, lo, hi)| ==>
              MetaHolders(zones, lo, hi)[b].n == 1 && SomeZone(zones, MetaHolders(zones, lo, hi)[b].start)
    decreases hi - lo
  {
    if lo < hi {
      MetaHoldersCount(zones, lo, hi - 1, p);
      var front := MetaHolders(zones, lo, hi - 1);
      if SomeZone(zones, hi - 1) {
        assert (front + [Block(hi - 1, 1)])[..|front|] == front;
      } else {
        assert front + [] == front;
      }
    }
  }

  // ---------- the self-test ----------

  /** The frame whose bit the self-test tries, ten behind the first zone's start; of a
      list without zones the record read is all zeros. */
  function TestFrame(zones: seq<Zone>): nat { (if zones == [] then 0 else zones[0].startPfn) + 10 }

  /** The self-test sets a bit and clears it "to restore it". */
  function SelfTest(bitmap: seq<Word64>, p: nat): (r: seq<Word64>)
    ensures |r| == |bitmap|
  {
    if p < 64 * |bitmap| then ClearFrame(SetFrame(bitmap, p), p) else bitmap
  }

  lemma MarkedAfterTest(bitmap: seq<Word64>, p: nat, q: nat)
    requires q < 64 * |bitmap|
    ensures Marked(SelfTest(bitmap, p), q) <==> Marked(bitmap, q) && q != p
  {
    if p < 64 * |bitmap| {
      MarkedAfterSet(bitmap, p, q);
      MarkedAfterClear(SetFrame(bitmap, p), p, q);
    }
  }

  /** It leaves every bit as it was exactly when the one it tries was clear. */
  lemma SelfTestRestores(bitmap: seq<Word64>, p: nat)
    requires p < 64 * |bitmap|
    ensures (forall q: nat :: q < 64 * |bitmap| ==> (Marked(SelfTest(bitmap, p), q) <==> Marked(bitmap, q)))
      <==> !Marked(bitmap, p)
  {
    forall q: nat | q < 64 * |bitmap|
      ensures Marked(SelfTest(bitmap, p), q) <==> Marked(bitmap, q) && q != p
    {
      MarkedAfterTest(bitmap, p, q);
    }
  }

  // ---------- putting it together ----------

  /** The frames marked before the metadata: the reserved ones but for frame 0 and the
      one whose bit the self-test clears. */
  ghost predicate StillReserved(es: seq<Entry>, p: nat) { ReservedFrame(es, p) && p != 0 && p != TestFrame(ZonesOf(es)) }

  /** The state before the metadata frames are taken out: every zone frame is free
      and knows its zone, but for frame 0, which is given to the first zone. */
  ghost predicate Fresh(es: seq<Entry>, s: State) {
    && |s.frames| == MaxPfn(es) + 1 <= 64 * |s.bitmap|
    && s.zones == ZonesOf(es)
    && (forall p: nat :: p < |s.frames| ==> (Marked(s.bitmap, p) <==> StillReserved(es, p)))
    && (forall p: nat :: p < |s.frames| && SomeZone(s.zones, p) ==> s.frames[p].flags == {} && s.frames[p].refCount == 0)
    && (forall p: nat :: p < |s.frames| ==> s.frames[p].pfn == p)
    && (forall z: nat, p: nat :: z < |s.zones| && InZone(s.zones[z], p) && 0 < p < |s.frames| ==>
          s.frames[p].zone == Some(z))
    && s.frames[0] == Frame(Some(0), 0, 0, {})
    && (forall p: nat :: 0 < p < |s.frames| && !SomeZone(s.zones, p) ==> s.frames[p] == Frame(None, p, 0, {Reserved}))
  }

  lemma FreshState(es: seq<Entry>, s0: State, s: State)
    requires |s0.frames| == MaxPfn(es) + 1 <= 64 * |s0.bitmap| && s0.zones == ZonesOf(es)
    requires ZoneFramesSet(s0.frames, s0.zones)
    requires forall p: nat :: p < 64 * |s0.bitmap| ==> (Marked(s0.bitmap, p) <==> ReservedFrame(es, p))
    requires s == State(SelfTest(ClearFrame(s0.bitmap, 0), TestFrame(s0.zones)),
                        s0.frames[0 := Frame(Some(0), 0, 0, {})], s0.zones)
    ensures Fresh(es, s)
  {
    hide ReservedFrame;
    hide ZonesOf;
    hide MaxPfn;
    hide Marked;
    hide SelfTest;
    hide TestFrame;
    forall p: nat | p < |s.frames|
      ensures Marked(s.bitmap, p) <==> StillReserved(es, p)
    {
      MarkedAfterClear(s0.bitmap, 0, p);
      MarkedAfterTest(ClearFrame(s0.bitmap, 0), TestFrame(s0.zones), p);
    }
    forall p: nat | p < |s.frames|
      ensures s.frames[p].pfn == p
    {
      if SomeZone(s0.zones, p) { var z :| 0 <= z < |s0.zones| && InZone(s0.zones[z], p); }
    }
  }

  /** Zones and frames fit each other exactly when no zone but the first starts at
      frame 0: that frame is given to the first zone wherever it lies. */
  lemma ShapedIff(es: seq<Entry>, s: State)
    requires GoodMap(es) && Fresh(es, s)
    ensures Shaped(s) <==> FirstZoneFirst(ZonesOf(es))
  {
    ZonesSound(es);
    forall z: nat | z < |s.zones|
      ensures s.zones[z].startPfn < s.zones[z].endPfn <= MaxPfn(es)
      ensures InZone(s.zones[z], 0) <==> s.zones[z].startPfn == 0
    {
      assert WellMade(ZonesOf(es)[z], MaxPfn(es));
    }
  }

  /** The bits of reserved and metadata frames are set, but for the two cleared. */
  ghost predicate BootedBits(es: seq<Entry>, s: State, lo: nat, hi: nat) {
    && |s.frames| == MaxPfn(es) + 1 <= 64 * |s.bitmap|
    && forall p: nat :: p < |s.frames| ==>
         (Marked(s.bitmap, p) <==> StillReserved(es, p) || lo <= p < hi)
  }

  /** On zone frames bit, flag and count are equivalent, one on metadata frames only. */
  ghost predicate BootedFrames(s: State, lo: nat, hi: nat)
    requires |s.frames| <= 64 * |s.bitmap|
  {
    forall p: nat :: p < |s.frames| && SomeZone(s.zones, p) ==>
      Agrees(s, p) && s.frames[p].refCount == if lo <= p < hi then 1 else 0
  }

  /** Metadata frames are the kernel's, present, writable, used and counted once; all
      others are uncounted, zone frames and frame 0 without flags, the rest reserved. */
  ghost predicate BootedFlags(s: State, lo: nat, hi: nat) {
    forall p: nat :: p < |s.frames| ==>
      if lo <= p < hi then s.frames[p].flags == {Kernel, Present, Writable, Used} && s.frames[p].refCount == 1
      else s.frames[p].refCount == 0 && s.frames[p].flags == if p == 0 || SomeZone(s.zones, p) then {} else {Reserved}
  }

  /** Each counter is the zone's pages less the frames charged to it. */
  ghost predicate BootedCounters(es: seq<Entry>, s: State, lo: nat, hi: nat) {
    && SameRanges(s.zones, ZonesOf(es))
    && forall z: nat :: z < |s.zones| ==>
         s.zones[z].nrFree == Wrap(s.zones[z].totalPages - ChargedCount(ZonesOf(es), lo, hi, z))
  }

  /** What initialisation leaves for every map. */
  ghost predicate Booted(es: seq<Entry>, s: State, lo: nat, hi: nat) {
    BootedBits(es, s, lo, hi) && BootedFrames(s, lo, hi) && BootedFlags(s, lo, hi) && BootedCounters(es, s, lo, hi)
  }

  /** The state in which runs begin, each metadata frame held once. */
  ghost predicate Initial(es: seq<Entry>, s: State, lo: nat, hi: nat) {
    Booted(es, s, lo, hi) && Accounted(s, MetaHolders(s.zones, lo, hi))
  }

  lemma MetadataAgrees(es: seq<Entry>, s: State, lo: nat, hi: nat, p: nat)
    requires GoodMap(es) && Fresh(es, s) && lo <= hi <= |s.frames| && p < |s.frames| && SomeZone(s.zones, p)
    ensures var r := ReserveRange(s, lo, hi);
      Agrees(r, p) && r.frames[p].refCount == if lo <= p < hi then 1 else 0
  {
    ReserveEffect(s, lo, hi);
    var z: nat :| z < |s.zones| && InZone(s.zones[z], p);
    ZoneFrameNotReserved(es, z, p);
  }

  lemma MetadataWithin(r: State, lo: nat, hi: nat, held: seq<Block>)
    requires held == MetaHolders(r.zones, lo, hi)
    ensures forall b :: 0 <= b < |held| ==> WithinSome(r, held[b])
  {
    forall b | 0 <= b < |held|
      ensures WithinSome(r, held[b])
    {
      MetaHoldersCount(r.zones, lo, hi, 0);
      var z: nat :| z < |r.zones| && InZone(r.zones[z], held[b].start);
      assert Within(r, held[b], z);
    }
  }

  /** The reserve pass keeps zones and frames as fitting, or not, as they were. */
  lemma ReservedShape(es: seq<Entry>, s: State, lo: nat, hi: nat)
    requires Fresh(es, s) && lo <= hi <= |s.frames|
    ensures var r := ReserveRange(s, lo, hi);
      && (Shaped(r) <==> Shaped(s))
      && forall p: nat :: SomeZone(r.zones, p) <==> SomeZone(s.zones, p)
  {
    var r := ReserveRange(s, lo, hi);
    ReserveEffect(s, lo, hi);
    hide ReserveRange;
    hide Fresh;
    hide Marked;
    hide ChargedCount;
    hide Shaped;
    hide SomeZone;
    ShapedAlike(s, r);
  }

  /** States alike in zone ranges, frame numbers and frame zones. */
  lemma ShapedAlike(s: State, r: State)
    requires |r.frames| == |s.frames| && |r.bitmap| == |s.bitmap| && SameRanges(r.zones, s.zones)
    requires forall p :: 0 <= p < |s.frames| ==> r.frames[p].zone == s.frames[p].zone && r.frames[p].pfn == s.frames[p].pfn
    ensures Shaped(r) <==> Shaped(s)
    ensures forall p: nat :: SomeZone(r.zones, p) <==> SomeZone(s.zones, p)
  {
    assert forall z, p: nat :: 0 <= z < |s.zones| ==> (InZone(r.zones[z], p) <==> InZone(s.zones[z], p));
  }

  /** The counters start at the zones' page counts. */
  lemma FullCounter(es: seq<Entry>, z: nat)
    requires GoodMap(es) && z < |ZonesOf(es)|
    ensures ZonesOf(es)[z].nrFree == ZonesOf(es)[z].totalPages
  {
    ZonesSound(es);
    assert WellMade(ZonesOf(es)[z], MaxPfn(es));
  }

  lemma MetadataBits(es: seq<Entry>, s: State, lo: nat, hi: nat)
    requires Fresh(es, s) && lo <= hi <= |s.frames|
    ensures BootedBits(es, ReserveRange(s, lo, hi), lo, hi)
  {
    ReserveEffect(s, lo, hi);
    hide ReserveRange;
    hide ReservedFrame;
    hide Marked;
    hide ChargedCount;
    hide SomeZone;
  }

  lemma MetadataFrames(es: seq<Entry>, s: State, lo: nat, hi: nat)
    requires GoodMap(es) && Fresh(es, s) && lo <= hi <= |s.frames|
    ensures BootedFrames(ReserveRange(s, lo, hi), lo, hi)
  {
    var r := ReserveRange(s, lo, hi);
    ReservedShape(es, s, lo, hi);
    assert |s.frames| <= 64 * |s.bitmap|;
    hide ReserveRange;
    hide Fresh;
    hide GoodMap;
    hide Agrees;
    hide SomeZone;
    hide Shaped;
    forall p: nat | p < |r.frames| && SomeZone(r.zones, p)
      ensures Agrees(r, p) && r.frames[p].refCount == if lo <= p < hi then 1 else 0
    {
      MetadataAgrees(es, s, lo, hi, p);
    }
  }

  lemma MetadataFlags(es: seq<Entry>, s: State, lo: nat, hi: nat)
    requires Fresh(es, s) && lo <= hi <= |s.frames|
    ensures BootedFlags(ReserveRange(s, lo, hi), lo, hi)
  {
    var r := ReserveRange(s, lo, hi);
    FreshFlags(es, s);
    ReservedShape(es, s, lo, hi);
    ReserveEffect(s, lo, hi);
    hide *;
    FlagsAfter(s, r, lo, hi);
  }

  /** Before the metadata is taken no frame is marked as used. */
  lemma FreshFlags(es: seq<Entry>, s: State)
    requires Fresh(es, s)
    ensures BootedFlags(s, 0, 0)
  {
    hide Marked;
    hide StillReserved;
    hide ZonesOf;
    hide MaxPfn;
    hide SomeZone;
  }

  lemma FlagsAfter(s: State, r: State, lo: nat, hi: nat)
    requires BootedFlags(s, 0, 0) && |r.frames| == |s.frames| && forall p: nat :: SomeZone(r.zones, p) <==> SomeZone(s.zones, p)
    requires forall p: nat :: p < |s.frames| ==> r.frames[p] == if lo <= p < hi then MetaFrame(s.frames[p]) else s.frames[p]
    ensures BootedFlags(r, lo, hi)
  {
    hide SomeZone;
  }

  /** What page_init does to a metadata frame of a zone: without the user flag the count
      stays one and the flags are added; with it the frame counts as shared. */
  lemma MetadataShare(es: seq<Entry>, s: State, lo: nat, hi: nat, p: nat, flags: Flags)
    requires Booted(es, s, lo, hi) && lo <= p < hi && p < |s.frames|
    requires s.frames[p].zone.Some? && s.frames[p].zone.value < |s.zones|
    ensures var f := PageInit(s, p, flags).frames[p];
      && f.flags == {Kernel, Present, Writable, Used} + flags
      && f.refCount == if User in flags then 2 else 1
  {
    hide BootedBits;
    hide BootedFrames;
    hide BootedCounters;
  }

  lemma CounterAt(es: seq<Entry>, s: State, r: State, lo: nat, hi: nat, z: nat)
    requires GoodMap(es) && s.zones == ZonesOf(es) && SameRanges(r.zones, s.zones) && z < |r.zones|
    requires r.zones[z].nrFree == Wrap(s.zones[z].nrFree - ChargedCount(s.zones, lo, hi, z))
    ensures r.zones[z].nrFree == Wrap(r.zones[z].totalPages - ChargedCount(ZonesOf(es), lo, hi, z))
  {
    FullCounter(es, z);
  }

  lemma MetadataCounters(es: seq<Entry>, s: State, lo: nat, hi: nat)
    requires GoodMap(es) && Fresh(es, s) && lo <= hi <= |s.frames|
    ensures BootedCounters(es, ReserveRange(s, lo, hi), lo, hi)
  {
    assert s.zones == ZonesOf(es) && |s.frames| <= 64 * |s.bitmap|;
    hide *;
    var r := ReserveRange(s, lo, hi);
    ReserveEffect(s, lo, hi);
    CountersAll(es, s, r, lo, hi);
  }

  lemma CountersAll(es: seq<Entry>, s: State, r: State, lo: nat, hi: nat)
    requires GoodMap(es) && s.zones == ZonesOf(es) && SameRanges(r.zones, s.zones)
    requires forall z: nat :: z < |s.zones| ==>
               r.zones[z].nrFree == Wrap(s.zones[z].nrFree - ChargedCount(s.zones, lo, hi, z))
    ensures BootedCounters(es, r, lo, hi)
  {
    hide Wrap;
    hide ZonesOf;
    hide GoodMap;
    hide ChargedCount;
    forall z: nat | z < |r.zones|
      ensures r.zones[z].nrFree == Wrap(r.zones[z].totalPages - ChargedCount(ZonesOf(es), lo, hi, z))
    {
      CounterAt(es, s, r, lo, hi, z);
    }
  }

  /** After init_memory bit, flag, count and counters are as they should for every
      map; the zones are fit for runs exactly when only the first starts at frame 0. */
  lemma MetadataTaken(es: seq<Entry>, s: State, lo: nat, hi: nat)
    requires GoodMap(es) && Fresh(es, s) && lo <= hi <= |s.frames|
    ensures Booted(es, ReserveRange(s, lo, hi), lo, hi)
    ensures Initial(es, ReserveRange(s, lo, hi), lo, hi) <==> FirstZoneFirst(ZonesOf(es))
  {
    var r := ReserveRange(s, lo, hi);
    var held := MetaHolders(r.zones, lo, hi);
    MetadataBits(es, s, lo, hi);
    MetadataFrames(es, s, lo, hi);
    MetadataFlags(es, s, lo, hi);
    MetadataCounters(es, s, lo, hi);
    ReservedShape(es, s, lo, hi);
    ShapedIff(es, s);
    MetadataWithin(r, lo, hi, held);
    if Shaped(r) { BootedAccounted(es, r, lo, hi, held); }
  }

  lemma BootedAccounted(es: seq<Entry>, r: State, lo: nat, hi: nat, held: seq<Block>)
    requires Booted(es, r, lo, hi) && Shaped(r) && held == MetaHolders(r.zones, lo, hi)
    requires forall b :: 0 <= b < |held| ==> WithinSome(r, held[b])
    ensures Accounted(r, held)
  {
    hide MetaHolders;
    hide Holders;
    hide Agrees;
    hide WithinSome;
    hide Marked;
    hide ChargedCount;
    forall p: nat | p < |r.frames| && Managed(r, p)
      ensures Agrees(r, p) && r.frames[p].refCount == Holders(held, p)
    {
      assert SomeZone(r.zones, p);
      MetaHoldersCount(r.zones, lo, hi, p);
    }
  }

  // ---------- the counters from boot on ----------

  /** How many frames of a zone lie in a range. */
  function Overlap(zone: Zone, lo: nat, hi: nat): nat {
    var a := if zone.startPfn > lo then zone.startPfn else lo;
    var b := if zone.endPfn < hi then zone.endPfn else hi;
    if a < b then b - a else 0
  }

  lemma {:induction false} ClearCountRange(bitmap: seq<Word64>, a: nat, b: nat, lo: nat, hi: nat)
    requires b <= 64 * |bitmap| && a <= b
    requires forall q :: a <= q < b ==> (Marked(bitmap, q) <==> lo <= q < hi)
    ensures ClearCount(bitmap, a, b) == b - a - Overlap(Zone(a, b, 0, 0, ZoneDma), lo, hi)
    decreases b
  {
    if a < b { ClearCountRange(bitmap, a, b - 1, lo, hi); }
  }

  /** A zone's clear frames after boot: its pages less its metadata frames. */
  lemma BootClear(es: seq<Entry>, s: State, lo: nat, hi: nat, z: nat)
    requires GoodMap(es) && Initial(es, s, lo, hi) && z < |s.zones|
    ensures ZoneClear(s, z) == s.zones[z].totalPages - Overlap(s.zones[z], lo, hi)
  {
    ZonesSound(es);
    assert WellMade(ZonesOf(es)[z], MaxPfn(es));
    var a, b := s.zones[z].startPfn, s.zones[z].endPfn;
    forall q | a <= q < b
      ensures Marked(s.bitmap, q) <==> lo <= q < hi
    {
      ZoneFrameNotReserved(es, z, q);
    }
    ClearCountRange(s.bitmap, a, b, lo, hi);
  }

  /** After any run from boot a zone's counter is its clear frames, less the frames
      ever handed out, plus its own metadata frames, less the frames charged to it,
      modulo 2^64. */
  lemma LedgerFromBoot(es: seq<Entry>, s: State, lo: nat, hi: nat, ops: seq<Op>, z: nat)
    requires GoodMap(es) && Initial(es, s, lo, hi) && z < |s.zones|
    requires RunAllowed(s, MetaHolders(s.zones, lo, hi), ops)
    ensures var held := MetaHolders(s.zones, lo, hi);
      var last := RunState(s, held, ops).0;
      && z < |last.zones|
      && last.zones[z].nrFree == Wrap(ZoneClear(last, z) - EverTaken(s, held, ops, z)
           + Overlap(s.zones[z], lo, hi) - ChargedCount(ZonesOf(es), lo, hi, z))
  {
    hide *;
    var held := MetaHolders(s.zones, lo, hi);
    BootCounter(es, s, lo, hi, z);
    BootClear(es, s, lo, hi, z);
    Ledger(s, held, ops, z);
    var last := RunState(s, held, ops).0;
    AccountedShape(last, RunState(s, held, ops).1);
    BookedFrom(s.zones[z].nrFree, last.zones[z].nrFree, ZoneClear(s, z), ZoneClear(last, z), EverTaken(s, held, ops, z),
               s.zones[z].totalPages, Overlap(s.zones[z], lo, hi), ChargedCount(ZonesOf(es), lo, hi, z));
  }

  lemma BootCounter(es: seq<Entry>, s: State, lo: nat, hi: nat, z: nat)
    requires Initial(es, s, lo, hi) && z < |s.zones|
    ensures Accounted(s, MetaHolders(s.zones, lo, hi)) && Shaped(s) && z < |ZonesOf(es)|
    ensures s.zones[z].nrFree == Wrap(s.zones[z].totalPages - ChargedCount(ZonesOf(es), lo, hi, z))
  {
    hide Wrap;
    hide ZonesOf;
    hide ChargedCount;
    hide MetaHolders;
    hide ReservedFrame;
    hide Agrees;
    hide Holders;
  }

  lemma AccountedShape(s: State, held: seq<Block>)
    requires Accounted(s, held)
    ensures Shaped(s)
  {
  }

  lemma BookedFrom(c: Word64, c': Word64, clear: nat, clear': nat, took: nat, pages: nat, own: nat, charged: nat)
    requires Booked(c, c', clear, clear', took) && c == Wrap(pages - charged) && clear == pages - own
    ensures c' == Wrap(clear' - took + own - charged)
  {
    WrapAgain(pages - charged, clear' - clear - took);
  }
}
