/** The frame allocator as it runs: bitmap words, frame records and zone records
    updated in place, set up from the memory map. */
module FrameAllocator {
  import opened MachineTypes
  import opened Words
  import opened FrameSearch
  import opened FrameState
  import opened MemoryMap
  import opened BootMemory

  class MemoryManager {
    var bitmap: array<Word64>
    var frames: array<Frame>
    var zones: seq<Zone>
    var totalPages: nat

    ghost function Snapshot(): State
      reads this, bitmap, frames
    {
      State(bitmap[..], frames[..], zones)
    }

    // ---------- init_memory ----------

    /** The passes over the memory map, then the frames from metaStart up to
        metaEnd kept for the allocator's own tables. The map is cut at 64 entries. */
    constructor (entries: seq<Entry>, metaStart: nat, metaEnd: nat)
      requires GoodMap(Truncated(entries))
      requires metaStart <= metaEnd <= MaxPfn(Truncated(entries)) + 1
      ensures fresh(bitmap) && fresh(frames)
      ensures totalPages == CountPages(Truncated(entries))
      ensures Booted(Truncated(entries), Snapshot(), metaStart, metaEnd)
      ensures Initial(Truncated(entries), Snapshot(), metaStart, metaEnd) <==> FirstZoneFirst(ZonesOf(Truncated(entries)))
    {
      var es := if |entries| > E820_MAX_ENTRIES then entries[..E820_MAX_ENTRIES] else entries;
      var total, maxPfn := CountPass(es);
      totalPages := total;
      bitmap := new Word64[(maxPfn + 1 + 63) / 64](_ => 0);
      frames := new Frame[maxPfn + 1](p requires p >= 0 => Frame(None, p, 0, {Reserved}));
      zones := [];
      new;
      forall p: nat | p < 64 * bitmap.Length
        ensures !Marked(bitmap[..], p)
      {
        BitZero(p % 64);
      }
      Setup(es, metaStart, metaEnd);
    }

    method Setup(es: seq<Entry>, metaStart: nat, metaEnd: nat)
      requires GoodMap(es) && metaStart <= metaEnd <= MaxPfn(es) + 1
      requires zones == [] && frames.Length == MaxPfn(es) + 1 <= 64 * bitmap.Length
      requires forall p: nat :: p < 64 * bitmap.Length ==> !Marked(bitmap[..], p)
      requires forall p :: 0 <= p < frames.Length ==> frames[p] == Frame(None, p, 0, {Reserved})
      modifies this`zones, frames, bitmap
      ensures Booted(es, Snapshot(), metaStart, metaEnd)
      ensures Initial(es, Snapshot(), metaStart, metaEnd) <==> FirstZoneFirst(ZonesOf(es))
    {
      forall i | 0 <= i < |es|
        ensures es[i].EndPfn() <= 64 * bitmap.Length
      {
        MaxPfnBound(es, i);
      }
      MarkReserved(es);
      ZonePass(es);
      ghost var s0 := Snapshot();
      FrameZero();
      SelfTest();
      ghost var s := Snapshot();
      FreshState(es, s0, s);
      ReserveMetadata(metaStart, metaEnd);
      MetadataTaken(es, s, metaStart, metaEnd);
    }

    /** Usable 2 MB pages and the highest frame number of any entry. */
    static method CountPass(es: seq<Entry>) returns (total: nat, maxPfn: nat)
      ensures total == CountPages(es) && maxPfn == MaxPfn(es)
    {
      total, maxPfn := 0, 0;
      var i := 0;
      while i < |es|
        invariant 0 <= i <= |es| && total == CountPages(es[..i]) && maxPfn == MaxPfn(es[..i])
      {
        assert es[..i + 1][..i] == es[..i];
        var end := es[i].End();
        if end / PAGE_2M > maxPfn { maxPfn := end / PAGE_2M; }
        if es[i].kind == 1 && es[i].Length() != 0 {
          var alignedBase, alignedEnd := AlignUp(es[i].Base()), AlignDown(end);
          if alignedBase < alignedEnd {
            total := total + (alignedEnd - alignedBase) / PAGE_2M;
          }
        }
        i := i + 1;
      }
      assert es[..|es|] == es;
    }

    method SetMark(p: nat)
      requires p < 64 * bitmap.Length
      modifies bitmap
      ensures bitmap[..] == SetFrame(old(bitmap[..]), p)
    {
      bitmap[p / 64] := SetBit(bitmap[p / 64], p % 64);
    }

    /** Marks the whole 2 MB frames of every entry that is not usable. */
    method MarkReserved(es: seq<Entry>)
      requires forall i :: 0 <= i < |es| ==> es[i].NoWrap() && es[i].EndPfn() <= 64 * bitmap.Length
      requires forall p: nat :: p < 64 * bitmap.Length ==> !Marked(bitmap[..], p)
      modifies bitmap
      ensures forall p: nat :: p < 64 * bitmap.Length ==> (Marked(bitmap[..], p) <==> ReservedFrame(es, p))
    {
      var i := 0;
      while i < |es|
        invariant 0 <= i <= |es|
        invariant forall p: nat :: p < 64 * bitmap.Length ==> (Marked(bitmap[..], p) <==> ReservedFrame(es[..i], p))
      {
        if es[i].kind != 1 {
          var pfn, end := es[i].StartPfn(), es[i].EndPfn();
          ghost var before, start := bitmap[..], pfn;
          while pfn < end
            invariant start <= pfn && (pfn <= end || pfn == start)
            invariant forall p: nat :: p < 64 * bitmap.Length ==>
                        (Marked(bitmap[..], p) <==> Marked(before, p) || start <= p < pfn)
          {
            ghost var last := bitmap[..];
            SetMark(pfn);
            forall p: nat | p < 64 * bitmap.Length
              ensures Marked(bitmap[..], p) <==> Marked(last, p) || p == pfn
            {
              MarkedAfterSet(last, pfn, p);
            }
            pfn := pfn + 1;
          }
        }
        ReservedGrows(es, i);
        i := i + 1;
      }
      assert es[..|es|] == es;
    }

    /** Builds the zones of every usable entry and hands them their frames. */
    method ZonePass(es: seq<Entry>)
      requires GoodMap(es) && zones == [] && frames.Length == MaxPfn(es) + 1
      requires forall p :: 0 <= p < frames.Length ==> frames[p] == Frame(None, p, 0, {Reserved})
      modifies this`zones, frames
      ensures zones == ZonesOf(es)
      ensures ZoneFramesSet(frames[..], zones)
    {
      var i := 0;
      while i < |es|
        invariant 0 <= i <= |es| && zones == ZonesOf(es[..i])
        invariant ZoneFramesSet(frames[..], zones)
      {
        PrefixZones(es, i);
        AddEntry(es[i]);
        i := i + 1;
      }
      assert es[..|es|] == es;
    }

    method AddEntry(e: Entry)
      requires e.NoWrap() && Addable(zones, ZonesOfEntry(e), frames.Length)
      requires ZoneFramesSet(frames[..], zones)
      modifies this`zones, frames
      ensures zones == old(zones) + ZonesOfEntry(e) && ZoneFramesSet(frames[..], zones)
    {
      var start, end := AlignUp(e.Base()), AlignDown(e.End());
      if e.kind != 1 || end <= start { return; }
      ghost var before, zs := zones, ZonesOfEntry(e);
      if start < DMA_BOUNDARY && end > DMA_BOUNDARY {
        assert zs[..1] == [zs[0]] && zs[..2] == [zs[0], zs[1]];
        AddZone(NewZone(start / PAGE_2M, DMA_BOUNDARY / PAGE_2M, ZoneDma));
        assert zones + [zs[1]] == before + zs[..2];
        AddZone(NewZone(DMA_BOUNDARY / PAGE_2M, end / PAGE_2M, ZoneNormal));
      } else {
        assert zs[..1] == [zs[0]];
        AddZone(NewZone(start / PAGE_2M, end / PAGE_2M, if start < DMA_BOUNDARY then ZoneDma else ZoneNormal));
      }
    }

    method AddZone(zone: Zone)
      requires Disjoint(zones + [zone]) && zone.startPfn <= zone.endPfn <= frames.Length
      requires ZoneFramesSet(frames[..], zones)
      modifies this`zones, frames
      ensures zones == old(zones) + [zone] && ZoneFramesSet(frames[..], zones)
    {
      var j := 0;
      ghost var before := frames[..];
      while j < zone.endPfn - zone.startPfn
        invariant 0 <= j <= zone.endPfn - zone.startPfn && zones == old(zones)
        invariant forall p :: 0 <= p < frames.Length ==>
          frames[p] == if zone.startPfn <= p < zone.startPfn + j then Frame(Some(|zones|), p, 0, {}) else before[p]
      {
        frames[zone.startPfn + j] := Frame(Some(|zones|), zone.startPfn + j, 0, {});
        j := j + 1;
      }
      ZoneAdded(before, frames[..], zones, zone);
      zones := zones + [zone];
    }

    /** Frame 0 is given to the first zone and unmarked. */
    method FrameZero()
      requires frames.Length > 0 && bitmap.Length > 0
      modifies frames, bitmap
      ensures frames[..] == old(frames[..])[0 := Frame(Some(0), 0, 0, {})]
      ensures bitmap[..] == ClearFrame(old(bitmap[..]), 0)
    {
      frames[0] := Frame(Some(0), 0, 0, {});
      bitmap[0] := ClearBit(bitmap[0], 0);
    }

    /** Sets the bit ten frames behind the first zone's start and clears it again;
        where the bitmap has no such bit, nothing of it changes. */
    method SelfTest()
      modifies bitmap
      ensures bitmap[..] == BootMemory.SelfTest(old(bitmap[..]), TestFrame(zones))
    {
      var testPfn := (if zones == [] then 0 else zones[0].startPfn) + 10;
      if testPfn < 64 * bitmap.Length {
        SetMark(testPfn);
        bitmap[testPfn / 64] := ClearBit(bitmap[testPfn / 64], testPfn % 64);
      }
    }

    /** Takes the frames of the allocator's own tables out of use. */
    method ReserveMetadata(metaStart: nat, metaEnd: nat)
      requires metaStart <= metaEnd <= frames.Length <= 64 * bitmap.Length
      modifies this`zones, frames, bitmap
      ensures Snapshot() == ReserveRange(old(Snapshot()), metaStart, metaEnd)
    {
      ghost var s := Snapshot();
      var pfn := metaStart;
      assert ReserveRange(s, pfn, pfn) == s;
      hide ReserveRange;
      hide ReserveOne;
      while pfn < metaEnd
        invariant metaStart <= pfn <= metaEnd
        invariant Snapshot() == ReserveRange(s, metaStart, pfn)
      {
        ReserveRangeNext(s, metaStart, pfn);
        ReserveFrame(pfn);
        pfn := pfn + 1;
      }
    }

    method ReserveFrame(pfn: nat)
      requires pfn < frames.Length <= 64 * bitmap.Length
      modifies this`zones, frames, bitmap
      ensures Snapshot() == ReserveOne(old(Snapshot()), pfn)
    {
      SetMark(pfn);
      frames[pfn] := frames[pfn].(flags := {Kernel, Present, Writable, Used}, refCount := 1);
      var z := ChargedZone(pfn);
      if z.Some? {
        zones := zones[z.value := zones[z.value].(nrFree := Wrap(zones[z.value].nrFree - 1))];
      }
    }

    method ChargedZone(pfn: nat) returns (charged: Option<nat>)
      ensures charged == Charged(zones, pfn, 0)
    {
      var z := 0;
      while z < |zones|
        invariant 0 <= z <= |zones| && Charged(zones, pfn, z) == Charged(zones, pfn, 0)
      {
        if zones[z].startPfn <= pfn <= zones[z].endPfn { return Some(z); }
        z := z + 1;
      }
      charged := None;
    }

    // ---------- page_init ----------

    method PageInit(p: nat, flags: Flags)
      requires p < frames.Length && frames[p].zone.Some? && frames[p].zone.value < |zones|
      modifies this`zones, frames
      ensures Snapshot() == FrameState.PageInit(old(Snapshot()), p, flags)
    {
      var z := frames[p].zone.value;
      if Used !in frames[p].flags {
        frames[p] := frames[p].(flags := flags + {Used}, refCount := 1);
        zones := zones[z := zones[z].(nrFree := Wrap(zones[z].nrFree - 1))];
        return;
      }
      if User in frames[p].flags || User in flags {
        frames[p] := frames[p].(flags := frames[p].flags + flags, refCount := (frames[p].refCount + 1) % 0x1_0000);
        return;
      }
      frames[p] := frames[p].(flags := frames[p].flags + flags);
    }

    // ---------- alloc_pages ----------

    method ChooseZone(kind: ZoneType, n: nat) returns (target: Option<nat>)
      ensures target == FrameState.ChooseZone(zones, kind, n, 0)
    {
      var i := 0;
      while i < |zones|
        invariant 0 <= i <= |zones|
        invariant FrameState.ChooseZone(zones, kind, n, i) == FrameState.ChooseZone(zones, kind, n, 0)
      {
        if zones[i].kind == kind && zones[i].nrFree >= n { return Some(i); }
        i := i + 1;
      }
      target := None;
    }

    /** Whether the whole words of a word-aligned block are zero. */
    method WordsZero(bit: nat, needed: nat) returns (found: bool)
      requires bit % 64 == 0 && bit + 64 * needed <= 64 * bitmap.Length
      ensures found <==> RunClear(bitmap[..], bit, 64 * needed)
    {
      var j := 0;
      while j < needed
        invariant 0 <= j <= needed && RunClear(bitmap[..], bit, 64 * j)
      {
        ProbeNextWord(bitmap[..], bit, j);
        if bitmap[bit / 64 + j] != 0 {
          RunSplit(bitmap[..], bit, 64 * j + 64, 64 * needed);
          return false;
        }
        j := j + 1;
      }
      found := true;
    }

    /** One probe of the search: the three cases by word position. */
    method Probe(bit: nat, n: nat) returns (found: bool, next: nat)
      requires AtProbe(n, bit) && bit + n <= 64 * bitmap.Length
      ensures found <==> RunClear(bitmap[..], bit, Looked(n, bit))
      ensures next == bit + Stride(bit, n)
    {
      var word, offset := bit / 64, bit % 64;
      if n >= 64 && offset == 0 {
        var needed := n / 64;
        assert 64 * needed == Probed(n);
        found := WordsZero(bit, needed);
        return found, bit + needed * 64;
      }
      var remaining := 64 - offset;
      if remaining >= n {
        ProbeOneWord(bitmap[..], bit, n);
        return And(bitmap[word], Mask(n, offset)) == 0, bit + n;
      }
      ProbeTwoWords(bitmap[..], bit, n);
      found := And(bitmap[word], Mask(remaining, offset)) == 0 && And(bitmap[word + 1], LowMask(n - remaining)) == 0;
      next := bit + remaining;
    }

    method FindBlock(start: nat, end: nat, n: nat) returns (found: Option<nat>)
      requires AtProbe(n, start) && n <= end <= 64 * bitmap.Length
      ensures found == Search(bitmap[..], start, end, n)
    {
      var bit := start;
      while bit <= end - n
        invariant AtProbe(n, bit)
        invariant Search(bitmap[..], bit, end, n) == Search(bitmap[..], start, end, n)
        decreases end - bit
      {
        var hit, next := Probe(bit, n);
        if hit { return Some(bit); }
        StrideBound(bit, n);
        bit := next;
      }
      found := None;
    }

    /** Marks one frame and initialises its record. */
    method TakeFrame(p: nat, flags: Flags)
      requires p < frames.Length <= 64 * bitmap.Length
      requires frames[p].zone.Some? && frames[p].zone.value < |zones|
      modifies this`zones, frames, bitmap
      ensures Snapshot() == MarkOne(old(Snapshot()), p, flags)
    {
      bitmap[p / 64] := SetBit(bitmap[p / 64], p % 64);
      assert bitmap[..] == SetFrame(old(bitmap[..]), p);
      PageInit(p, flags);
    }

    /** Frames from start that have a zone. */
    static ghost predicate Zoned(s: State, start: nat, n: nat) {
      && start + n <= |s.frames| <= 64 * |s.bitmap|
      && forall p :: start <= p < start + n ==> s.frames[p].zone.Some? && s.frames[p].zone.value < |s.zones|
    }

    method TakeFrames(start: nat, n: nat, flags: Flags)
      requires Zoned(Snapshot(), start, n)
      modifies this`zones, frames, bitmap
      ensures Snapshot() == MarkFrames(old(Snapshot()), start, n, flags)
    {
      hide MarkFrames;
      ghost var s := Snapshot();
      var i := 0;
      MarkFramesNone(s, start, flags);
      while i < n
        invariant 0 <= i <= n
        invariant Snapshot() == MarkFrames(s, start, i, flags)
      {
        TakeNext(start, i, flags, s);
        i := i + 1;
      }
    }

    method TakeNext(start: nat, i: nat, flags: Flags, ghost s: State)
      requires Zoned(s, start, i + 1) && Snapshot() == MarkFrames(s, start, i, flags)
      modifies this`zones, frames, bitmap
      ensures Snapshot() == MarkFrames(s, start, i + 1, flags)
    {
      hide MarkFrames;
      hide MarkOne;
      MarkFramesNext(s, start, i, flags);
      assert frames[..][start + i].zone == s.frames[start + i].zone;
      TakeFrame(start + i, flags);
    }

    method AllocPages(kind: ZoneType, n: nat, flags: Flags) returns (r: Option<nat>)
      requires Shaped(Snapshot()) && Servable(Snapshot(), kind, n)
      modifies this`zones, frames, bitmap
      ensures (r, Snapshot()) == FrameState.AllocPages(old(Snapshot()), kind, n, flags)
    {
      hide FrameState.ChooseZone;
      hide Search;
      hide MarkFrames;
      ghost var s := Snapshot();
      var target := ChooseZone(kind, n);
      if target.None? { return None; }
      var z := target.value;
      var found := FindBlock(zones[z].startPfn, zones[z].endPfn, n);
      if found.None? || found.value == 0 { return None; }
      var start := found.value;
      PlacementInZone(s, kind, n);
      TakeFrames(start, n, flags);
      zones := zones[z := zones[z].(nrFree := Wrap(zones[z].nrFree - n))];
      r := Some(start);
    }

    // ---------- free_pages ----------

    method ReleaseFrame(p: nat, z: nat)
      requires p < frames.Length <= 64 * bitmap.Length && z < |zones| && frames[p].pfn == p
      modifies this`zones, frames, bitmap
      ensures Snapshot() == FreeOne(old(Snapshot()), p, z)
    {
      if Used !in frames[p].flags { return; }
      if frames[p].refCount > 0 {
        frames[p] := frames[p].(refCount := frames[p].refCount - 1);
        if frames[p].refCount > 0 { return; }
      }
      frames[p] := frames[p].(flags := {});
      var pfn := frames[p].pfn;
      bitmap[pfn / 64] := ClearBit(bitmap[pfn / 64], pfn % 64);
      assert bitmap[..] == ClearFrame(old(bitmap[..]), p);
      zones := zones[z := zones[z].(nrFree := Wrap(zones[z].nrFree + 1))];
      assert frames[..] == old(frames[..])[p := old(frames[p]).(flags := {}, refCount := 0)];
    }

    method FreePages(page: Option<nat>, n: nat)
      requires Shaped(Snapshot()) && Freeable(Snapshot(), page, n)
      modifies this`zones, frames, bitmap
      ensures Snapshot() == FrameState.FreePages(old(Snapshot()), page, n)
    {
      if page.None? || n == 0 { return; }
      var start, zone := frames[page.value].pfn, frames[page.value].zone;
      if zone.None? || start >= frames.Length { return; }
      ghost var s := Snapshot();
      var i := 0;
      assert FreeFrames(s, start, 0, zone.value) == s;
      hide FreeFrames;
      hide FreeOne;
      while i < n
        invariant 0 <= i <= n
        invariant Snapshot() == FreeFrames(s, start, i, zone.value)
      {
        FreeFramesNext(s, start, i, zone.value);
        ReleaseFrame(start + i, zone.value);
        i := i + 1;
      }
    }
  }
}
