/** The zones the kernel builds from the firmware's memory map (ACPI
    Specification, section 15.1 "INT 15H, E820H - Query System Address Map"). */
module MemoryMap {
  import opened MachineTypes
  import opened Words
  import opened FrameState

  const PAGE_2M: nat := 0x20_0000
  const DMA_BOUNDARY: nat := 0x100_0000
  const DMA_PFN: nat := 8
  const E820_MAX_ENTRIES: nat := 64

  datatype Entry = Entry(baseLow: Dword, baseHigh: Dword, lengthLow: Dword, lengthHigh: Dword, kind: Dword) {
    function Base(): Word64 { baseHigh * 0x1_0000_0000 + baseLow }
    function Length(): Word64 { lengthHigh * 0x1_0000_0000 + lengthLow }
    predicate Usable() { kind == 1 }

    /** base + length, in 64 bits. */
    function End(): Word64 { (Base() + Length()) % TWO64 }

    /** No sum in the passes over this entry leaves 64 bits. */
    predicate NoWrap() { Base() + Length() < TWO64 && Base() + PAGE_2M - 1 < TWO64 }

    predicate Contains(address: nat) { Base() <= address < Base() + Length() }

    /** The 2 MB of frame p lie wholly inside the entry. */
    predicate Covers(p: nat) { Base() <= p * PAGE_2M && (p + 1) * PAGE_2M <= Base() + Length() }

    /** First and end frame of the aligned part. */
    function StartPfn(): nat { AlignUp(Base()) / PAGE_2M }
    function EndPfn(): nat { End() / PAGE_2M }
  }

  /** Base and length are read from the two halves of the firmware's record. */
  lemma FieldsRead(base: nat, length: nat, kind: Dword)
    requires base < 0x1_0000_0000_0000_0000 && length < 0x1_0000_0000_0000_0000
    ensures var e := Entry(base % 0x1_0000_0000, base / 0x1_0000_0000, length % 0x1_0000_0000, length / 0x1_0000_0000, kind);
      e.Base() == base && e.Length() == length && (e.Usable() <==> kind == 1)
  {
  }

  /** PAGE_2M_ALIGN, in 64 bits. */
  function AlignUp(a: Word64): Word64 { (a + PAGE_2M - 1) % TWO64 / PAGE_2M * PAGE_2M }

  /** address & PAGE_2M_MASK */
  function AlignDown(a: Word64): Word64 { a / PAGE_2M * PAGE_2M }

  function NewZone(startPfn: nat, endPfn: nat, kind: ZoneType): Zone
    requires startPfn <= endPfn < TWO64
  {
    Zone(startPfn, endPfn, endPfn - startPfn, endPfn - startPfn, kind)
  }

  /** The zones of one entry: none, one, or two where it crosses 16 MB. */
  function ZonesOfEntry(e: Entry): seq<Zone> {
    var start, end := AlignUp(e.Base()), AlignDown(e.End());
    if !e.Usable() || end <= start then []
    else if start < DMA_BOUNDARY && end > DMA_BOUNDARY then
      [NewZone(start / PAGE_2M, DMA_PFN, ZoneDma), NewZone(DMA_PFN, end / PAGE_2M, ZoneNormal)]
    else
      [NewZone(start / PAGE_2M, end / PAGE_2M, if start < DMA_BOUNDARY then ZoneDma else ZoneNormal)]
  }

  function ZonesOf(es: seq<Entry>): seq<Zone> {
    if es == [] then [] else ZonesOf(es[..|es| - 1]) + ZonesOfEntry(es[|es| - 1])
  }

  /** The pages the counting pass adds for one entry. */
  function PagesOfEntry(e: Entry): nat {
    if !e.Usable() || e.Length() == 0 || AlignUp(e.Base()) >= AlignDown(e.End()) then 0
    else (AlignDown(e.End()) - AlignUp(e.Base())) / PAGE_2M
  }

  function CountPages(es: seq<Entry>): nat {
    if es == [] then 0 else CountPages(es[..|es| - 1]) + PagesOfEntry(es[|es| - 1])
  }

  function MaxPfn(es: seq<Entry>): nat {
    if es == [] then 0
    else
      var before, last := MaxPfn(es[..|es| - 1]), es[|es| - 1].EndPfn();
      if last > before then last else before
  }

  /** Some zone of the list holds frame p. */
  ghost predicate SomeZone(zs: seq<Zone>, p: nat) { exists z :: 0 <= z < |zs| && InZone(zs[z], p) }

  ghost predicate Disjoint(zs: seq<Zone>) {
    forall y, z, p: nat :: 0 <= y < |zs| && 0 <= z < |zs| && InZone(zs[y], p) && InZone(zs[z], p) ==> y == z
  }

  /** Some usable entry covers frame p. */
  ghost predicate CoveredUsable(es: seq<Entry>, p: nat) {
    exists i :: 0 <= i < |es| && es[i].Usable() && es[i].Covers(p)
  }

  lemma SomeZoneAppend(xs: seq<Zone>, ys: seq<Zone>, p: nat)
    ensures SomeZone(xs + ys, p) <==> SomeZone(xs, p) || SomeZone(ys, p)
  {
    if z :| 0 <= z < |xs| && InZone(xs[z], p) {
      assert InZone((xs + ys)[z], p);
    } else if z :| 0 <= z < |ys| && InZone(ys[z], p) {
      assert InZone((xs + ys)[|xs| + z], p);
    }
  }

  lemma DisjointAppend(xs: seq<Zone>, ys: seq<Zone>)
    requires Disjoint(xs) && Disjoint(ys) && forall p: nat :: !(SomeZone(xs, p) && SomeZone(ys, p))
    ensures Disjoint(xs + ys)
  {
    var all := xs + ys;
    forall y, z, p: nat | 0 <= y < |all| && 0 <= z < |all| && InZone(all[y], p) && InZone(all[z], p)
      ensures y == z
    {
      assert all[y] == if y < |xs| then xs[y] else ys[y - |xs|];
      assert all[z] == if z < |xs| then xs[z] else ys[z - |xs|];
      assert !(SomeZone(xs, p) && SomeZone(ys, p));
    }
  }

  lemma CoveredAppend(es: seq<Entry>, p: nat)
    requires es != []
    ensures var n := |es| - 1;
      CoveredUsable(es, p) <==> CoveredUsable(es[..n], p) || (es[n].Usable() && es[n].Covers(p))
  {
    var n := |es| - 1;
    if i :| 0 <= i < n && es[..n][i].Usable() && es[..n][i].Covers(p) {
      assert es[i].Usable() && es[i].Covers(p);
    } else if i :| 0 <= i < |es| && es[i].Usable() && es[i].Covers(p) {
      if i < n { assert es[..n][i] == es[i]; }
    }
  }

  // ---------- one entry ----------

  lemma AlignedRange(e: Entry)
    requires e.NoWrap()
    ensures e.End() == e.Base() + e.Length()
    ensures AlignUp(e.Base()) == (e.Base() + PAGE_2M - 1) / PAGE_2M * PAGE_2M
    ensures e.StartPfn() == (e.Base() + PAGE_2M - 1) / PAGE_2M
    ensures AlignUp(e.Base()) == e.StartPfn() * PAGE_2M && AlignDown(e.End()) == e.EndPfn() * PAGE_2M
  {
    Small(e.Base() + e.Length());
    Small(e.Base() + PAGE_2M - 1);
  }

  /** The frames from StartPfn to EndPfn are exactly those the entry covers. */
  lemma CoveredFrames(e: Entry, p: nat)
    requires e.NoWrap()
    ensures e.StartPfn() <= p < e.EndPfn() <==> e.Covers(p)
  {
    AlignedRange(e);
    CeilBelow(e.Base(), p);
    FloorAbove(e.Base() + e.Length(), p);
  }

  lemma CeilBelow(a: nat, p: nat)
    ensures (a + PAGE_2M - 1) / PAGE_2M <= p <==> a <= p * PAGE_2M
  {
  }

  lemma FloorAbove(a: nat, p: nat)
    ensures p < a / PAGE_2M <==> (p + 1) * PAGE_2M <= a
  {
  }

  /** The zones of a usable entry hold exactly the frames it covers. */
  lemma EntryZoneFrames(e: Entry, p: nat)
    requires e.NoWrap()
    ensures SomeZone(ZonesOfEntry(e), p) <==> e.Usable() && e.Covers(p)
  {
    AlignedRange(e);
    CoveredFrames(e, p);
    var zs := ZonesOfEntry(e);
    if e.Usable() && e.Covers(p) {
      if |zs| == 2 && p >= DMA_PFN { assert InZone(zs[1], p); } else { assert InZone(zs[0], p); }
    }
  }

  ghost predicate WellMade(z: Zone, limit: nat) {
    && z.startPfn < z.endPfn <= limit
    && z.totalPages == z.nrFree == z.endPfn - z.startPfn
    && ((z.kind == ZoneDma && z.endPfn <= DMA_PFN) || (z.kind == ZoneNormal && DMA_PFN <= z.startPfn))
  }

  function TotalPages(zs: seq<Zone>): nat {
    if zs == [] then 0 else TotalPages(zs[..|zs| - 1]) + zs[|zs| - 1].totalPages
  }

  lemma TotalOne(x: Zone)
    ensures TotalPages([x]) == x.totalPages
  {
    assert [x][..0] == [];
  }

  lemma TotalTwo(x: Zone, y: Zone)
    ensures TotalPages([x, y]) == x.totalPages + y.totalPages
  {
    assert [x, y][..1] == [x];
    TotalOne(x);
  }

  /** The zones and pages of an entry in frame numbers. */
  lemma EntryByFrames(e: Entry)
    requires e.NoWrap()
    ensures var a, b := e.StartPfn(), e.EndPfn();
      && b < TWO64
      && ZonesOfEntry(e) == (if !e.Usable() || b <= a then []
                             else if a < DMA_PFN < b then [NewZone(a, DMA_PFN, ZoneDma), NewZone(DMA_PFN, b, ZoneNormal)]
                             else [NewZone(a, b, if a < DMA_PFN then ZoneDma else ZoneNormal)])
      && PagesOfEntry(e) == if !e.Usable() || b <= a then 0 else b - a
  {
    AlignedRange(e);
    var a, b := e.StartPfn(), e.EndPfn();
    assert a * PAGE_2M / PAGE_2M == a && b * PAGE_2M / PAGE_2M == b;
    assert b > a ==> (b * PAGE_2M - a * PAGE_2M) / PAGE_2M == b - a;
  }

  /** Every zone is a non-empty range on one side of the 16 MB boundary, of the
      type of that side, with exact page counts; two zones of one entry are
      disjoint, and together they count the entry's pages. */
  lemma EntryZones(e: Entry)
    requires e.NoWrap()
    ensures forall z :: 0 <= z < |ZonesOfEntry(e)| ==> WellMade(ZonesOfEntry(e)[z], e.EndPfn())
    ensures Disjoint(ZonesOfEntry(e))
    ensures TotalPages(ZonesOfEntry(e)) == PagesOfEntry(e)
  {
    EntryByFrames(e);
    var a, b := e.StartPfn(), e.EndPfn();
    hide ZonesOfEntry;
    hide PagesOfEntry;
    hide TotalPages;
    if e.Usable() && a < b {
      if a < DMA_PFN < b {
        TotalTwo(NewZone(a, DMA_PFN, ZoneDma), NewZone(DMA_PFN, b, ZoneNormal));
      } else {
        TotalOne(NewZone(a, b, if a < DMA_PFN then ZoneDma else ZoneNormal));
      }
    } else {
      NoPages([]);
    }
  }

  lemma NoPages(zs: seq<Zone>)
    requires zs == []
    ensures TotalPages(zs) == 0
  {
  }

  lemma {:induction false} TotalPagesAppend(xs: seq<Zone>, ys: seq<Zone>)
    ensures TotalPages(xs + ys) == TotalPages(xs) + TotalPages(ys)
    decreases |ys|
  {
    if ys == [] {
      assert xs + ys == xs;
    } else {
      assert (xs + ys)[..|xs + ys| - 1] == xs + ys[..|ys| - 1];
      TotalPagesAppend(xs, ys[..|ys| - 1]);
    }
  }

  // ---------- the whole map ----------

  /** No address lies in two entries, and no sum wraps. */
  ghost predicate GoodMap(es: seq<Entry>) {
    && (forall i :: 0 <= i < |es| ==> es[i].NoWrap())
    && (forall i, j, a: nat :: 0 <= i < j < |es| && es[i].Contains(a) ==> !es[j].Contains(a))
  }

  lemma CoveredOnce(es: seq<Entry>, i: nat, j: nat, p: nat)
    requires GoodMap(es) && i < |es| && j < |es| && es[i].Covers(p) && es[j].Covers(p)
    ensures i == j
  {
    assert es[i].Contains(p * PAGE_2M) && es[j].Contains(p * PAGE_2M);
  }

  /** The zones' total_pages sum to the page count of the counting pass. */
  lemma {:induction false} PagesAgree(es: seq<Entry>)
    requires forall i :: 0 <= i < |es| ==> es[i].NoWrap()
    ensures TotalPages(ZonesOf(es)) == CountPages(es)
    decreases |es|
  {
    if es != [] {
      PagesAgree(es[..|es| - 1]);
      EntryZones(es[|es| - 1]);
      TotalPagesAppend(ZonesOf(es[..|es| - 1]), ZonesOfEntry(es[|es| - 1]));
    }
  }

  lemma {:induction false} MaxPfnBound(es: seq<Entry>, i: nat)
    requires i < |es|
    ensures es[i].EndPfn() <= MaxPfn(es)
    decreases |es|
  {
    if i < |es| - 1 { MaxPfnBound(es[..|es| - 1], i); }
  }

  /** The highest frame is where some entry ends, frame 0 of an empty map. */
  lemma {:induction false} MaxPfnReached(es: seq<Entry>)
    ensures MaxPfn(es) == 0 || exists i :: 0 <= i < |es| && es[i].EndPfn() == MaxPfn(es)
    decreases |es|
  {
    if es != [] {
      var n := |es| - 1;
      MaxPfnReached(es[..n]);
      if MaxPfn(es) == es[n].EndPfn() {
      } else if MaxPfn(es[..n]) != 0 {
        var i :| 0 <= i < n && es[..n][i].EndPfn() == MaxPfn(es[..n]);
        assert es[i].EndPfn() == MaxPfn(es);
      }
    }
  }

  /** A frame is covered where its two megabytes lie inside the entry. */
  lemma CoversMeans(e: Entry, p: nat)
    ensures e.Covers(p) <==> forall a: nat :: p * 0x20_0000 <= a < (p + 1) * 0x20_0000 ==> e.Contains(a)
  {
    if forall a: nat :: p * 0x20_0000 <= a < (p + 1) * 0x20_0000 ==> e.Contains(a) {
      assert e.Contains(p * 0x20_0000) && e.Contains(p * 0x20_0000 + 0x1F_FFFF);
    }
  }

  /** A frame is in a zone exactly when a usable entry covers its whole 2 MB. */
  lemma {:induction false} ZoneFrames(es: seq<Entry>, p: nat)
    requires forall i :: 0 <= i < |es| ==> es[i].NoWrap()
    ensures SomeZone(ZonesOf(es), p) <==> CoveredUsable(es, p)
    decreases |es|
  {
    if es != [] {
      var n := |es| - 1;
      ZoneFrames(es[..n], p);
      EntryZoneFrames(es[n], p);
      SomeZoneAppend(ZonesOf(es[..n]), ZonesOfEntry(es[n]), p);
      CoveredAppend(es, p);
    }
  }

  /** The zones are disjoint, non-empty, on one side of 16 MB, and within max_pfn. */
  lemma {:induction false} ZonesSound(es: seq<Entry>)
    requires GoodMap(es)
    ensures forall z :: 0 <= z < |ZonesOf(es)| ==> WellMade(ZonesOf(es)[z], MaxPfn(es))
    ensures Disjoint(ZonesOf(es))
    decreases |es|
  {
    if es != [] {
      var n := |es| - 1;
      ZonesSound(es[..n]);
      EntryZones(es[n]);
      forall p: nat
        ensures !(SomeZone(ZonesOf(es[..n]), p) && SomeZone(ZonesOfEntry(es[n]), p))
      {
        ZoneFrames(es[..n], p);
        EntryZoneFrames(es[n], p);
        if CoveredUsable(es[..n], p) && es[n].Covers(p) {
          var i :| 0 <= i < n && es[..n][i].Usable() && es[..n][i].Covers(p);
          CoveredOnce(es, i, n, p);
        }
      }
      DisjointAppend(ZonesOf(es[..n]), ZonesOfEntry(es[n]));
    }
  }

  /** Frames the reserved pass marks: those a non-usable entry covers. */
  ghost predicate ReservedFrame(es: seq<Entry>, p: nat) {
    exists i :: 0 <= i < |es| && !es[i].Usable() && es[i].StartPfn() <= p < es[i].EndPfn()
  }

  /** No zone frame is marked by the reserved pass. */
  lemma ZoneFrameNotReserved(es: seq<Entry>, z: nat, p: nat)
    requires GoodMap(es) && z < |ZonesOf(es)| && InZone(ZonesOf(es)[z], p)
    ensures !ReservedFrame(es, p)
  {
    ZoneFrames(es, p);
    var i :| 0 <= i < |es| && es[i].Usable() && es[i].Covers(p);
    if ReservedFrame(es, p) {
      var j :| 0 <= j < |es| && !es[j].Usable() && es[j].StartPfn() <= p < es[j].EndPfn();
      CoveredFrames(es[j], p);
      CoveredOnce(es, i, j, p);
    }
  }
}
