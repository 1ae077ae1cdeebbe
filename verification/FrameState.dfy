/** The allocator's state as a value: bitmap, frame records and zones, and what
    page_init, alloc_pages and free_pages do to it. */
module FrameState {
  import opened MachineTypes
  import opened FrameSearch

  datatype PageFlag =
    | Free | Used | Reserved | Kernel | Present | Writable | User | NoCache | WriteThrough | NoExecute

  type Flags = set<PageFlag>

  datatype ZoneType = ZoneDma | ZoneDma32 | ZoneNormal

  type RefCount = c: int | 0 <= c < 0x1_0000

  /** zone is the index of the frame's zone, None for the null pointer. */
  datatype Frame = Frame(zone: Option<nat>, pfn: nat, refCount: RefCount, flags: Flags)

  datatype Zone = Zone(startPfn: nat, endPfn: nat, totalPages: nat, nrFree: Word64, kind: ZoneType)

  datatype State = State(bitmap: seq<Word64>, frames: seq<Frame>, zones: seq<Zone>)

  /** Arithmetic of 64-bit counters: what x wraps around to. */
  function Wrap(x: int): Word64
    decreases if x < 0 then -x else x
  {
    if x < 0 then (if x + TWO64 >= 0 then x + TWO64 else Wrap(x + TWO64))
    else if x >= TWO64 then Wrap(x - TWO64)
    else x
  }

  lemma {:induction false} WrapIsModulo(x: int)
    ensures Wrap(x) == x % TWO64
    decreases if x < 0 then -x else x
  {
    if x < 0 {
      if x + TWO64 < 0 { WrapIsModulo(x + TWO64); }
      WrapShift(x, -1);
    } else if x >= TWO64 {
      WrapIsModulo(x - TWO64);
      WrapShift(x, 1);
    }
  }

  lemma WrapAgain(x: int, d: int)
    ensures Wrap(Wrap(x) + d) == Wrap(x + d)
  {
    WrapIsModulo(x);
    WrapIsModulo(Wrap(x) + d);
    WrapIsModulo(x + d);
    var q := x / TWO64;
    assert x % TWO64 == x - q * TWO64;
    WrapShift(x + d, q);
  }

  lemma WrapShift(x: int, q: int)
    ensures (x - q * TWO64) % TWO64 == x % TWO64
  {
  }

  ghost predicate InZone(z: Zone, p: nat) { z.startPfn <= p < z.endPfn }

  // ---------- invariant ----------

  /** Zones are disjoint ranges of frames that know their zone and number. */
  ghost predicate Shaped(s: State) {
    && |s.frames| <= 64 * |s.bitmap|
    && (forall z :: 0 <= z < |s.zones| ==> s.zones[z].startPfn <= s.zones[z].endPfn <= |s.frames|)
    && (forall z, p: nat :: 0 <= z < |s.zones| && InZone(s.zones[z], p) ==> s.frames[p].zone == Some(z))
    && (forall p :: 0 <= p < |s.frames| ==> s.frames[p].pfn == p)
  }

  /** Frame p belongs to some zone. */
  ghost predicate Managed(s: State, p: nat) { exists z :: 0 <= z < |s.zones| && InZone(s.zones[z], p) }

  /** Bitmap bit, PAGE_USED and a positive count say the same. */
  ghost predicate Agrees(s: State, p: nat)
    requires p < |s.frames| <= 64 * |s.bitmap|
  {
    && (Marked(s.bitmap, p) <==> Used in s.frames[p].flags)
    && (Marked(s.bitmap, p) <==> s.frames[p].refCount > 0)
  }

  ghost predicate Valid(s: State) {
    Shaped(s) && forall p :: 0 <= p < |s.frames| && Managed(s, p) ==> Agrees(s, p)
  }

  lemma OneZone(s: State, y: nat, z: nat, p: nat)
    requires Shaped(s) && y < |s.zones| && z < |s.zones| && InZone(s.zones[y], p) && InZone(s.zones[z], p)
    ensures y == z
  {
    assert s.frames[p].zone == Some(y);
  }

  // ---------- page_init ----------

  /** The frame's part of page_init: a first use, a further use by or for user
      space, or flags only. */
  function FrameInit(f: Frame, flags: Flags): Frame {
    if Used !in f.flags then f.(flags := flags + {Used}, refCount := 1)
    else if User in f.flags || User in flags then
      f.(flags := f.flags + flags, refCount := (f.refCount + 1) % 0x1_0000)
    else f.(flags := f.flags + flags)
  }

  /** page_init on a frame that has a zone; a first use is booked to the zone. */
  function PageInit(s: State, p: nat, flags: Flags): State
    requires p < |s.frames| && s.frames[p].zone.Some? && s.frames[p].zone.value < |s.zones|
  {
    var z := s.frames[p].zone.value;
    s.(frames := s.frames[p := FrameInit(s.frames[p], flags)],
       zones := if Used in s.frames[p].flags then s.zones
                else s.zones[z := s.zones[z].(nrFree := Wrap(s.zones[z].nrFree - 1))])
  }

  /** What page_init leaves of a frame: an unused one has the flags given and PAGE_USED and
      the count one; a used one gains the flags, and a reference if it or they are for
      user space. Every other frame and every bit stay, and the frame's place too. */
  lemma PageInitFrame(s: State, p: nat, flags: Flags, q: nat)
    requires p < |s.frames| && s.frames[p].zone.Some? && s.frames[p].zone.value < |s.zones| && q < |s.frames|
    ensures var f, s' := s.frames[p], PageInit(s, p, flags);
      && s'.bitmap == s.bitmap && |s'.frames| == |s.frames| && |s'.zones| == |s.zones|
      && (q != p ==> s'.frames[q] == s.frames[q])
      && s'.frames[p].zone == f.zone && s'.frames[p].pfn == f.pfn
      && s'.frames[p].flags == (if Used in f.flags then f.flags + flags else flags + {Used})
      && s'.frames[p].refCount
           == (if Used !in f.flags then 1 else if User in f.flags + flags then (f.refCount + 1) % 0x1_0000 else f.refCount)
  {
  }

  /** Sharing a used frame keeps the agreement exactly below the 16-bit limit. */
  lemma ShareAgrees(s: State, p: nat, flags: Flags)
    requires Valid(s) && p < |s.frames| && Managed(s, p) && Used in s.frames[p].flags
    requires User in flags || User in s.frames[p].flags
    ensures s.frames[p].zone.Some? && s.frames[p].zone.value < |s.zones|
    ensures Valid(PageInit(s, p, flags)) <==> s.frames[p].refCount < 0xFFFF
  {
    var s' := PageInit(s, p, flags);
    assert Agrees(s, p);
    assert forall q :: Managed(s', q) <==> Managed(s, q);
    if s.frames[p].refCount < 0xFFFF {
      forall q | 0 <= q < |s'.frames| && Managed(s', q)
        ensures Agrees(s', q)
      {
        assert Agrees(s, q);
      }
    } else {
      assert !Agrees(s', p);
    }
  }

  // ---------- alloc_pages ----------

  /** One turn of the marking loop: set the bit, initialise the frame. */
  function MarkOne(s: State, p: nat, flags: Flags): State
    requires p < |s.frames| <= 64 * |s.bitmap|
    requires s.frames[p].zone.Some? && s.frames[p].zone.value < |s.zones|
  {
    PageInit(s.(bitmap := SetFrame(s.bitmap, p)), p, flags)
  }

  /** The index of the first zone from i up of this type with nr_free >= n. */
  function ChooseZone(zones: seq<Zone>, kind: ZoneType, n: nat, i: nat): (r: Option<nat>)
    ensures r.Some? ==> i <= r.value < |zones| && zones[r.value].kind == kind && zones[r.value].nrFree >= n
    ensures forall j :: i <= j < (if r.Some? then r.value else |zones|) ==> zones[j].kind != kind || zones[j].nrFree < n
    decreases |zones| - i
  {
    if i >= |zones| then None
    else if zones[i].kind == kind && zones[i].nrFree >= n then Some(i)
    else ChooseZone(zones, kind, n, i + 1)
  }

  /** The requests alloc_pages defines: the word shifts stay below 64 for the zone
      chosen, and its end is not below the size (the loop bound is unsigned). */
  ghost predicate Servable(s: State, kind: ZoneType, n: nat) {
    var z := ChooseZone(s.zones, kind, n, 0);
    n > 0 && (z.Some? ==> AtProbe(n, s.zones[z.value].startPfn) && n <= s.zones[z.value].endPfn)
  }

  /** Those of them whose every frame the search looks at. */
  ghost predicate Request(s: State, kind: ZoneType, n: nat) { Servable(s, kind, n) && Probed(n) == n }

  /** Where alloc_pages puts the block: 0 stands for "not found". */
  ghost function Placement(s: State, kind: ZoneType, n: nat): (r: Option<nat>)
    requires Shaped(s) && Servable(s, kind, n)
  {
    var z := ChooseZone(s.zones, kind, n, 0);
    if z.None? then None
    else
      var found := Search(s.bitmap, s.zones[z.value].startPfn, s.zones[z.value].endPfn, n);
      if found == Some(0) then None else found
  }

  /** The block lies in the zone chosen, which is of the type asked for, and the
      frames looked at are clear. */
  lemma PlacementInZone(s: State, kind: ZoneType, n: nat)
    requires Shaped(s) && Servable(s, kind, n) && Placement(s, kind, n).Some?
    ensures var z, start := ChooseZone(s.zones, kind, n, 0).value, Placement(s, kind, n).value;
      && s.zones[z].kind == kind && s.zones[z].startPfn <= start && start + n <= s.zones[z].endPfn <= |s.frames|
      && RunClear(s.bitmap, start, Looked(n, start))
      && forall p :: start <= p < start + n ==> Managed(s, p) && s.frames[p].zone == Some(z)
  {
    var z := ChooseZone(s.zones, kind, n, 0).value;
    SearchSound(s.bitmap, s.zones[z].startPfn, s.zones[z].endPfn, n);
    var start := Placement(s, kind, n).value;
    forall p | start <= p < start + n
      ensures Managed(s, p) && s.frames[p].zone == Some(z)
    {
      assert InZone(s.zones[z], p);
    }
  }

  /** The frames of a block after it is taken. */
  function TakenFrames(frames: seq<Frame>, start: nat, n: nat, flags: Flags): (r: seq<Frame>)
    requires start + n <= |frames|
    ensures |r| == |frames|
  {
    seq(|frames|, p requires 0 <= p < |frames| =>
      if start <= p < start + n then frames[p].(flags := flags + {Used}, refCount := 1) else frames[p])
  }

  /** State after i turns of the marking loop over a clear block of zone z. */
  ghost predicate MarkedSoFar(before: State, after: State, z: nat, start: nat, i: nat, flags: Flags) {
    && Shaped(before) && start + i <= |before.frames| && z < |before.zones|
    && |after.bitmap| == |before.bitmap|
    && (forall q :: 0 <= q < 64 * |before.bitmap| ==>
          (Marked(after.bitmap, q) <==> Marked(before.bitmap, q) || start <= q < start + i))
    && after.frames == TakenFrames(before.frames, start, i, flags)
    && after.zones == before.zones[z := before.zones[z].(nrFree := Wrap(before.zones[z].nrFree - i))]
  }

  lemma MarkStep(before: State, s: State, z: nat, start: nat, n: nat, flags: Flags)
    requires Valid(before) && z < |before.zones| && n > 0
    requires before.zones[z].startPfn <= start && start + n <= before.zones[z].endPfn
    requires RunClear(before.bitmap, start, n) && MarkedSoFar(before, s, z, start, n - 1, flags)
    ensures s.frames[start + n - 1].zone == Some(z)
    ensures MarkedSoFar(before, MarkOne(s, start + n - 1, flags), z, start, n, flags)
  {
    var p := start + n - 1;
    assert InZone(before.zones[z], p) && !Marked(before.bitmap, p);
    assert Managed(before, p) && Agrees(before, p);
    var s' := MarkOne(s, p, flags);
    forall q | 0 <= q < 64 * |before.bitmap|
      ensures Marked(s'.bitmap, q) <==> Marked(before.bitmap, q) || start <= q < start + n
    {
      MarkedAfterSet(s.bitmap, p, q);
    }
    assert s'.frames == TakenFrames(before.frames, start, n, flags);
    WrapAgain(before.zones[z].nrFree - (n - 1), -1);
  }

  /** The state alloc_pages leaves when it takes n frames of zone z from start:
      the counter of the zone falls by 2n, once per frame and once per call. */
  ghost predicate Taken(before: State, after: State, z: nat, start: nat, n: nat, flags: Flags) {
    && Shaped(before) && start + n <= |before.frames| && z < |before.zones|
    && |after.bitmap| == |before.bitmap|
    && (forall q :: 0 <= q < 64 * |before.bitmap| ==>
          (Marked(after.bitmap, q) <==> Marked(before.bitmap, q) || start <= q < start + n))
    && after.frames == TakenFrames(before.frames, start, n, flags)
    && after.zones == before.zones[z := before.zones[z].(nrFree := Wrap(before.zones[z].nrFree - 2 * n))]
  }

  /** The marking loop over n frames from start. */
  function MarkFrames(s: State, start: nat, n: nat, flags: Flags): (r: State)
    requires start + n <= |s.frames| <= 64 * |s.bitmap|
    requires forall p :: start <= p < start + n ==> s.frames[p].zone.Some? && s.frames[p].zone.value < |s.zones|
    ensures |r.bitmap| == |s.bitmap| && |r.frames| == |s.frames| && |r.zones| == |s.zones|
    ensures forall p :: 0 <= p < |s.frames| ==> r.frames[p].zone == s.frames[p].zone
  {
    if n == 0 then s else MarkOne(MarkFrames(s, start, n - 1, flags), start + n - 1, flags)
  }

  lemma {:induction false} MarkFramesEffect(s: State, z: nat, start: nat, n: nat, flags: Flags)
    requires Valid(s) && z < |s.zones|
    requires s.zones[z].startPfn <= start && start + n <= s.zones[z].endPfn && RunClear(s.bitmap, start, n)
    ensures forall p :: start <= p < start + n ==> s.frames[p].zone == Some(z)
    ensures MarkedSoFar(s, MarkFrames(s, start, n, flags), z, start, n, flags)
    decreases n
  {
    assert forall p: nat :: start <= p < start + n ==> InZone(s.zones[z], p);
    if n == 0 {
      assert TakenFrames(s.frames, start, 0, flags) == s.frames;
    } else {
      MarkFramesEffect(s, z, start, n - 1, flags);
      MarkStep(s, MarkFrames(s, start, n - 1, flags), z, start, n, flags);
    }
  }

  /** alloc_pages: the block's first frame, None for the null pointer, and the
      state left. */
  ghost function AllocPages(s: State, kind: ZoneType, n: nat, flags: Flags): (r: (Option<nat>, State))
    requires Shaped(s) && Servable(s, kind, n)
  {
    var start := Placement(s, kind, n);
    if start.None? then (None, s)
    else
      var z := ChooseZone(s.zones, kind, n, 0).value;
      PlacementInZone(s, kind, n);
      var marked := MarkFrames(s, start.value, n, flags);
      (start, marked.(zones := marked.zones[z := marked.zones[z].(nrFree := Wrap(marked.zones[z].nrFree - n))]))
  }

  lemma MarkFramesNone(s: State, start: nat, flags: Flags)
    requires start <= |s.frames| <= 64 * |s.bitmap|
    ensures MarkFrames(s, start, 0, flags) == s
  {
  }

  lemma MarkFramesNext(s: State, start: nat, n: nat, flags: Flags)
    requires start + n < |s.frames| <= 64 * |s.bitmap|
    requires forall p :: start <= p <= start + n ==> s.frames[p].zone.Some? && s.frames[p].zone.value < |s.zones|
    ensures MarkFrames(s, start, n + 1, flags) == MarkOne(MarkFrames(s, start, n, flags), start + n, flags)
  {
  }

  /** The call's own booking after the frames'. */
  lemma TakenOfMarked(before: State, marked: State, z: nat, start: nat, n: nat, flags: Flags)
    requires MarkedSoFar(before, marked, z, start, n, flags)
    ensures Taken(before, marked.(zones := marked.zones[z := marked.zones[z].(nrFree := Wrap(marked.zones[z].nrFree - n))]),
                  z, start, n, flags)
  {
    hide Marked;
    hide TakenFrames;
    hide Shaped;
    WrapAgain(before.zones[z].nrFree - n, 0 - n);
  }

  /** A call that places a block, spelled out. */
  lemma AllocUnfolds(s: State, kind: ZoneType, n: nat, flags: Flags) returns (z: nat, start: nat)
    requires Shaped(s) && Servable(s, kind, n) && Placement(s, kind, n).Some?
    ensures ChooseZone(s.zones, kind, n, 0) == Some(z) && Placement(s, kind, n) == Some(start)
    ensures z < |s.zones| && start + n <= |s.frames| <= 64 * |s.bitmap|
    ensures forall p :: start <= p < start + n ==> s.frames[p].zone == Some(z)
    ensures var marked := MarkFrames(s, start, n, flags);
      AllocPages(s, kind, n, flags)
        == (Some(start), marked.(zones := marked.zones[z := marked.zones[z].(nrFree := Wrap(marked.zones[z].nrFree - n))]))
  {
    hide MarkFrames;
    hide Search;
    hide Wrap;
    z, start := ChooseZone(s.zones, kind, n, 0).value, Placement(s, kind, n).value;
    PlacementInZone(s, kind, n);
  }

  lemma BlockTaken(s: State, z: nat, start: nat, n: nat, flags: Flags)
    requires Valid(s) && z < |s.zones|
    requires s.zones[z].startPfn <= start && start + n <= s.zones[z].endPfn && RunClear(s.bitmap, start, n)
    ensures forall p :: start <= p < start + n ==> s.frames[p].zone == Some(z)
    ensures var marked := MarkFrames(s, start, n, flags);
      Taken(s, marked.(zones := marked.zones[z := marked.zones[z].(nrFree := Wrap(marked.zones[z].nrFree - n))]),
            z, start, n, flags)
  {
    MarkFramesEffect(s, z, start, n, flags);
    TakenOfMarked(s, MarkFrames(s, start, n, flags), z, start, n, flags);
  }

  /** A successful call takes exactly the block, and books each frame twice. */
  lemma AllocTakes(s: State, kind: ZoneType, n: nat, flags: Flags)
    requires Valid(s) && Request(s, kind, n) && Placement(s, kind, n).Some?
    ensures var (r, s') := AllocPages(s, kind, n, flags);
      r == Placement(s, kind, n) && Taken(s, s', ChooseZone(s.zones, kind, n, 0).value, r.value, n, flags)
  {
    var z, start := AllocUnfolds(s, kind, n, flags);
    PlacementSound(s, kind, n);
    hide *;
    BlockTaken(s, z, start, n, flags);
  }

  /** Frame by frame: those of the block have the flags asked for and PAGE_USED, one
      reference, and their bits set; all others and their bits are as before. */
  lemma AllocFrames(s: State, kind: ZoneType, n: nat, flags: Flags, p: nat)
    requires Valid(s) && Request(s, kind, n) && Placement(s, kind, n).Some? && p < |s.frames|
    ensures var start, s' := Placement(s, kind, n).value, AllocPages(s, kind, n, flags).1;
      && |s'.frames| == |s.frames| && |s'.bitmap| == |s.bitmap| && p < 64 * |s.bitmap|
      && s'.frames[p].zone == s.frames[p].zone && s'.frames[p].pfn == p
      && (start <= p < start + n ==>
            s'.frames[p].flags == flags + {Used} && s'.frames[p].refCount == 1 && Marked(s'.bitmap, p))
      && (!(start <= p < start + n) ==>
            s'.frames[p] == s.frames[p] && (Marked(s'.bitmap, p) <==> Marked(s.bitmap, p)))
  {
    AllocTakes(s, kind, n, flags);
    hide AllocPages;
    hide Placement;
    hide Marked;
  }

  /** A block handed out lies in its zone, and every frame of it was unmarked,
      unused and unreferenced. */
  lemma PlacementSound(s: State, kind: ZoneType, n: nat)
    requires Valid(s) && Request(s, kind, n) && Placement(s, kind, n).Some?
    ensures var z, start := ChooseZone(s.zones, kind, n, 0).value, Placement(s, kind, n).value;
      && s.zones[z].kind == kind && s.zones[z].startPfn <= start && start + n <= s.zones[z].endPfn
      && RunClear(s.bitmap, start, n)
      && forall p :: start <= p < start + n ==>
           Managed(s, p) && Used !in s.frames[p].flags && s.frames[p].refCount == 0
  {
    PlacementInZone(s, kind, n);
    var start := Placement(s, kind, n).value;
    forall p | start <= p < start + n
      ensures Used !in s.frames[p].flags && s.frames[p].refCount == 0
    {
      assert Agrees(s, p) && !Marked(s.bitmap, p);
    }
  }

  /** Exactly when a call fails: no place of the search passes, or its first place is
      frame 0, which is the value that means "not found". */
  lemma FrameZeroNotFound(s: State, kind: ZoneType, n: nat)
    requires Shaped(s) && Servable(s, kind, n) && ChooseZone(s.zones, kind, n, 0).Some?
    ensures var zone := s.zones[ChooseZone(s.zones, kind, n, 0).value];
      Placement(s, kind, n).Some? <==>
        && (exists p: nat :: Hit(s.bitmap, zone.startPfn, zone.endPfn, n, p))
        && !(zone.startPfn == 0 && RunClear(s.bitmap, 0, Probed(n)))
  {
    var zone := s.zones[ChooseZone(s.zones, kind, n, 0).value];
    SearchExact(s.bitmap, zone.startPfn, zone.endPfn, n);
    SearchSound(s.bitmap, zone.startPfn, zone.endPfn, n);
  }

  /** A chosen zone that holds 2w - 1 consecutive clear frames, w being those looked
      at, serves the request exactly unless it starts at frame 0 with a clear block. */
  lemma PlacementComplete(s: State, kind: ZoneType, n: nat, run: nat)
    requires Shaped(s) && Servable(s, kind, n) && ChooseZone(s.zones, kind, n, 0).Some?
    requires var zone, w := s.zones[ChooseZone(s.zones, kind, n, 0).value], Probed(n);
      zone.startPfn <= run && run + w - 1 + n <= zone.endPfn && RunClear(s.bitmap, run, 2 * w - 1)
    ensures var zone := s.zones[ChooseZone(s.zones, kind, n, 0).value];
      Placement(s, kind, n).Some? <==> !(zone.startPfn == 0 && RunClear(s.bitmap, 0, Probed(n)))
  {
    var zone := s.zones[ChooseZone(s.zones, kind, n, 0).value];
    SearchComplete(s.bitmap, zone.startPfn, zone.endPfn, n, run);
    SearchSound(s.bitmap, zone.startPfn, zone.endPfn, n);
  }

  /** With one frame asked for, allocation from a chosen zone fails exactly when every
      frame of the zone is marked, or the zone starts at frame 0 and that one is not. */
  lemma SingleFailsWhenFull(s: State, kind: ZoneType)
    requires Shaped(s) && Servable(s, kind, 1) && ChooseZone(s.zones, kind, 1, 0).Some?
    ensures var zone := s.zones[ChooseZone(s.zones, kind, 1, 0).value];
      Placement(s, kind, 1) == None <==>
        (forall p :: InZone(zone, p) ==> Marked(s.bitmap, p)) || (zone.startPfn == 0 && !Marked(s.bitmap, 0))
  {
    var zone := s.zones[ChooseZone(s.zones, kind, 1, 0).value];
    SearchSound(s.bitmap, zone.startPfn, zone.endPfn, 1);
    SingleFrame(s.bitmap, zone.startPfn, zone.endPfn);
    if p :| zone.startPfn <= p < zone.endPfn && !Marked(s.bitmap, p) {
      assert InZone(zone, p);
    }
  }

  /** A zone's first block is taken whatever stands in the frames behind those looked
      at: with the whole-word test, the ones behind its whole words. */
  lemma TornPlacement(s: State, kind: ZoneType, n: nat)
    requires Shaped(s) && Servable(s, kind, n) && ChooseZone(s.zones, kind, n, 0).Some?
    requires var zone := s.zones[ChooseZone(s.zones, kind, n, 0).value];
      0 < zone.startPfn && zone.startPfn + n <= zone.endPfn && RunClear(s.bitmap, zone.startPfn, Looked(n, zone.startPfn))
    ensures Placement(s, kind, n) == Some(s.zones[ChooseZone(s.zones, kind, n, 0).value].startPfn)
  {
  }

  // ---------- marking any block ----------

  /** The state in which a block is marked and initialised. */
  ghost predicate BlockMarked(s: State, s': State, start: nat, n: nat, flags: Flags) {
    && |s'.frames| == |s.frames| && |s'.bitmap| == |s.bitmap| && SameSpans(s.zones, s'.zones)
    && (forall q :: 0 <= q < 64 * |s.bitmap| ==>
          (Marked(s'.bitmap, q) <==> Marked(s.bitmap, q) || start <= q < start + n))
    && (forall q :: 0 <= q < |s.frames| ==>
          s'.frames[q] == if start <= q < start + n then FrameInit(s.frames[q], flags) else s.frames[q])
  }

  /** What the marking loop does to frames in whatever state: every bit is set, every
      frame initialised once more. */
  lemma {:induction false} MarkFramesAt(s: State, start: nat, n: nat, flags: Flags)
    requires start + n <= |s.frames| <= 64 * |s.bitmap|
    requires forall p :: start <= p < start + n ==> s.frames[p].zone.Some? && s.frames[p].zone.value < |s.zones|
    ensures BlockMarked(s, MarkFrames(s, start, n, flags), start, n, flags)
    decreases n
  {
    hide *;
    if n == 0 {
      MarkFramesNone(s, start, flags);
      BlockUnmarked(s, start, flags);
    } else {
      MarkFramesAt(s, start, n - 1, flags);
      var before := MarkFrames(s, start, n - 1, flags);
      MarkFramesNext(s, start, n - 1, flags);
      MarkOneAt(before, start + n - 1, flags);
      BlockMarkedNext(s, before, MarkOne(before, start + n - 1, flags), start, n, flags);
    }
  }

  lemma BlockUnmarked(s: State, start: nat, flags: Flags)
    requires start <= |s.frames| <= 64 * |s.bitmap|
    ensures BlockMarked(s, s, start, 0, flags)
  {
  }

  lemma BlockMarkedNext(s: State, before: State, after: State, start: nat, n: nat, flags: Flags)
    requires n > 0 && start + n <= |s.frames| <= 64 * |s.bitmap| && BlockMarked(s, before, start, n - 1, flags)
    requires |after.bitmap| == |before.bitmap| && SameSpans(before.zones, after.zones)
    requires after.frames == before.frames[start + n - 1 := FrameInit(before.frames[start + n - 1], flags)]
    requires forall q :: 0 <= q < 64 * |s.bitmap| ==>
               (Marked(after.bitmap, q) <==> Marked(before.bitmap, q) || q == start + n - 1)
    ensures BlockMarked(s, after, start, n, flags)
  {
    hide Marked;
    hide FrameInit;
  }

  lemma MarkOneAt(s: State, p: nat, flags: Flags)
    requires p < |s.frames| <= 64 * |s.bitmap|
    requires s.frames[p].zone.Some? && s.frames[p].zone.value < |s.zones|
    ensures var r := MarkOne(s, p, flags);
      && |r.bitmap| == |s.bitmap| && r.frames == s.frames[p := FrameInit(s.frames[p], flags)]
      && SameSpans(s.zones, r.zones)
      && forall q :: 0 <= q < 64 * |s.bitmap| ==> (Marked(r.bitmap, q) <==> Marked(s.bitmap, q) || q == p)
  {
    hide FrameInit;
    hide Marked;
    hide Wrap;
    forall q | 0 <= q < 64 * |s.bitmap|
      ensures Marked(MarkOne(s, p, flags).bitmap, q) <==> Marked(s.bitmap, q) || q == p
    {
      MarkedAfterSet(s.bitmap, p, q);
    }
  }

  ghost predicate SameSpans(zs: seq<Zone>, zs': seq<Zone>) {
    |zs'| == |zs| && forall z :: 0 <= z < |zs| ==> zs'[z].startPfn == zs[z].startPfn && zs'[z].endPfn == zs[z].endPfn
  }

  /** Taking a clear block keeps the agreement of bit, flag and count. */
  lemma TakenKeepsValid(before: State, after: State, z: nat, start: nat, n: nat, flags: Flags)
    requires Valid(before) && Taken(before, after, z, start, n, flags)
    ensures Valid(after) && forall p :: Managed(after, p) <==> Managed(before, p)
  {
    SameZones(before, after);
    forall p | 0 <= p < |after.frames| && Managed(after, p)
      ensures Agrees(after, p)
    {
      assert Managed(before, p) && Agrees(before, p);
    }
  }

  /** States whose zones span the same ranges manage the same frames. */
  lemma SameZones(before: State, after: State)
    requires |after.zones| == |before.zones|
    requires forall z :: 0 <= z < |before.zones| ==>
               after.zones[z].startPfn == before.zones[z].startPfn && after.zones[z].endPfn == before.zones[z].endPfn
    ensures forall p :: Managed(after, p) <==> Managed(before, p)
  {
    forall p
      ensures Managed(after, p) <==> Managed(before, p)
    {
      if Managed(before, p) {
        var z :| 0 <= z < |before.zones| && InZone(before.zones[z], p);
        assert InZone(after.zones[z], p);
      }
      if Managed(after, p) {
        var z :| 0 <= z < |after.zones| && InZone(after.zones[z], p);
        assert InZone(before.zones[z], p);
      }
    }
  }

  // ---------- free_pages ----------

  /** One turn of the freeing loop, for a call whose first frame is in zone z. */
  function FreeOne(s: State, p: nat, z: nat): State
    requires p < |s.frames| <= 64 * |s.bitmap| && z < |s.zones| && s.frames[p].pfn == p
  {
    var f := s.frames[p];
    if Used !in f.flags then s
    else if f.refCount > 1 then s.(frames := s.frames[p := f.(refCount := f.refCount - 1)])
    else
      State(ClearFrame(s.bitmap, p), s.frames[p := f.(flags := {}, refCount := 0)],
            s.zones[z := s.zones[z].(nrFree := Wrap(s.zones[z].nrFree + 1))])
  }

  /** The frames of a block after one release of it. */
  function ReleasedFrames(frames: seq<Frame>, start: nat, n: nat): (r: seq<Frame>)
    requires start + n <= |frames|
    ensures |r| == |frames|
  {
    seq(|frames|, p requires 0 <= p < |frames| =>
      if !(start <= p < start + n) || Used !in frames[p].flags then frames[p]
      else if frames[p].refCount > 1 then frames[p].(refCount := frames[p].refCount - 1)
      else frames[p].(flags := {}, refCount := 0))
  }

  /** A used frame with one reference left. */
  predicate LastOne(f: Frame) { Used in f.flags && f.refCount <= 1 }

  /** The used frames of a block that one release sets free. */
  function LastReferences(frames: seq<Frame>, start: nat, n: nat): nat
    requires start + n <= |frames|
  {
    if n == 0 then 0
    else LastReferences(frames, start, n - 1)
         + if LastOne(frames[start + n - 1]) then 1 else 0
  }

  /** State after i turns of the freeing loop: each used frame loses a reference
      and is unmarked with its last one; the zone counter rises by those. */
  ghost predicate Released(before: State, after: State, z: nat, start: nat, i: nat) {
    && Shaped(before) && start + i <= |before.frames| && z < |before.zones|
    && |after.bitmap| == |before.bitmap|
    && (forall q :: 0 <= q < 64 * |before.bitmap| ==>
          (Marked(after.bitmap, q) <==>
             Marked(before.bitmap, q) && !(start <= q < start + i && LastOne(before.frames[q]))))
    && after.frames == ReleasedFrames(before.frames, start, i)
    && after.zones == before.zones[z :=
         before.zones[z].(nrFree := Wrap(before.zones[z].nrFree + LastReferences(before.frames, start, i)))]
  }

  lemma FreeStep(before: State, s: State, z: nat, start: nat, n: nat)
    requires n > 0 && Released(before, s, z, start, n - 1) && start + n <= |before.frames|
    ensures Released(before, FreeOne(s, start + n - 1, z), z, start, n)
  {
    var p := start + n - 1;
    var s' := FreeOne(s, p, z);
    forall q | 0 <= q < 64 * |before.bitmap|
      ensures Marked(s'.bitmap, q) <==>
                Marked(before.bitmap, q) && !(start <= q < start + n && LastOne(before.frames[q]))
    {
      MarkedAfterClear(s.bitmap, p, q);
    }
    assert s'.frames == ReleasedFrames(before.frames, start, n);
    WrapAgain(before.zones[z].nrFree + LastReferences(before.frames, start, n - 1), 1);
  }

  /** The freeing loop over n frames from start. */
  function FreeFrames(s: State, start: nat, n: nat, z: nat): (r: State)
    requires start + n <= |s.frames| <= 64 * |s.bitmap| && z < |s.zones|
    requires forall p :: 0 <= p < |s.frames| ==> s.frames[p].pfn == p
    ensures |r.bitmap| == |s.bitmap| && |r.frames| == |s.frames| && |r.zones| == |s.zones|
    ensures forall p :: 0 <= p < |s.frames| ==> r.frames[p].pfn == p
  {
    if n == 0 then s else FreeOne(FreeFrames(s, start, n - 1, z), start + n - 1, z)
  }

  lemma FreeFramesNext(s: State, start: nat, n: nat, z: nat)
    requires start + n < |s.frames| <= 64 * |s.bitmap| && z < |s.zones|
    requires forall p :: 0 <= p < |s.frames| ==> s.frames[p].pfn == p
    ensures FreeFrames(s, start, n + 1, z) == FreeOne(FreeFrames(s, start, n, z), start + n, z)
  {
  }

  lemma {:induction false} FreeFramesEffect(s: State, z: nat, start: nat, n: nat)
    requires Shaped(s) && z < |s.zones| && start + n <= |s.frames|
    ensures Released(s, FreeFrames(s, start, n, z), z, start, n)
    decreases n
  {
    if n == 0 {
      assert ReleasedFrames(s.frames, start, 0) == s.frames;
    } else {
      FreeFramesEffect(s, z, start, n - 1);
      FreeStep(s, FreeFrames(s, start, n - 1, z), z, start, n);
    }
  }

  /** Frame by frame: a used frame of the block with more references loses one, with its
      last it loses its flags, count and bit; all others are as before. */
  lemma FreedFrame(s: State, z: nat, start: nat, n: nat, p: nat)
    requires Shaped(s) && z < |s.zones| && start + n <= |s.frames| && p < |s.frames|
    ensures var s', f := FreeFrames(s, start, n, z), s.frames[p];
      && |s'.bitmap| == |s.bitmap| && p < 64 * |s.bitmap| && s'.frames[p].zone == f.zone && s'.frames[p].pfn == p
      && (!(start <= p < start + n && Used in f.flags) ==>
            s'.frames[p] == f && (Marked(s'.bitmap, p) <==> Marked(s.bitmap, p)))
      && (start <= p < start + n && Used in f.flags && f.refCount >= 2 ==>
            && s'.frames[p].flags == f.flags && s'.frames[p].refCount == f.refCount - 1
            && (Marked(s'.bitmap, p) <==> Marked(s.bitmap, p)))
      && (start <= p < start + n && Used in f.flags && f.refCount < 2 ==>
            s'.frames[p].flags == {} && s'.frames[p].refCount == 0 && !Marked(s'.bitmap, p))
  {
    FreeFramesEffect(s, z, start, n);
    hide FreeFrames;
    hide Marked;
  }

  /** The calls of free_pages whose loop stays inside the frame array. */
  ghost predicate Freeable(s: State, page: Option<nat>, n: nat) {
    page.Some? ==>
      && page.value < |s.frames|
      && (s.frames[page.value].zone.Some? ==> s.frames[page.value].zone.value < |s.zones|)
      && s.frames[page.value].pfn + n <= |s.frames|
  }

  /** free_pages: null pointer, no frames, and frames without a zone are refused. */
  ghost function FreePages(s: State, page: Option<nat>, n: nat): State
    requires Shaped(s) && Freeable(s, page, n)
  {
    if page.None? || n == 0 then s
    else
      var f := s.frames[page.value];
      if f.zone.None? || f.pfn >= |s.frames| then s
      else FreeFrames(s, f.pfn, n, f.zone.value)
  }

  /** Releasing frames keeps the agreement of bit, flag and count. */
  lemma ReleasedKeepsValid(before: State, after: State, z: nat, start: nat, n: nat)
    requires Valid(before) && Released(before, after, z, start, n)
    ensures Valid(after) && forall p :: Managed(after, p) <==> Managed(before, p)
  {
    SameZones(before, after);
    forall p | 0 <= p < |after.frames| && Managed(after, p)
      ensures Agrees(after, p)
    {
      assert Managed(before, p) && Agrees(before, p);
    }
  }

  // ---------- the ledger ----------

  ghost function ZoneClear(s: State, z: nat): nat
    requires Shaped(s) && z < |s.zones|
  {
    ClearCount(s.bitmap, s.zones[z].startPfn, s.zones[z].endPfn)
  }

  /** Clear bits of a range after a clear block inside or outside it is marked. */
  lemma {:induction false} ClearCountBlock(b: seq<Word64>, b': seq<Word64>, lo: nat, hi: nat, start: nat, n: nat)
    requires hi <= 64 * |b| && |b'| == |b|
    requires start + n <= lo || hi <= start || lo <= start
    requires forall q :: lo <= q < hi ==> (Marked(b', q) <==> Marked(b, q) || start <= q < start + n)
    requires forall q :: lo <= q < hi && start <= q < start + n ==> !Marked(b, q)
    ensures ClearCount(b', lo, hi) == ClearCount(b, lo, hi)
      - if start + n <= lo || hi <= start then 0 else if start + n <= hi then n else hi - start
    decreases hi - lo
  {
    if lo < hi { ClearCountBlock(b, b', lo, hi - 1, start, n); }
  }

  /** One more frame of the range. */
  lemma ReleasedFrame(before: State, after: State, z: nat, start: nat, n: nat, p: nat)
    requires Valid(before) && Released(before, after, z, start, n) && p < |before.frames| && Managed(before, p)
    ensures p < 64 * |after.bitmap| && |after.bitmap| == |before.bitmap|
    ensures LastOne(before.frames[p]) ==> Marked(before.bitmap, p)
    ensures Marked(after.bitmap, p) <==> Marked(before.bitmap, p) && !(start <= p < start + n && LastOne(before.frames[p]))
  {
    assert Agrees(before, p);
  }

  /** Clear bits of a range after a block inside it loses its last references. */
  lemma {:induction false} ClearCountReleased(before: State, after: State, z: nat, start: nat, n: nat, lo: nat, hi: nat)
    requires Valid(before) && Released(before, after, z, start, n) && hi <= |before.frames|
    requires forall q :: lo <= q < hi ==> Managed(before, q)
    requires lo <= start
    ensures ClearCount(after.bitmap, lo, hi) == ClearCount(before.bitmap, lo, hi)
      + if hi <= start then 0 else LastReferences(before.frames, start, if start + n <= hi then n else hi - start)
    decreases hi - lo
  {
    if lo < hi {
      ReleasedFrame(before, after, z, start, n, hi - 1);
      hide Valid;
      hide Released;
      hide Managed;
      hide Marked;
      hide LastOne;
      ClearCountReleased(before, after, z, start, n, lo, hi - 1);
    }
  }
}
