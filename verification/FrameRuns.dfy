/** Runs of the allocator: every reference to a frame is a block held by someone,
    and the counts, flags, bits and counters stay exact over whole runs. */
module FrameRuns {
  import opened MachineTypes
  import opened FrameSearch
  import opened FrameState

  /** Frames held together: handed out by alloc_pages, or one frame shared. */
  datatype Block = Block(start: nat, n: nat)

  predicate Holds(b: Block, p: nat) { b.start <= p < b.start + b.n }

  /** How many of the held blocks contain frame p. */
  function Holders(held: seq<Block>, p: nat): nat {
    if held == [] then 0 else Holders(held[..|held| - 1], p) + if Holds(held[|held| - 1], p) then 1 else 0
  }

  function Without(held: seq<Block>, b: nat): seq<Block>
    requires b < |held|
  {
    held[..b] + held[b + 1..]
  }

  lemma WithoutAt(held: seq<Block>, b: nat, a: nat)
    requires b < |held| && a < |held| - 1
    ensures |Without(held, b)| == |held| - 1
    ensures Without(held, b)[a] == if a < b then held[a] else held[a + 1]
  {
  }

  lemma {:induction false} HoldersAppend(xs: seq<Block>, ys: seq<Block>, p: nat)
    ensures Holders(xs + ys, p) == Holders(xs, p) + Holders(ys, p)
    decreases |ys|
  {
    if ys == [] {
      assert xs + ys == xs;
    } else {
      assert (xs + ys)[..|xs + ys| - 1] == xs + ys[..|ys| - 1];
      HoldersAppend(xs, ys[..|ys| - 1], p);
    }
  }

  lemma OneMore(held: seq<Block>, block: Block, p: nat)
    ensures Holders(held + [block], p) == Holders(held, p) + if Holds(block, p) then 1 else 0
  {
    assert (held + [block])[..|held|] == held;
  }

  lemma HoldersWithout(held: seq<Block>, b: nat, p: nat)
    requires b < |held|
    ensures Holders(held, p) == Holders(Without(held, b), p) + if Holds(held[b], p) then 1 else 0
  {
    assert held == (held[..b] + [held[b]]) + held[b + 1..];
    HoldersAppend(held[..b] + [held[b]], held[b + 1..], p);
    HoldersAppend(held[..b], [held[b]], p);
    HoldersAppend(held[..b], held[b + 1..], p);
    assert Holders([held[b]], p) == if Holds(held[b], p) then 1 else 0 by {
      assert [held[b]][..0] == [];
    }
  }

  /** The block lies in zone z. */
  ghost predicate Within(s: State, b: Block, z: nat) {
    b.n > 0 && z < |s.zones| && s.zones[z].startPfn <= b.start && b.start + b.n <= s.zones[z].endPfn
  }

  ghost predicate WithinSome(s: State, b: Block) { exists z: nat :: Within(s, b, z) }

  /** Each managed frame's count is the number of blocks that hold it. */
  ghost predicate Accounted(s: State, held: seq<Block>) {
    && Valid(s)
    && (forall b :: 0 <= b < |held| ==> WithinSome(s, held[b]))
    && (forall p: nat :: p < |s.frames| && Managed(s, p) ==> s.frames[p].refCount == Holders(held, p))
  }

  /** A managed frame is marked, and used, exactly while some block holds it. */
  lemma MarkedIffHeld(s: State, held: seq<Block>, p: nat)
    requires Accounted(s, held) && p < |s.frames| && Managed(s, p)
    ensures Marked(s.bitmap, p) <==> Holders(held, p) > 0
    ensures Used in s.frames[p].flags <==> Holders(held, p) > 0
  {
    assert Agrees(s, p);
  }

  lemma WithinManaged(s: State, b: Block, p: nat)
    requires Shaped(s) && WithinSome(s, b) && Holds(b, p)
    ensures p < |s.frames| && Managed(s, p)
  {
    var z: nat :| Within(s, b, z);
    assert InZone(s.zones[z], p);
  }

  lemma WithinStays(s: State, s': State, held: seq<Block>)
    requires forall b :: 0 <= b < |held| ==> WithinSome(s, held[b])
    requires |s'.zones| == |s.zones|
    requires forall z :: 0 <= z < |s.zones| ==>
               s'.zones[z].startPfn == s.zones[z].startPfn && s'.zones[z].endPfn == s.zones[z].endPfn
    ensures forall b :: 0 <= b < |held| ==> WithinSome(s', held[b])
  {
    forall b | 0 <= b < |held|
      ensures WithinSome(s', held[b])
    {
      var z: nat :| Within(s, held[b], z);
      assert Within(s', held[b], z);
    }
  }

  // ---------- steps ----------

  datatype Op =
    | Alloc(kind: ZoneType, n: nat, flags: Flags)
    | Share(p: nat, flags: Flags)
    | Release(b: nat)

  /** The calls a run may make: requests in scope; page_init on used frames below
      the counter's limit; free_pages on whole held blocks. */
  ghost predicate Allowed(s: State, held: seq<Block>, op: Op)
    requires Shaped(s)
  {
    match op
    case Alloc(kind, n, flags) => Request(s, kind, n)
    case Share(p, flags) =>
      p < |s.frames| && Managed(s, p) && Used in s.frames[p].flags && s.frames[p].refCount < 0xFFFF
    case Release(b) => b < |held|
  }

  /** Whether a call of page_init on a used frame adds a reference. */
  predicate AddsReference(s: State, p: nat, flags: Flags)
    requires p < |s.frames|
  {
    User in flags || User in s.frames[p].flags
  }

  /** What one call does to state and holders. */
  ghost function Execute(s: State, held: seq<Block>, op: Op): (State, seq<Block>)
    requires Accounted(s, held) && Allowed(s, held, op)
  {
    match op
    case Alloc(kind, n, flags) =>
      var (r, s') := AllocPages(s, kind, n, flags);
      (s', if r.None? then held else held + [Block(r.value, n)])
    case Share(p, flags) =>
      ManagedZone(s, p);
      (PageInit(s, p, flags), if AddsReference(s, p, flags) then held + [Block(p, 1)] else held)
    case Release(b) =>
      BlockFreeable(s, held[b]);
      (FreePages(s, Some(held[b].start), held[b].n), Without(held, b))
  }

  lemma ManagedZone(s: State, p: nat)
    requires Shaped(s) && Managed(s, p)
    ensures p < |s.frames| && s.frames[p].zone.Some? && s.frames[p].zone.value < |s.zones|
    ensures InZone(s.zones[s.frames[p].zone.value], p)
  {
    var z: nat :| z < |s.zones| && InZone(s.zones[z], p);
    assert s.frames[p].zone == Some(z);
  }

  /** A held block can be freed, by way of the zone it lies in. */
  lemma BlockFreeable(s: State, b: Block)
    requires Shaped(s) && WithinSome(s, b)
    ensures Freeable(s, Some(b.start), b.n) && s.frames[b.start].zone.Some?
    ensures var z := s.frames[b.start].zone.value;
      Within(s, b, z) && FreePages(s, Some(b.start), b.n) == FreeFrames(s, b.start, b.n, z)
  {
    var z: nat :| Within(s, b, z);
    assert InZone(s.zones[z], b.start);
    assert s.frames[b.start].zone == Some(z);
  }

  /** A block handed out shares no frame with any block held before. */
  lemma AllocDisjoint(s: State, held: seq<Block>, kind: ZoneType, n: nat, b: nat, p: nat)
    requires Accounted(s, held) && Request(s, kind, n) && Placement(s, kind, n).Some? && b < |held|
    ensures !(Holds(held[b], p) && Holds(Block(Placement(s, kind, n).value, n), p))
  {
    if Holds(Block(Placement(s, kind, n).value, n), p) {
      PlacementSound(s, kind, n);
      assert s.frames[p].refCount == Holders(held, p) == 0;
      HoldersWithout(held, b, p);
    }
  }

  /** The frames of a block that alloc_pages takes without looking at them: each is
      unused, or gains a reference from page_init. */
  ghost predicate TailCounts(s: State, start: nat, n: nat, flags: Flags)
    requires start + n <= |s.frames|
  {
    forall p :: start + Looked(n, start) <= p < start + n && Used in s.frames[p].flags ==>
      AddsReference(s, p, flags) && s.frames[p].refCount < 0xFFFF
  }

  /** Marking a block that lies in a zone keeps bit, flag and count equivalent on every
      frame outside it. */
  lemma MarkedAgrees(s: State, s': State, start: nat, n: nat, flags: Flags, p: nat)
    requires Valid(s) && p < |s.frames| == |s'.frames| && |s'.bitmap| == |s.bitmap| && Managed(s, p)
    requires Marked(s'.bitmap, p) <==> Marked(s.bitmap, p) || start <= p < start + n
    requires s'.frames[p] == if start <= p < start + n then FrameInit(s.frames[p], flags) else s.frames[p]
    ensures Agrees(s', p) <==>
      !(start <= p < start + n && Used in s.frames[p].flags && AddsReference(s, p, flags) && s.frames[p].refCount == 0xFFFF)
  {
    assert Agrees(s, p);
  }

  /** A successful call keeps every frame's count equal to its holders, the new block
      among them, exactly when the frames it did not look at count. */
  lemma TornAccount(s: State, held: seq<Block>, kind: ZoneType, n: nat, flags: Flags)
    requires Accounted(s, held) && Servable(s, kind, n) && Placement(s, kind, n).Some?
    ensures Placement(s, kind, n).value + n <= |s.frames|
    ensures Accounted(AllocPages(s, kind, n, flags).1, held + [Block(Placement(s, kind, n).value, n)])
      <==> TailCounts(s, Placement(s, kind, n).value, n, flags)
  {
    assert ChooseZone(s.zones, kind, n, 0).Some?;
    var z, start := ChooseZone(s.zones, kind, n, 0).value, Placement(s, kind, n).value;
    PlacementInZone(s, kind, n);
    MarkFramesAt(s, start, n, flags);
    var s', held' := AllocPages(s, kind, n, flags).1, held + [Block(start, n)];
    hide AllocPages;
    hide Placement;
    hide ChooseZone;
    hide MarkFrames;
    SameZones(s, s');
    if TailCounts(s, start, n, flags) {
      MarkedAccounted(s, held, s', z, start, n, flags);
    } else {
      MarkedUnaccounted(s, held, s', start, n, flags);
    }
  }

  lemma MarkedAccounted(s: State, held: seq<Block>, s': State, z: nat, start: nat, n: nat, flags: Flags)
    requires Accounted(s, held) && BlockMarked(s, s', start, n, flags) && Within(s, Block(start, n), z)
    requires start + n <= |s.frames| && RunClear(s.bitmap, start, Looked(n, start)) && TailCounts(s, start, n, flags)
    ensures Accounted(s', held + [Block(start, n)])
  {
    var held' := held + [Block(start, n)];
    SameZones(s, s');
    WithinStays(s, s', held);
    assert Within(s', Block(start, n), z);
    forall p: nat | p < |s'.frames| && Managed(s', p)
      ensures Agrees(s', p) && s'.frames[p].refCount == Holders(held', p)
    {
      assert Managed(s, p) && Agrees(s, p);
      MarkedAgrees(s, s', start, n, flags, p);
      OneMore(held, Block(start, n), p);
      if start <= p < start + Looked(n, start) { assert !Marked(s.bitmap, p); }
    }
  }

  lemma MarkedUnaccounted(s: State, held: seq<Block>, s': State, start: nat, n: nat, flags: Flags)
    requires Accounted(s, held) && BlockMarked(s, s', start, n, flags)
    requires start + n <= |s.frames| && !TailCounts(s, start, n, flags)
    requires forall p :: start <= p < start + n ==> Managed(s, p)
    ensures !Accounted(s', held + [Block(start, n)])
  {
    var p: nat :| start + Looked(n, start) <= p < start + n && Used in s.frames[p].flags
      && !(AddsReference(s, p, flags) && s.frames[p].refCount < 0xFFFF);
    SameZones(s, s');
    assert Managed(s, p) && Agrees(s, p) && Managed(s', p);
    OneMore(held, Block(start, n), p);
  }

  lemma AllocAccounted(s: State, held: seq<Block>, kind: ZoneType, n: nat, flags: Flags)
    requires Accounted(s, held) && Request(s, kind, n) && Placement(s, kind, n).Some?
    ensures Accounted(AllocPages(s, kind, n, flags).1, held + [Block(Placement(s, kind, n).value, n)])
  {
    TornAccount(s, held, kind, n, flags);
  }

  lemma ShareAccounted(s: State, held: seq<Block>, p: nat, flags: Flags)
    requires Accounted(s, held) && Allowed(s, held, Share(p, flags))
    ensures var (s', held') := Execute(s, held, Share(p, flags)); Accounted(s', held')
  {
    ManagedZone(s, p);
    var z := s.frames[p].zone.value;
    var (s', held') := Execute(s, held, Share(p, flags));
    SameZones(s, s');
    WithinStays(s, s', held);
    assert Within(s', Block(p, 1), z);
    forall b | 0 <= b < |held'|
      ensures WithinSome(s', held'[b])
    {
      if b < |held| { assert held'[b] == held[b]; }
    }
    forall q: nat | q < |s'.frames| && Managed(s', q)
      ensures Agrees(s', q) && s'.frames[q].refCount == Holders(held', q)
    {
      assert Managed(s, q) && Agrees(s, q);
      if held' != held { assert held'[..|held|] == held; }
    }
  }

  lemma ReleaseAccounted(s: State, held: seq<Block>, b: nat)
    requires Accounted(s, held) && b < |held|
    ensures var (s', held') := Execute(s, held, Release(b)); Accounted(s', held')
  {
    BlockFreeable(s, held[b]);
    var z := s.frames[held[b].start].zone.value;
    var (s', held') := Execute(s, held, Release(b));
    FreeFramesEffect(s, z, held[b].start, held[b].n);
    ReleasedKeepsValid(s, s', z, held[b].start, held[b].n);
    WithinStays(s, s', held);
    forall a | 0 <= a < |held'|
      ensures WithinSome(s', held'[a])
    {
      WithoutAt(held, b, a);
    }
    forall p: nat | p < |s'.frames| && Managed(s', p)
      ensures s'.frames[p].refCount == Holders(held', p)
    {
      assert Managed(s, p);
      HoldersWithout(held, b, p);
      MarkedIffHeld(s, held, p);
    }
  }

  /** Every allowed call keeps the account. */
  lemma StepAccounted(s: State, held: seq<Block>, op: Op)
    requires Accounted(s, held) && Allowed(s, held, op)
    ensures var (s', held') := Execute(s, held, op); Accounted(s', held')
  {
    match op
    case Alloc(kind, n, flags) =>
      if Placement(s, kind, n).Some? { AllocAccounted(s, held, kind, n, flags); }
    case Share(p, flags) => ShareAccounted(s, held, p, flags);
    case Release(b) => ReleaseAccounted(s, held, b);
  }

  // ---------- runs ----------

  ghost predicate RunAllowed(s: State, held: seq<Block>, ops: seq<Op>)
    requires Accounted(s, held)
    decreases |ops|
  {
    ops == [] || (
      && Allowed(s, held, ops[0])
      && (StepAccounted(s, held, ops[0]);
          var (s', held') := Execute(s, held, ops[0]);
          RunAllowed(s', held', ops[1..])))
  }

  /** Over any run of allowed calls each managed frame stays marked, used and
      counted exactly as often as it is held. */
  ghost function RunState(s: State, held: seq<Block>, ops: seq<Op>): (r: (State, seq<Block>))
    requires Accounted(s, held) && RunAllowed(s, held, ops)
    ensures Accounted(r.0, r.1)
    decreases |ops|
  {
    if ops == [] then (s, held)
    else
      StepAccounted(s, held, ops[0]);
      var (s', held') := Execute(s, held, ops[0]);
      RunState(s', held', ops[1..])
  }

  /** After any run, a block handed out next shares no frame with any block held. */
  lemma RunThenAllocDisjoint(s: State, held: seq<Block>, ops: seq<Op>, kind: ZoneType, n: nat, b: nat, p: nat)
    requires Accounted(s, held) && RunAllowed(s, held, ops)
    requires var (s', held') := RunState(s, held, ops);
      Request(s', kind, n) && Placement(s', kind, n).Some? && b < |held'|
    ensures var (s', held') := RunState(s, held, ops);
      !(Holds(held'[b], p) && Holds(Block(Placement(s', kind, n).value, n), p))
  {
    var (s', held') := RunState(s, held, ops);
    AllocDisjoint(s', held', kind, n, b, p);
  }

  /** Releasing one holder of a frame: the frame is free afterwards exactly when
      that holder was the last. */
  lemma FreeAtLastRelease(s: State, held: seq<Block>, b: nat, p: nat)
    requires Accounted(s, held) && b < |held| && Holds(held[b], p)
    ensures p < |s.frames|
    ensures var (s', held') := Execute(s, held, Release(b));
      && |s'.frames| == |s.frames| && |s'.bitmap| == |s.bitmap|
      && (Marked(s'.bitmap, p) <==> Holders(held, p) > 1)
      && (Used in s'.frames[p].flags <==> Holders(held, p) > 1)
      && s'.frames[p].refCount == Holders(held, p) - 1
  {
    WithinManaged(s, held[b], p);
    StepAccounted(s, held, Release(b));
    var (s', held') := Execute(s, held, Release(b));
    BlockFreeable(s, held[b]);
    FreeFramesEffect(s, s.frames[held[b].start].zone.value, held[b].start, held[b].n);
    SameZones(s, s');
    HoldersWithout(held, b, p);
    MarkedIffHeld(s', held', p);
  }

  lemma StepZones(s: State, held: seq<Block>, op: Op)
    requires Accounted(s, held) && Allowed(s, held, op)
    ensures var s' := Execute(s, held, op).0;
      && |s'.zones| == |s.zones| && |s'.frames| == |s.frames| && |s'.bitmap| == |s.bitmap|
      && forall z :: 0 <= z < |s.zones| ==>
           s'.zones[z].startPfn == s.zones[z].startPfn && s'.zones[z].endPfn == s.zones[z].endPfn
  {
    match op
    case Alloc(kind, n, flags) =>
      if Placement(s, kind, n).Some? { AllocTakes(s, kind, n, flags); }
    case Share(p, flags) => ManagedZone(s, p);
    case Release(b) =>
      BlockFreeable(s, held[b]);
      FreeFramesEffect(s, s.frames[held[b].start].zone.value, held[b].start, held[b].n);
  }

  // ---------- counting references ----------

  /** Holders of frame p that one call adds. */
  ghost function Adds(s: State, held: seq<Block>, op: Op, p: nat): int
    requires Accounted(s, held) && Allowed(s, held, op)
  {
    match op
    case Alloc(kind, n, flags) =>
      if Placement(s, kind, n).Some? && Holds(Block(Placement(s, kind, n).value, n), p) then 1 else 0
    case Share(q, flags) => if q == p && AddsReference(s, q, flags) then 1 else 0
    case Release(b) => if Holds(held[b], p) then -1 else 0
  }

  lemma StepHolders(s: State, held: seq<Block>, op: Op, p: nat)
    requires Accounted(s, held) && Allowed(s, held, op)
    ensures Holders(Execute(s, held, op).1, p) == Holders(held, p) + Adds(s, held, op, p)
  {
    match op
    case Alloc(kind, n, flags) =>
      if Placement(s, kind, n).Some? { OneMore(held, Block(Placement(s, kind, n).value, n), p); }
    case Share(q, flags) =>
      OneMore(held, Block(q, 1), p);
    case Release(b) =>
      HoldersWithout(held, b, p);
  }

  /** Holders of frame p that a run adds: grants and shares less releases. */
  ghost function RunAdds(s: State, held: seq<Block>, ops: seq<Op>, p: nat): int
    requires Accounted(s, held) && RunAllowed(s, held, ops)
    decreases |ops|
  {
    if ops == [] then 0
    else
      StepAccounted(s, held, ops[0]);
      var (s', held') := Execute(s, held, ops[0]);
      Adds(s, held, ops[0], p) + RunAdds(s', held', ops[1..], p)
  }

  /** Over any run a frame's holders change by grants and shares less releases. */
  lemma {:induction false} RunHolders(s: State, held: seq<Block>, ops: seq<Op>, p: nat)
    requires Accounted(s, held) && RunAllowed(s, held, ops)
    ensures Holders(RunState(s, held, ops).1, p) == Holders(held, p) + RunAdds(s, held, ops, p)
    decreases |ops|
  {
    hide Execute;
    hide Adds;
    hide Holders;
    if ops != [] {
      StepAccounted(s, held, ops[0]);
      StepHolders(s, held, ops[0], p);
      var (s', held') := Execute(s, held, ops[0]);
      RunHolders(s', held', ops[1..], p);
    }
  }

  lemma {:induction false} RunManages(s: State, held: seq<Block>, ops: seq<Op>, p: nat)
    requires Accounted(s, held) && RunAllowed(s, held, ops)
    ensures var last := RunState(s, held, ops).0; |last.frames| == |s.frames| && (Managed(last, p) <==> Managed(s, p))
    decreases |ops|
  {
    hide Execute;
    hide Accounted;
    if ops != [] {
      StepAccounted(s, held, ops[0]);
      StepZones(s, held, ops[0]);
      var (s', held') := Execute(s, held, ops[0]);
      SameZones(s, s');
      RunManages(s', held', ops[1..], p);
    }
  }

  /** Over any run a zone frame's reference count changes by grants and shares less
      releases, and the frame is free exactly when the count is zero: shared k times,
      it becomes free at its release number k + 1. */
  lemma ReferenceCount(s: State, held: seq<Block>, ops: seq<Op>, p: nat)
    requires Accounted(s, held) && RunAllowed(s, held, ops) && p < |s.frames| && Managed(s, p)
    ensures var last := RunState(s, held, ops).0;
      && |last.frames| == |s.frames| <= 64 * |last.bitmap|
      && last.frames[p].refCount == s.frames[p].refCount + RunAdds(s, held, ops, p)
      && (Marked(last.bitmap, p) <==> last.frames[p].refCount > 0)
  {
    RunHolders(s, held, ops, p);
    RunManages(s, held, ops, p);
    var (last, held') := RunState(s, held, ops);
    MarkedIffHeld(last, held', p);
  }

  // ---------- the ledger ----------

  /** Frames ever handed out from zone z by a run. */
  ghost function EverTaken(s: State, held: seq<Block>, ops: seq<Op>, z: nat): nat
    requires Accounted(s, held) && RunAllowed(s, held, ops) && z < |s.zones|
    decreases |ops|
  {
    if ops == [] then 0
    else
      StepAccounted(s, held, ops[0]);
      StepZones(s, held, ops[0]);
      var (s', held') := Execute(s, held, ops[0]);
      StepTakes(s, ops[0], z) + EverTaken(s', held', ops[1..], z)
  }

  /** Frames one call hands out from zone z. */
  ghost function StepTakes(s: State, op: Op, z: nat): nat
    requires Shaped(s) && (op.Alloc? ==> Request(s, op.kind, op.n))
  {
    if op.Alloc? && Placement(s, op.kind, op.n).Some? && ChooseZone(s.zones, op.kind, op.n, 0) == Some(z)
    then op.n else 0
  }

  lemma ZoneApart(s: State, y: nat, z: nat)
    requires Shaped(s) && y < |s.zones| && z < |s.zones| && y != z
    requires s.zones[y].startPfn < s.zones[y].endPfn && s.zones[z].startPfn < s.zones[z].endPfn
    ensures s.zones[y].endPfn <= s.zones[z].startPfn || s.zones[z].endPfn <= s.zones[y].startPfn
  {
    var p := if s.zones[y].startPfn < s.zones[z].startPfn then s.zones[z].startPfn else s.zones[y].startPfn;
    if InZone(s.zones[y], p) && InZone(s.zones[z], p) { OneZone(s, y, z, p); }
  }

  /** Taking a clear block of zone y moves that zone's books only. */
  lemma TakenBalance(s: State, s': State, y: nat, start: nat, n: nat, flags: Flags, z: nat)
    requires Shaped(s) && Shaped(s') && Taken(s, s', y, start, n, flags) && z < |s.zones|
    requires s.zones[y].startPfn <= start && start + n <= s.zones[y].endPfn && n > 0 && RunClear(s.bitmap, start, n)
    ensures var took := if z == y then n else 0;
      z < |s'.zones| && ZoneClear(s', z) == ZoneClear(s, z) - took
      && s'.zones[z].nrFree == Wrap(s.zones[z].nrFree - 2 * took)
  {
    hide TakenFrames;
    hide ClearCount;
    var lo, hi := s.zones[z].startPfn, s.zones[z].endPfn;
    assert s'.zones[z].startPfn == lo && s'.zones[z].endPfn == hi;
    if z != y && lo < hi { ZoneApart(s, y, z); }
    if lo < hi {
      ClearCountBlock(s.bitmap, s'.bitmap, lo, hi, start, n);
    } else {
      ClearCountNone(s.bitmap, s'.bitmap, lo, hi);
    }
  }

  lemma ClearCountNone(b: seq<Word64>, b': seq<Word64>, lo: nat, hi: nat)
    requires hi <= lo && hi <= 64 * |b| && hi <= 64 * |b'|
    ensures ClearCount(b, lo, hi) == ClearCount(b', lo, hi) == 0
  {
  }

  lemma AllocBalance(s: State, kind: ZoneType, n: nat, flags: Flags, z: nat)
    requires Valid(s) && Request(s, kind, n) && Placement(s, kind, n).Some? && z < |s.zones|
    ensures var s', took := AllocPages(s, kind, n, flags).1, StepTakes(s, Alloc(kind, n, flags), z);
      Valid(s') && z < |s'.zones| && ZoneClear(s', z) == ZoneClear(s, z) - took
      && s'.zones[z].nrFree == Wrap(s.zones[z].nrFree - 2 * took)
  {
    assert ChooseZone(s.zones, kind, n, 0).Some?;
    hide AllocPages;
    hide Placement;
    hide ChooseZone;
    hide Taken;
    hide ZoneClear;
    var y, start := ChooseZone(s.zones, kind, n, 0).value, Placement(s, kind, n).value;
    var s' := AllocPages(s, kind, n, flags).1;
    PlacementSound(s, kind, n);
    AllocTakes(s, kind, n, flags);
    TakenKeepsValid(s, s', y, start, n, flags);
    TakenBalance(s, s', y, start, n, flags, z);
  }

  /** Releasing a block of zone y moves that zone's books only. */
  lemma ReleasedBalance(s: State, s': State, y: nat, start: nat, n: nat, z: nat)
    requires Valid(s) && Shaped(s') && Released(s, s', y, start, n) && z < |s.zones|
    requires s.zones[y].startPfn <= start && start + n <= s.zones[y].endPfn && n > 0
    ensures |s'.zones| == |s.zones| && ZoneClear(s', z) >= ZoneClear(s, z)
      && s'.zones[z].nrFree == Wrap(s.zones[z].nrFree + (ZoneClear(s', z) - ZoneClear(s, z)))
  {
    hide ReleasedFrames;
    hide ClearCount;
    var lo, hi := s.zones[z].startPfn, s.zones[z].endPfn;
    assert s'.zones[z].startPfn == lo && s'.zones[z].endPfn == hi;
    if lo < hi && z != y {
      ZoneApart(s, y, z);
      ClearCountSame(s.bitmap, s'.bitmap, lo, hi);
    } else if lo < hi {
      assert forall q: nat :: lo <= q < hi ==> InZone(s.zones[z], q);
      ClearCountReleased(s, s', y, start, n, lo, hi);
    } else {
      ClearCountNone(s.bitmap, s'.bitmap, lo, hi);
    }
  }

  lemma ReleaseBalance(s: State, held: seq<Block>, b: nat, z: nat)
    requires Accounted(s, held) && b < |held| && z < |s.zones|
    ensures var s' := Execute(s, held, Release(b)).0;
      && Valid(s') && |s'.zones| == |s.zones| && ZoneClear(s', z) >= ZoneClear(s, z)
      && s'.zones[z].nrFree == Wrap(s.zones[z].nrFree + (ZoneClear(s', z) - ZoneClear(s, z)))
  {
    hide Wrap;
    hide Agrees;
    hide Holders;
    hide Marked;
    hide ZoneClear;
    hide Released;
    hide FreeFrames;
    var s', start, n := Execute(s, held, Release(b)).0, held[b].start, held[b].n;
    BlockFreeable(s, held[b]);
    var y := s.frames[start].zone.value;
    FreeFramesEffect(s, y, start, n);
    ReleasedKeepsValid(s, s', y, start, n);
    ReleasedBalance(s, s', y, start, n, z);
  }

  /** A zone's counter moved from c to c' while its clear frames went from clear
      to clear' and took frames were handed out: c + took - clear is unchanged
      modulo 2^64. */
  ghost predicate Booked(c: Word64, c': Word64, clear: nat, clear': nat, took: nat) {
    c' == Wrap(c + clear' - clear - took)
  }

  lemma BookedMeans(c: Word64, c': Word64, clear: nat, clear': nat, took: nat)
    ensures Booked(c, c', clear, clear', took) <==> (c' + took - clear') % TWO64 == (c - clear) % TWO64
  {
    var x := c + clear' - clear - took;
    WrapIsModulo(x);
    WrapShift(x, x / TWO64);
    if Booked(c, c', clear, clear', took) {
      WrapShift(c - clear, x / TWO64);
    }
    if (c' + took - clear') % TWO64 == (c - clear) % TWO64 {
      var q := (c' + took - clear') / TWO64 - (c - clear) / TWO64;
      WrapShift(c', q);
    }
  }

  lemma BookedNone(c: Word64, k: nat)
    ensures Booked(c, c, k, k, 0)
  {
  }

  lemma BookedTwice(c0: Word64, c1: Word64, c2: Word64, k0: nat, k1: nat, k2: nat, t1: nat, t2: nat)
    requires Booked(c0, c1, k0, k1, t1) && Booked(c1, c2, k1, k2, t2)
    ensures Booked(c0, c2, k0, k2, t1 + t2)
  {
    WrapAgain(c0 + k1 - k0 - t1, k2 - k1 - t2);
  }

  /** One call keeps the books of every zone. */
  lemma StepBooked(s: State, held: seq<Block>, op: Op, z: nat)
    requires Accounted(s, held) && Allowed(s, held, op) && z < |s.zones|
    ensures var s' := Execute(s, held, op).0;
      && Shaped(s') && z < |s'.zones|
      && Booked(s.zones[z].nrFree, s'.zones[z].nrFree, ZoneClear(s, z), ZoneClear(s', z), StepTakes(s, op, z))
  {
    hide Agrees;
    hide Holders;
    hide ClearCount;
    match op
    case Alloc(kind, n, flags) =>
      if Placement(s, kind, n).Some? { AllocBalance(s, kind, n, flags, z); }
    case Share(p, flags) => ManagedZone(s, p);
    case Release(b) => ReleaseBalance(s, held, b, z);
  }

  /** Over any run of allowed calls each zone's counter plus the frames ever
      taken from it, minus its clear frames, stays the same modulo 2^64. */
  lemma {:induction false} Ledger(s: State, held: seq<Block>, ops: seq<Op>, z: nat)
    requires Accounted(s, held) && RunAllowed(s, held, ops) && z < |s.zones|
    ensures var last := RunState(s, held, ops).0;
      && z < |last.zones|
      && Booked(s.zones[z].nrFree, last.zones[z].nrFree, ZoneClear(s, z), ZoneClear(last, z),
                EverTaken(s, held, ops, z))
    decreases |ops|
  {
    hide Execute;
    hide StepTakes;
    hide ZoneClear;
    hide Booked;
    hide Agrees;
    hide Holders;
    BookedNone(s.zones[z].nrFree, ZoneClear(s, z));
    if ops != [] {
      StepAccounted(s, held, ops[0]);
      StepZones(s, held, ops[0]);
      StepBooked(s, held, ops[0], z);
      var (s', held') := Execute(s, held, ops[0]);
      Ledger(s', held', ops[1..], z);
      var last := RunState(s', held', ops[1..]).0;
      var took, rest := StepTakes(s, ops[0], z), EverTaken(s', held', ops[1..], z);
      assert RunState(s, held, ops).0 == last;
      assert EverTaken(s, held, ops, z) == took + rest;
      BookedTwice(s.zones[z].nrFree, s'.zones[z].nrFree, last.zones[z].nrFree,
                  ZoneClear(s, z), ZoneClear(s', z), ZoneClear(last, z), took, rest);
    }
  }
}
