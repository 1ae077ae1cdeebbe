/** The commands on image bytes refine commands on a map from slots to files:
    same verdicts, same files, for every run that starts with a format. */
module VolumeRefinement {
  import opened MachineTypes
  import opened ImageBytes
  import opened FatTable
  import opened Chains
  import opened Directory
  import opened ClusterStore
  import opened Ownership
  import opened Volume

  // ---------- the abstract commands ----------

  /** Clusters needed by the files in the first n slots. */
  function FilesNeeded(m: Files, n: nat): nat
    decreases n, |m|
  {
    if n == 0 then 0
    else FilesNeeded(m, n - 1) + if n - 1 in m then ClusterCount(|m[n - 1].data|) else 0
  }

  function FreeClusters(m: Files): int { FAT_ENTRIES - 2 - FilesNeeded(m, FILE_COUNT) }

  /** The least slot from i up that holds no file. */
  function LeastFree(m: Files, i: nat): (r: Option<nat>)
    ensures r.Some? ==> i <= r.value < FILE_COUNT && r.value !in m
    ensures forall j: nat :: i <= j < (if r.Some? then r.value else FILE_COUNT) ==> j in m
    decreases FILE_COUNT - i, |m|
  {
    if i >= FILE_COUNT then None else if i !in m then Some(i) else LeastFree(m, i + 1)
  }

  /** The least slot from i up whose file has this name. */
  function LeastNamed(m: Files, name: Name, i: nat): (r: Option<nat>)
    ensures r.Some? ==> i <= r.value < FILE_COUNT && r.value in m && m[r.value].name == name
    ensures forall j: nat :: i <= j < (if r.Some? then r.value else FILE_COUNT) ==> !(j in m && m[j].name == name)
    decreases FILE_COUNT - i, |m|
  {
    if i >= FILE_COUNT then None
    else if i in m && m[i].name == name then Some(i)
    else LeastNamed(m, name, i + 1)
  }

  /** Saving succeeds exactly when the host file exists, a slot is free, and the
      clusters left suffice; an empty file needs one cluster left. It adds the
      file, under its name without trailing blanks, in the least free slot. */
  function SaveFile(m: Files, name: Name, host: Option<seq<Byte>>, time: Word, date: Word): (bool, Files) {
    var slot := LeastFree(m, 0);
    if host.None? || slot.None? || FreeClusters(m) < 1 || FreeClusters(m) < ClusterCount(|host.value|)
    then (false, m)
    else (true, m[slot.value := File(RStrip(name), FILE_NORMAL, time, date, host.value)])
  }

  /** Deleting removes the file of that exact name in the least slot. */
  function DeleteFile(m: Files, name: Name): (bool, Files) {
    var slot := LeastNamed(m, name, 0);
    if slot.None? then (false, m) else (true, m - {slot.value})
  }

  // ---------- searches agree ----------

  lemma {:induction false} FreeIndexAgrees(slots: Slots, m: Files, i: nat)
    requires forall j: nat :: j in m <==> j < FILE_COUNT && slots[j].Live?
    ensures FreeIndex(slots, i) == LeastFree(m, i)
    decreases FILE_COUNT - i
  {
    if i < FILE_COUNT { FreeIndexAgrees(slots, m, i + 1); }
  }

  lemma {:induction false} NamedIndexAgrees(slots: Slots, m: Files, name: Name, i: nat)
    requires forall j: nat :: j in m <==> j < FILE_COUNT && slots[j].Live?
    requires forall j: nat :: j in m ==> m[j].name == slots[j].info.name
    ensures NamedIndex(slots, name, i) == LeastNamed(m, name, i)
    decreases FILE_COUNT - i
  {
    if i < FILE_COUNT { NamedIndexAgrees(slots, m, name, i + 1); }
  }

  /** A valid image's file has the recorded length. */
  lemma ContentLength(img: seq<Byte>, i: nat)
    requires Valid(img) && i in Abs(img)
    ensures |Abs(img)[i].data| == SlotsOf(img)[i].info.size
  {
    var fat, slots := FatOf(img), SlotsOf(img);
    assert Held(img, Owned(fat, slots[i]), slots[i].info.size);
    ReadPiecesLength(img, Owned(fat, slots[i]), slots[i].info.size);
  }

  lemma {:induction false} NeededAgrees(slots: Slots, m: Files, n: nat)
    requires forall j: nat :: j in m <==> j < FILE_COUNT && slots[j].Live?
    requires forall j: nat :: j in m ==> |m[j].data| == slots[j].info.size
    requires n <= FILE_COUNT
    ensures ClustersNeeded(slots[..n]) == FilesNeeded(m, n)
    decreases n
  {
    if n > 0 {
      NeededAgrees(slots, m, n - 1);
      assert slots[..n][..n - 1] == slots[..n - 1];
    }
  }

  /** The free clusters of a valid image, counted from its files alone. */
  lemma FreeClustersAgree(img: seq<Byte>)
    requires Valid(img)
    ensures |FreeFrom(FatOf(img), 0)| == FreeClusters(Abs(img))
  {
    FreeCount(FatOf(img), SlotsOf(img));
    forall i: nat | i in Abs(img)
      ensures |Abs(img)[i].data| == SlotsOf(img)[i].info.size
    {
      ContentLength(img, i);
    }
    NeededAgrees(SlotsOf(img), Abs(img), FILE_COUNT);
    assert SlotsOf(img)[..FILE_COUNT] == SlotsOf(img);
  }

  // ---------- replacing one slot ----------

  /** The file of slot s is stored alike in both states. */
  ghost predicate Kept(img: seq<Byte>, fat: Table, img': seq<Byte>, fat': Table, s: Slot) {
    s.Live? ==>
      && Owned(fat', s) == Owned(fat, s)
      && Held(img', Owned(fat, s), s.info.size)
      && ReadPieces(img', Owned(fat, s), s.info.size) == ReadPieces(img, Owned(fat, s), s.info.size)
  }

  lemma StrippedAlready(img: seq<Byte>, j: nat)
    requires ReadableDir(img) && j < FILE_COUNT
    ensures Reread(SlotsOf(img)[j]) == SlotsOf(img)[j]
  {
    var s := SlotsOf(img)[j];
    if s.Live? { RStripUnique(s.info.name, s.info.name); }
  }

  lemma MapPut(m: Files, m': Files, i: nat, f: File)
    requires i < FILE_COUNT && i in m' && m'[i] == f
    requires forall j: nat :: j != i ==> (j in m' <==> j in m)
    requires forall j: nat :: j != i && j in m' ==> m'[j] == m[j]
    ensures m' == m[i := f]
  {
  }

  lemma MapDrop(m: Files, m': Files, i: nat)
    requires i !in m'
    requires forall j: nat :: j != i ==> (j in m' <==> j in m)
    requires forall j: nat :: j != i && j in m' ==> m'[j] == m[j]
    ensures m' == m - {i}
  {
  }

  lemma OtherSlots(img: seq<Byte>, mid: seq<Byte>, i: nat, s: Slot, fat': Table)
    requires Valid(img) && ReadableDir(mid) && SlotsOf(mid) == SlotsOf(img)
    requires i < FILE_COUNT && !s.Never? && forall j :: 0 <= j < i ==> !SlotsOf(img)[j].Never?
    requires Consistent(fat', SlotsOf(img)[i := s])
    requires forall j :: 0 <= j < FILE_COUNT && j != i ==> Kept(img, FatOf(img), mid, fat', SlotsOf(img)[j])
    requires s.Live? ==> Held(mid, Owned(fat', s), s.info.size)
    ensures var out := WriteBack(mid, SlotsOf(img)[i := s], fat');
      && Valid(out)
      && (i in Abs(out) <==> s.Live?)
      && (i in Abs(out) ==> Abs(out)[i] == FileOf(mid, fat', Reread(s)))
      && (forall j: nat :: j != i ==> (j in Abs(out) <==> j in Abs(img)))
      && (forall j: nat :: j != i && j in Abs(out) ==> Abs(out)[j] == Abs(img)[j])
  {
    var slots := SlotsOf(img);
    var slots' := slots[i := s];
    assert NeverLast(slots');
    assert AllHeld(mid, fat', slots') by {
      forall j | 0 <= j < FILE_COUNT && slots'[j].Live?
        ensures Held(mid, Owned(fat', slots'[j]), slots'[j].info.size)
      {
        if j != i { assert Kept(img, FatOf(img), mid, fat', slots[j]); }
      }
    }
    WriteBackValid(mid, slots', fat');
    var out := WriteBack(mid, slots', fat');
    WriteBackAbs(mid, slots', fat', i);
    forall j: nat | j != i
      ensures j in Abs(out) <==> j in Abs(img)
      ensures j in Abs(out) ==> Abs(out)[j] == Abs(img)[j]
    {
      WriteBackAbs(mid, slots', fat', j);
      if j < FILE_COUNT {
        assert Kept(img, FatOf(img), mid, fat', slots[j]);
        StrippedAlready(img, j);
      }
    }
  }

  /** Data written, then metadata with slot i replaced: the image stays valid,
      slot i holds the new file or none, every other file is unchanged. */
  lemma ReplaceSlot(img: seq<Byte>, mid: seq<Byte>, i: nat, s: Slot, fat': Table)
    requires Valid(img) && ReadableDir(mid) && SlotsOf(mid) == SlotsOf(img)
    requires i < FILE_COUNT && !s.Never? && forall j :: 0 <= j < i ==> !SlotsOf(img)[j].Never?
    requires Consistent(fat', SlotsOf(img)[i := s])
    requires forall j :: 0 <= j < FILE_COUNT && j != i ==> Kept(img, FatOf(img), mid, fat', SlotsOf(img)[j])
    requires s.Live? ==> Held(mid, Owned(fat', s), s.info.size)
    ensures var out := WriteBack(mid, SlotsOf(img)[i := s], fat');
      && Valid(out)
      && Abs(out) == if s.Live? then Abs(img)[i := FileOf(mid, fat', Reread(s))] else Abs(img) - {i}
  {
    var out := WriteBack(mid, SlotsOf(img)[i := s], fat');
    OtherSlots(img, mid, i, s, fat');
    if s.Live? {
      MapPut(Abs(img), Abs(out), i, FileOf(mid, fat', Reread(s)));
    } else {
      MapDrop(Abs(img), Abs(out), i);
    }
  }

  // ---------- save ----------

  lemma SaveRuns(img: seq<Byte>, name: Name, host: Option<seq<Byte>>, time: Word, date: Word)
    requires Valid(img)
    ensures SaveImage(img, name, host, time, date).0 == SaveFile(Abs(img), name, host, time, date).0
  {
    FreeIndexAgrees(SlotsOf(img), Abs(img), 0);
    FreeClustersAgree(img);
  }

  /** A save that fails leaves the image, and so table and directory, alone. */
  lemma FailedSaveKeepsImage(img: seq<Byte>, name: Name, host: Option<seq<Byte>>, time: Word, date: Word)
    requires ReadableDir(img) && !SaveImage(img, name, host, time, date).0
    ensures SaveImage(img, name, host, time, date).1 == img
  {
  }

  /** A save that succeeds keeps the invariant and adds exactly the saved bytes. */
  lemma SaveRefines(img: seq<Byte>, name: Name, host: Option<seq<Byte>>, time: Word, date: Word)
    requires Valid(img)
    ensures var (ok, out) := SaveImage(img, name, host, time, date);
      && Valid(out)
      && SaveFile(Abs(img), name, host, time, date) == (ok, Abs(out))
  {
    SaveRuns(img, name, host, time, date);
    if SaveImage(img, name, host, time, date).0 {
      FreeIndexAgrees(SlotsOf(img), Abs(img), 0);
      SaveSucceeds(img, name, host.value, time, date);
    }
  }

  /** A save succeeds exactly on a host file, a slot that holds no file, and free
      clusters for the data, one at least; otherwise nothing changes. */
  lemma SaveVerdict(img: seq<Byte>, name: Name, host: Option<seq<Byte>>, time: Word, date: Word)
    requires Valid(img)
    ensures var (ok, out) := SaveImage(img, name, host, time, date);
      && (!ok ==> out == img)
      && (ok <==>
           && host.Some? && (exists i: nat :: i < FILE_COUNT && i !in Abs(img))
           && 1 <= FreeClusters(Abs(img)) && ClusterCount(|host.value|) <= FreeClusters(Abs(img)))
  {
    SaveRuns(img, name, host, time, date);
    if !SaveImage(img, name, host, time, date).0 { FailedSaveKeepsImage(img, name, host, time, date); }
    var m := Abs(img);
    hide SaveImage;
    hide Abs;
    hide FreeClusters;
    var slot := LeastFree(m, 0);
    assert slot.Some? <==> exists i: nat :: i < FILE_COUNT && i !in m;
  }

  /** The image a successful save builds. */
  lemma SaveShape(img: seq<Byte>, name: Name, data: seq<Byte>, time: Word, date: Word)
    requires ReadableDir(img) && SaveImage(img, name, Some(data), time, date).0
    ensures var fat, slots := FatOf(img), SlotsOf(img);
      && FreeFrom(fat, 0) != [] && ClusterCount(|data|) <= |FreeFrom(fat, 0)| && |data| < 0x1_0000_0000
      && FreeIndex(slots, 0).Some?
      && var ch, info := Taken(fat, ClusterCount(|data|)), NewInfo(name, time, date, FreeFrom(fat, 0)[0], |data|);
         SaveImage(img, name, Some(data), time, date).1
           == WriteBack(Store(img, ch, data), slots[FreeIndex(slots, 0).value := Live(info)], Link(fat, ch))
  {
    FreeListBound(FatOf(img), 0);
  }

  lemma StoreKeeps(img: seq<Byte>, ch: seq<Cluster>, data: seq<Byte>, fat': Table, s: Slot)
    requires |img| >= FD_SIZE && Complete(FatOf(img), Owned(FatOf(img), s))
    requires s.Live? ==> Held(img, Owned(FatOf(img), s), s.info.size)
    requires Owned(fat', s) == Owned(FatOf(img), s)
    requires forall c :: c in ch ==> FatOf(img)[c] == 0
    ensures Kept(img, FatOf(img), Store(img, ch, data), fat', s)
  {
    if s.Live? {
      var own := Owned(FatOf(img), s);
      forall t | 0 <= t < |own|
        ensures own[t] !in ch
      {
        OnChainIsUsed(FatOf(img), own, own[t]);
      }
      StoreContent(img, ch, data, own, s.info.size);
    }
  }

  lemma SaveSucceeds(img: seq<Byte>, name: Name, data: seq<Byte>, time: Word, date: Word)
    requires Valid(img) && SaveImage(img, name, Some(data), time, date).0
    ensures var out := SaveImage(img, name, Some(data), time, date).1;
      && Valid(out)
      && Abs(out) == Abs(img)[FreeIndex(SlotsOf(img), 0).value :=
           File(RStrip(name), FILE_NORMAL, time, date, data)]
  {
    var fat, slots, k := FatOf(img), SlotsOf(img), ClusterCount(|data|);
    SaveShape(img, name, data, time, date);
    var i, ch := FreeIndex(slots, 0).value, Taken(fat, k);
    var info := NewInfo(name, time, date, FreeFrom(fat, 0)[0], |data|);
    var fat', mid := Link(fat, ch), Store(img, ch, data);
    SaveKeepsConsistent(fat, slots, i, info);
    TakenIsFree(fat, k);
    TakenIsData(fat, k);
    StoreKeepsDir(img, ch, data);
    ReadStored(img, ch, data);
    assert Owned(fat', Live(info)) == ch by { NewFileOwns(fat, info); }
    forall j | 0 <= j < FILE_COUNT && j != i
      ensures Kept(img, fat, mid, fat', slots[j])
    {
      assert Owners(fat, slots)[j] == Owned(fat, slots[j]);
      assert Owners(fat', slots[i := Live(info)])[j] == Owned(fat', slots[j]);
      StoreKeeps(img, ch, data, fat', slots[j]);
    }
    ReplaceSlot(img, mid, i, Live(info), fat');
  }

  // ---------- delete ----------

  /** A delete keeps the invariant and removes exactly the named file. */
  lemma DeleteRefines(img: seq<Byte>, name: Name)
    requires Valid(img)
    ensures var (ok, out) := DeleteImage(img, name);
      && Valid(out)
      && DeleteFile(Abs(img), name) == (ok, Abs(out))
  {
    NamedIndexAgrees(SlotsOf(img), Abs(img), name, 0);
    var index := NamedIndex(SlotsOf(img), name, 0);
    if index.Some? {
      DeleteSucceeds(img, index.value);
    }
  }

  /** A delete succeeds exactly when some slot holds a file of that very name, and changes
      nothing otherwise. */
  lemma DeleteVerdict(img: seq<Byte>, name: Name)
    requires Valid(img)
    ensures var (ok, out) := DeleteImage(img, name);
      (ok <==> exists i: nat :: i in Abs(img) && Abs(img)[i].name == name) && (!ok ==> out == img)
  {
    DeleteRefines(img, name);
    hide Abs;
    hide Valid;
  }

  lemma DeleteSucceeds(img: seq<Byte>, i: nat)
    requires Valid(img) && i < FILE_COUNT && SlotsOf(img)[i].Live?
    ensures var f, ch := SlotsOf(img)[i].info, Owned(FatOf(img), SlotsOf(img)[i]);
      var out := WriteBack(img, SlotsOf(img)[i := Deleted], Cleared(FatOf(img), ch));
      && FreeChain(FatOf(img), f.cluster, ClusterCount(f.size)) == (true, Cleared(FatOf(img), ch))
      && Valid(out) && Abs(out) == Abs(img) - {i}
  {
    var fat, slots := FatOf(img), SlotsOf(img);
    var fat' := Cleared(fat, Owned(fat, slots[i]));
    DeleteKeepsConsistent(fat, slots, i);
    forall j | 0 <= j < FILE_COUNT && j != i
      ensures Kept(img, fat, img, fat', slots[j])
    {
      assert Owners(fat, slots)[j] == Owned(fat, slots[j]);
      assert Owners(fat', slots[i := Deleted])[j] == Owned(fat', slots[j]);
    }
    ReplaceSlot(img, img, i, Deleted, fat');
  }

  // ---------- what the commands do to table and directory ----------

  lemma SlotsAfter(img: seq<Byte>, mid: seq<Byte>, i: nat, s: Slot, fat': Table)
    requires Valid(img) && ReadableDir(mid) && SlotsOf(mid) == SlotsOf(img)
    requires i < FILE_COUNT && !s.Never? && forall j :: 0 <= j < i ==> !SlotsOf(img)[j].Never?
    ensures var out := WriteBack(mid, SlotsOf(img)[i := s], fat');
      && ReadableDir(out) && FatOf(out) == fat' && SlotsOf(out) == SlotsOf(img)[i := Reread(s)]
  {
    var slots := SlotsOf(img);
    assert NeverLast(slots[i := s]);
    var out := WriteBack(mid, slots[i := s], fat');
    WriteBackEffect(mid, slots[i := s], fat');
    forall j | 0 <= j < FILE_COUNT
      ensures SlotsOf(out)[j] == slots[i := Reread(s)][j]
    {
      StrippedAlready(img, j);
    }
  }

  lemma OthersKeepChains(fat: Table, slots: Slots, fat': Table, i: nat, s: Slot, own: seq<Cluster>, j: nat)
    requires i < FILE_COUNT && j < FILE_COUNT && j != i
    requires Owners(fat', slots[i := s]) == Owners(fat, slots)[i := own]
    ensures Owned(fat', slots[j]) == Owned(fat, slots[j])
  {
    assert Owners(fat, slots)[j] == Owned(fat, slots[j]);
    assert Owners(fat', slots[i := s])[j] == Owned(fat', slots[j]);
  }

  /** A save takes exactly the first k free clusters in ascending order, records
      the first of them, links them, and keeps every other slot. */
  lemma SaveTable(img: seq<Byte>, name: Name, data: seq<Byte>, time: Word, date: Word)
    requires Valid(img) && SaveImage(img, name, Some(data), time, date).0
    ensures ClusterCount(|data|) <= |FreeFrom(FatOf(img), 0)|
    ensures var out, i := SaveImage(img, name, Some(data), time, date).1, FreeIndex(SlotsOf(img), 0).value;
      var ch := FreeFrom(FatOf(img), 0)[..ClusterCount(|data|)];
      && ReadableDir(out)
      && FatOf(out) == Link(FatOf(img), ch)
      && FreeFrom(FatOf(img), 0) != [] && |data| < 0x1_0000_0000
      && SlotsOf(out) == SlotsOf(img)[i :=
           Live(FileInfo(RStrip(name), 0x20, time, date, FreeFrom(FatOf(img), 0)[0], |data|))]
      && Owned(FatOf(out), SlotsOf(out)[i]) == ch
  {
    SaveShape(img, name, data, time, date);
    var fat, k := FatOf(img), ClusterCount(|data|);
    var i, ch := FreeIndex(SlotsOf(img), 0).value, Taken(fat, k);
    var info := NewInfo(name, time, date, FreeFrom(fat, 0)[0], |data|);
    TakenIsData(fat, k);
    StoreKeepsDir(img, ch, data);
    SlotsAfter(img, Store(img, ch, data), i, Live(info), Link(fat, ch));
    assert Owned(Link(fat, ch), Live(info)) == ch by { NewFileOwns(fat, info); }
  }

  /** A save leaves every other slot its chain. */
  lemma SaveKeepsChains(img: seq<Byte>, name: Name, data: seq<Byte>, time: Word, date: Word, j: nat)
    requires Valid(img) && SaveImage(img, name, Some(data), time, date).0
    requires j < FILE_COUNT && j != FreeIndex(SlotsOf(img), 0).value
    ensures var out := SaveImage(img, name, Some(data), time, date).1;
      |out| >= FD_SIZE && Owned(FatOf(out), SlotsOf(img)[j]) == Owned(FatOf(img), SlotsOf(img)[j])
  {
    SaveShape(img, name, data, time, date);
    SaveTable(img, name, data, time, date);
    var fat, slots, ch := FatOf(img), SlotsOf(img), Taken(FatOf(img), ClusterCount(|data|));
    var i, info := FreeIndex(slots, 0).value, NewInfo(name, time, date, FreeFrom(fat, 0)[0], |data|);
    SaveKeepsConsistent(fat, slots, i, info);
    OthersKeepChains(fat, slots, Link(fat, ch), i, Live(info), ch, j);
  }

  /** A delete zeroes exactly the chain of the slot it finds and keeps every
      other slot and its chain. */
  lemma DeleteTable(img: seq<Byte>, name: Name)
    requires Valid(img) && DeleteImage(img, name).0
    ensures NamedIndex(SlotsOf(img), name, 0).Some?
    ensures var out, i := DeleteImage(img, name).1, NamedIndex(SlotsOf(img), name, 0).value;
      && ReadableDir(out)
      && FatOf(out) == Cleared(FatOf(img), Owned(FatOf(img), SlotsOf(img)[i]))
      && SlotsOf(out) == SlotsOf(img)[i := Deleted]
      && forall j: nat :: j < FILE_COUNT && j != i
           ==> Owned(FatOf(out), SlotsOf(img)[j]) == Owned(FatOf(img), SlotsOf(img)[j])
  {
    var fat, slots, i := FatOf(img), SlotsOf(img), NamedIndex(SlotsOf(img), name, 0).value;
    var fat' := Cleared(fat, Owned(fat, slots[i]));
    DeleteKeepsConsistent(fat, slots, i);
    SlotsAfter(img, img, i, Deleted, fat');
    forall j: nat | j < FILE_COUNT && j != i
      ensures Owned(fat', slots[j]) == Owned(fat, slots[j])
    {
      OthersKeepChains(fat, slots, fat', i, Deleted, [], j);
    }
  }

  /** Freeing a new entry right after its save gives the old table back. */
  lemma SaveThenFree(img: seq<Byte>, name: Name, data: seq<Byte>, time: Word, date: Word)
    requires Valid(img) && SaveImage(img, name, Some(data), time, date).0
    ensures var out, i := SaveImage(img, name, Some(data), time, date).1, FreeIndex(SlotsOf(img), 0).value;
      && ReadableDir(out) && SlotsOf(out)[i].Live?
      && var f := SlotsOf(out)[i].info;
         FreeChain(FatOf(out), f.cluster, ClusterCount(f.size)) == (true, FatOf(img))
  {
    SaveShape(img, name, data, time, date);
    SaveTable(img, name, data, time, date);
    FreeUndoesSave(FatOf(img), NewInfo(name, time, date, FreeFrom(FatOf(img), 0)[0], |data|));
  }
}
