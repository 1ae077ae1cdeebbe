/** The image tool's commands as functions on the image bytes, and their
    refinement of a plain map from directory slots to files. Between commands
    the image is the whole state: each command decodes the table and the
    directory from it and writes both back. */
module Volume {
  import opened MachineTypes
  import opened ImageBytes
  import opened FatTable
  import opened Chains
  import opened Directory
  import opened ClusterStore
  import opened Ownership

  // ---------- the commands ----------

  /** A zeroed image whose two table copies start with F0 FF FF. */
  function FormatImage(): (img: seq<Byte>)
    ensures |img| == FD_SIZE
  {
    seq(FD_SIZE, i requires 0 <= i < FD_SIZE =>
      if i == FAT1_ADDRESS || i == FAT2_ADDRESS then 0xF0
      else if FAT1_ADDRESS < i < FAT1_ADDRESS + 3 || FAT2_ADDRESS < i < FAT2_ADDRESS + 3 then 0xFF
      else 0)
  }

  /** have_space: the first free cluster, if there are count of them (and one). */
  function HaveSpace(fat: Table, count: nat): Option<Cluster> {
    var free := FreeFrom(fat, 0);
    if free != [] && count <= |free| then Some(free[0]) else None
  }

  function NewInfo(name: Name, time: Word, date: Word, cluster: Cluster, size: Dword): FileInfo {
    FileInfo(name, FILE_NORMAL, time, date, cluster, size)
  }

  /** The save command: its verdict and the image it leaves. host is the file
      read from the host, if it exists. */
  ghost function SaveImage(img: seq<Byte>, name: Name, host: Option<seq<Byte>>, time: Word, date: Word)
    : (bool, seq<Byte>)
    requires ReadableDir(img)
  {
    if host.None? then (false, img)
    else
      var fat, slots, data := FatOf(img), SlotsOf(img), host.value;
      var start, index := HaveSpace(fat, ClusterCount(|data|)), FreeIndex(slots, 0);
      if start.None? || index.None? then (false, img)
      else
        FreeListBound(fat, 0);
        var ch := Taken(fat, ClusterCount(|data|));
        var slots' := slots[index.value := Live(NewInfo(name, time, date, start.value, |data|))];
        (true, WriteFat(WriteDir(Store(img, ch, data), slots'), Link(fat, ch)))
  }

  /** The delete command; an index error while freeing leaves the image alone. */
  ghost function DeleteImage(img: seq<Byte>, name: Name): (bool, seq<Byte>)
    requires ReadableDir(img)
  {
    var fat, slots := FatOf(img), SlotsOf(img);
    var index := NamedIndex(slots, name, 0);
    if index.None? then (false, img)
    else
      var f := slots[index.value].info;
      var (ran, fat') := FreeChain(fat, f.cluster, ClusterCount(f.size));
      if !ran then (false, img)
      else (true, WriteFat(WriteDir(img, slots[index.value := Deleted]), fat'))
  }

  lemma {:induction false} FreeListBound(fat: Table, start: nat)
    ensures start <= FAT_ENTRIES ==> |FreeFrom(fat, start)| <= FAT_ENTRIES - start
    ensures |FreeFrom(fat, start)| <= FAT_ENTRIES
    decreases |fat| - start
  {
    if start < FAT_ENTRIES { FreeListBound(fat, start + 1); }
  }

  // ---------- the invariant of the image ----------

  ghost predicate AllHeld(img: seq<Byte>, fat: Table, slots: Slots) {
    forall i :: 0 <= i < FILE_COUNT && slots[i].Live? ==> Held(img, Owned(fat, slots[i]), slots[i].info.size)
  }

  ghost predicate Valid(img: seq<Byte>) {
    && ReadableDir(img)
    && NeverLast(SlotsOf(img))
    && Consistent(FatOf(img), SlotsOf(img))
    && AllHeld(img, FatOf(img), SlotsOf(img))
    && ReadAt(img, FAT1_ADDRESS, FAT_BYTES) == ReadAt(img, FAT2_ADDRESS, FAT_BYTES)
  }

  /** In a valid image a slot's chain is complete and as long as its size needs. */
  lemma ValidChain(img: seq<Byte>, i: nat)
    requires Valid(img) && i < FILE_COUNT
    ensures Complete(FatOf(img), Owned(FatOf(img), SlotsOf(img)[i]))
    ensures Distinct(Owned(FatOf(img), SlotsOf(img)[i]))
    ensures |Owned(FatOf(img), SlotsOf(img)[i])| == Needed(SlotsOf(img)[i])
  {
    assert Owners(FatOf(img), SlotsOf(img))[i] == Owned(FatOf(img), SlotsOf(img)[i]);
  }

  // ---------- the abstract volume ----------

  datatype File = File(name: Name, kind: Byte, time: Word, date: Word, data: seq<Byte>)

  type Files = m: map<nat, File> | forall i :: i in m ==> i < FILE_COUNT

  /** The bytes the read loop returns for a slot. */
  function Content(img: seq<Byte>, fat: Table, s: Slot): seq<Byte>
    requires s.Live?
  {
    ReadPieces(img, Owned(fat, s), s.info.size)
  }

  ghost function FileOf(img: seq<Byte>, fat: Table, s: Slot): File
    requires s.Live?
  {
    File(s.info.name, s.info.kind, s.info.time, s.info.date, Content(img, fat, s))
  }

  /** What the image stands for: live slots and their files. */
  ghost function Abs(img: seq<Byte>): Files
    requires ReadableDir(img)
  {
    var fat, slots := FatOf(img), SlotsOf(img);
    map i: nat | i < FILE_COUNT && slots[i].Live? :: FileOf(img, fat, slots[i])
  }

  // ---------- writing the metadata back ----------

  function WriteBack(img: seq<Byte>, slots: Slots, fat: Table): seq<Byte> { WriteFat(WriteDir(img, slots), fat) }

  lemma SameRecordsReadable(img: seq<Byte>, img': seq<Byte>)
    requires ReadableDir(img) && |img'| >= FD_SIZE
    requires forall i :: 0 <= i < FILE_COUNT ==> Record(img', i) == Record(img, i)
    ensures ReadableDir(img') && SlotsOf(img') == SlotsOf(img)
  {
  }

  /** After the directory and both table copies are written, a reader decodes the
      slots and the table written. */
  lemma WriteBackEffect(img: seq<Byte>, slots: Slots, fat: Table)
    requires ReadableDir(img) && NeverLast(slots)
    requires forall i :: 0 <= i < FILE_COUNT && slots[i].Never? ==> SlotsOf(img)[i].Never?
    ensures var out := WriteBack(img, slots, fat);
      && ReadableDir(out) && |out| == |img| && FatOf(out) == fat
      && (forall i :: 0 <= i < FILE_COUNT ==> SlotsOf(out)[i] == Reread(slots[i]))
      && ReadAt(out, FAT1_ADDRESS, FAT_BYTES) == ReadAt(out, FAT2_ADDRESS, FAT_BYTES)
  {
    var mid := WriteDir(img, slots);
    WriteDirEffect(img, slots);
    WriteFatEffect(mid, fat);
    forall i | 0 <= i < FILE_COUNT
      ensures Record(WriteFat(mid, fat), i) == Record(mid, i)
    {
      WriteFatFrame(mid, fat, RecordAddress(i), FILEINFO_BYTES);
    }
    SameRecordsReadable(mid, WriteFat(mid, fat));
  }

  /** The data area is not touched by writing the metadata. */
  lemma WriteBackFrame(img: seq<Byte>, slots: Slots, fat: Table, at: nat, n: nat)
    requires |img| >= FD_SIZE && RecordAddress(FILE_COUNT) <= at && at + n <= |img|
    ensures ReadAt(WriteBack(img, slots, fat), at, n) == ReadAt(img, at, n)
  {
    WriteEntriesEffect(img, slots, Occupied(slots));
    WriteEntriesFrame(img, slots, Occupied(slots), at, n);
    WriteFatFrame(WriteDir(img, slots), fat, at, n);
  }

  lemma WriteBackContent(img: seq<Byte>, slots: Slots, fat: Table, ch: seq<Cluster>, size: nat)
    requires ReadableDir(img) && NeverLast(slots)
    requires forall i :: 0 <= i < FILE_COUNT && slots[i].Never? ==> SlotsOf(img)[i].Never?
    requires Held(img, ch, size) && forall t :: 0 <= t < |ch| ==> 2 <= ch[t]
    ensures ReadPieces(WriteBack(img, slots, fat), ch, size) == ReadPieces(img, ch, size)
    ensures Held(WriteBack(img, slots, fat), ch, size)
  {
    WriteBackEffect(img, slots, fat);
    var out := WriteBack(img, slots, fat);
    forall t | 0 <= t < |ch| && t * CLUSTER_BYTES < size
      ensures var n := Min(size - t * CLUSTER_BYTES, CLUSTER_BYTES);
              ReadAt(out, ClusterAddress(ch[t]), n) == ReadAt(img, ClusterAddress(ch[t]), n)
    {
      WriteBackFrame(img, slots, fat, ClusterAddress(ch[t]), Min(size - t * CLUSTER_BYTES, CLUSTER_BYTES));
    }
    ReadPiecesSame(img, out, ch, size);
  }

  /** Storing into other data clusters keeps a held file's bytes. */
  lemma StoreContent(img: seq<Byte>, taken: seq<Cluster>, data: seq<Byte>, ch: seq<Cluster>, size: nat)
    requires Held(img, ch, size) && forall t :: 0 <= t < |ch| ==> ch[t] !in taken
    ensures ReadPieces(Store(img, taken, data), ch, size) == ReadPieces(img, ch, size)
    ensures Held(Store(img, taken, data), ch, size)
  {
    var out := Store(img, taken, data);
    forall t | 0 <= t < |ch| && t * CLUSTER_BYTES < size
      ensures var n := Min(size - t * CLUSTER_BYTES, CLUSTER_BYTES);
              |out| >= |img| && ReadAt(out, ClusterAddress(ch[t]), n) == ReadAt(img, ClusterAddress(ch[t]), n)
    {
      StoreFrame(img, taken, data, ClusterAddress(ch[t]), Min(size - t * CLUSTER_BYTES, CLUSTER_BYTES));
    }
    ReadPiecesSame(img, out, ch, size);
  }

  /** Storing into data clusters leaves the directory as it was. */
  lemma StoreKeepsDir(img: seq<Byte>, taken: seq<Cluster>, data: seq<Byte>)
    requires ReadableDir(img) && forall t :: 0 <= t < |taken| ==> 2 <= taken[t]
    ensures |Store(img, taken, data)| >= |img|
    ensures ReadableDir(Store(img, taken, data)) && SlotsOf(Store(img, taken, data)) == SlotsOf(img)
  {
    StoreFrame(img, taken, data, 0, 0);
    forall i | 0 <= i < FILE_COUNT
      ensures Record(Store(img, taken, data), i) == Record(img, i)
    {
      StoreFrame(img, taken, data, RecordAddress(i), FILEINFO_BYTES);
    }
    SameRecordsReadable(img, Store(img, taken, data));
  }

  lemma ConsistentReread(fat: Table, slots: Slots, slots': Slots)
    requires Consistent(fat, slots)
    requires forall i :: 0 <= i < FILE_COUNT ==> slots'[i] == Reread(slots[i])
    ensures Consistent(fat, slots')
    ensures forall i :: 0 <= i < FILE_COUNT ==> Owned(fat, slots'[i]) == Owned(fat, slots[i])
  {
    assert Owners(fat, slots') == Owners(fat, slots);
  }

  lemma WriteBackHeld(img: seq<Byte>, slots: Slots, fat: Table, i: nat)
    requires ReadableDir(img) && NeverLast(slots)
    requires forall i :: 0 <= i < FILE_COUNT && slots[i].Never? ==> SlotsOf(img)[i].Never?
    requires Consistent(fat, slots) && AllHeld(img, fat, slots) && i < FILE_COUNT && slots[i].Live?
    ensures Held(WriteBack(img, slots, fat), Owned(fat, slots[i]), slots[i].info.size)
    ensures Content(WriteBack(img, slots, fat), fat, slots[i]) == Content(img, fat, slots[i])
  {
    assert Owners(fat, slots)[i] == Owned(fat, slots[i]);
    WriteBackContent(img, slots, fat, Owned(fat, slots[i]), slots[i].info.size);
  }

  lemma RereadNeverLast(slots: Slots, slots': Slots)
    requires NeverLast(slots) && forall i :: 0 <= i < FILE_COUNT ==> slots'[i] == Reread(slots[i])
    ensures NeverLast(slots')
  {
    forall i, j | 0 <= i < j < FILE_COUNT && slots'[i].Never?
      ensures slots'[j].Never?
    {
      assert slots[i].Never? && slots[j].Never?;
    }
  }

  /** Metadata written back over an image whose data suits it gives a valid image. */
  lemma WriteBackValid(img: seq<Byte>, slots: Slots, fat: Table)
    requires ReadableDir(img) && NeverLast(slots)
    requires forall i :: 0 <= i < FILE_COUNT && slots[i].Never? ==> SlotsOf(img)[i].Never?
    requires Consistent(fat, slots) && AllHeld(img, fat, slots)
    ensures Valid(WriteBack(img, slots, fat))
  {
    var out := WriteBack(img, slots, fat);
    WriteBackEffect(img, slots, fat);
    ConsistentReread(fat, slots, SlotsOf(out));
    RereadNeverLast(slots, SlotsOf(out));
    var slots' := SlotsOf(out);
    forall i | 0 <= i < FILE_COUNT && slots'[i].Live?
      ensures Held(out, Owned(fat, slots'[i]), slots'[i].info.size)
    {
      WriteBackHeld(img, slots, fat, i);
    }
  }

  /** What the image then stands for. */
  lemma WriteBackAbs(img: seq<Byte>, slots: Slots, fat: Table, i: nat)
    requires ReadableDir(img) && NeverLast(slots)
    requires forall i :: 0 <= i < FILE_COUNT && slots[i].Never? ==> SlotsOf(img)[i].Never?
    requires Consistent(fat, slots) && AllHeld(img, fat, slots)
    ensures ReadableDir(WriteBack(img, slots, fat))
    ensures var files := Abs(WriteBack(img, slots, fat));
      && (i in files <==> i < FILE_COUNT && slots[i].Live?)
      && (i in files ==> files[i] == FileOf(img, fat, Reread(slots[i])))
  {
    WriteBackEffect(img, slots, fat);
    ConsistentReread(fat, slots, SlotsOf(WriteBack(img, slots, fat)));
    if i < FILE_COUNT && slots[i].Live? {
      WriteBackHeld(img, slots, fat, i);
    }
  }
}
