/** Whole runs of the image tool. */
module VolumeRuns {
  import opened MachineTypes
  import opened ImageBytes
  import opened FatTable
  import opened Chains
  import opened Directory
  import opened ClusterStore
  import opened Ownership
  import opened Volume
  import opened VolumeRefinement

  datatype Command =
    | Format
    | Save(name: Name, host: Option<seq<Byte>>, time: Word, date: Word)
    | Delete(name: Name)

  ghost function Execute(img: seq<Byte>, c: Command): (bool, seq<Byte>)
    requires ReadableDir(img)
  {
    match c
    case Format => (true, FormatImage())
    case Save(name, host, time, date) => SaveImage(img, name, host, time, date)
    case Delete(name) => DeleteImage(img, name)
  }

  function Perform(m: Files, c: Command): (bool, Files) {
    match c
    case Format => (true, map[])
    case Save(name, host, time, date) => SaveFile(m, name, host, time, date)
    case Delete(name) => DeleteFile(m, name)
  }

  /** A fresh image is valid and stands for no files. */
  lemma FormatValid()
    ensures Valid(FormatImage()) && Abs(FormatImage()) == map[]
  {
    var img := FormatImage();
    FormatTable();
    forall i | 0 <= i < FILE_COUNT
      ensures ReadableRecord(Record(img, i)) && UnpackSlot(Record(img, i)) == Never
    {
      assert Record(img, i)[0] == img[RecordAddress(i)];
    }
    var fat, slots := FatOf(img), SlotsOf(img);
    assert forall i :: 0 <= i < FILE_COUNT ==> Owners(fat, slots)[i] == [];
  }

  /** A fresh image is all zeros but for the marks at the start of both table copies. */
  lemma FormatBytes(i: nat)
    requires i < 1474560
    ensures |FormatImage()| == 1474560
    ensures FormatImage()[i] == if i in {0x0200, 0x1400} then 0xF0
                                else if i in {0x0201, 0x0202, 0x1401, 0x1402} then 0xFF else 0
  {
  }

  /** A fresh table reserves entries 0 and 1 and leaves every other entry free. */
  lemma FormatTable()
    ensures var fat := FatOf(FormatImage());
      fat[0] == 0xFF0 && fat[1] == 0xFFF && forall c: Cluster :: 2 <= c ==> fat[c] == 0
    ensures ReadAt(FormatImage(), FAT1_ADDRESS, FAT_BYTES) == ReadAt(FormatImage(), FAT2_ADDRESS, FAT_BYTES)
  {
    var table := ReadAt(FormatImage(), FAT1_ADDRESS, FAT_BYTES);
    forall c: Cluster
      ensures FatOf(FormatImage())[c] == EntryAt(table, c)
    {
      UnpackEntry(table, c);
    }
    assert forall k :: 3 <= k < FAT_BYTES ==> table[k] == 0;
  }

  lemma ExecuteRefines(img: seq<Byte>, c: Command)
    requires Valid(img)
    ensures var (ok, out) := Execute(img, c); Valid(out) && Perform(Abs(img), c) == (ok, Abs(out))
  {
    match c
    case Format => FormatValid();
    case Save(name, host, time, date) => SaveRefines(img, name, host, time, date);
    case Delete(name) => DeleteRefines(img, name);
  }

  datatype Outcome<T> = Outcome(verdicts: seq<bool>, state: T)

  /** The image after a run, failed commands included, and each verdict. */
  ghost function RunImage(img: seq<Byte>, cs: seq<Command>): (r: Outcome<seq<Byte>>)
    requires Valid(img)
    ensures Valid(r.state)
    decreases |cs|
  {
    if cs == [] then Outcome([], img)
    else
      ExecuteRefines(img, cs[0]);
      var (ok, out) := Execute(img, cs[0]);
      var rest := RunImage(out, cs[1..]);
      Outcome([ok] + rest.verdicts, rest.state)
  }

  function RunFiles(m: Files, cs: seq<Command>): Outcome<Files>
    decreases |cs|
  {
    if cs == [] then Outcome([], m)
    else
      var (ok, m') := Perform(m, cs[0]);
      var rest := RunFiles(m', cs[1..]);
      Outcome([ok] + rest.verdicts, rest.state)
  }

  /** Every run on a valid image gives the verdicts and the files of the same run
      on the plain map. */
  lemma {:induction false} RunRefines(img: seq<Byte>, cs: seq<Command>)
    requires Valid(img)
    ensures RunImage(img, cs).verdicts == RunFiles(Abs(img), cs).verdicts
    ensures Abs(RunImage(img, cs).state) == RunFiles(Abs(img), cs).state
    decreases |cs|
  {
    if cs != [] {
      ExecuteRefines(img, cs[0]);
      RunRefines(Execute(img, cs[0]).1, cs[1..]);
    }
  }

  /** Each live entry of size > 0 heads a chain of exactly ceil(size / 512) distinct
      data clusters ended by 0xFFF. */
  ghost predicate ExactChain(fat: Table, s: Slot)
    requires s.Live?
  {
    var ch := Chain(fat, s.info.cluster, ClusterCount(s.info.size));
    && |ch| == ClusterCount(s.info.size)
    && Distinct(ch)
    && (forall t :: 0 <= t < |ch| ==> 2 <= ch[t])
    && (ch != [] ==> ch[0] == s.info.cluster && fat[ch[|ch| - 1]] == 0xFFF)
  }

  /** So it is for every slot, no cluster is on two chains, and every nonzero entry
      from 2 up is on one. */
  ghost predicate ExactChains(fat: Table, slots: Slots) {
    && (forall i :: 0 <= i < FILE_COUNT && slots[i].Live? ==> ExactChain(fat, slots[i]))
    && (forall i, j, c :: 0 <= i < j < FILE_COUNT && c in Owned(fat, slots[i]) ==> c !in Owned(fat, slots[j]))
    && (forall c: Cluster :: 2 <= c && fat[c] != 0 ==> exists i :: 0 <= i < FILE_COUNT && c in Owned(fat, slots[i]))
  }

  lemma ConsistentChain(fat: Table, slots: Slots, i: nat)
    requires Consistent(fat, slots) && i < FILE_COUNT && slots[i].Live?
    ensures ExactChain(fat, slots[i])
  {
    assert Owners(fat, slots)[i] == Owned(fat, slots[i]);
  }

  lemma ConsistentCover(fat: Table, slots: Slots, c: Cluster)
    requires Consistent(fat, slots) && 2 <= c && fat[c] != 0
    ensures exists i :: 0 <= i < FILE_COUNT && c in Owned(fat, slots[i])
  {
    var own := Owners(fat, slots);
    assert Covered(own, c);
    var i :| 0 <= i < |own| && c in own[i];
    assert c in Owned(fat, slots[i]);
  }

  lemma ConsistentApart(fat: Table, slots: Slots, i: nat, j: nat, c: Cluster)
    requires Consistent(fat, slots) && i < j < FILE_COUNT && c in Owned(fat, slots[i])
    ensures c !in Owned(fat, slots[j])
  {
    var own := Owners(fat, slots);
    assert c in own[i] && c !in own[j];
  }

  lemma ConsistentExact(fat: Table, slots: Slots)
    requires Consistent(fat, slots)
    ensures ExactChains(fat, slots)
  {
    hide Consistent;
    hide ExactChain;
    hide Owned;
    forall i: nat | i < FILE_COUNT && slots[i].Live?
      ensures ExactChain(fat, slots[i])
    {
      ConsistentChain(fat, slots, i);
    }
    forall c: Cluster | 2 <= c && fat[c] != 0
      ensures exists i :: 0 <= i < FILE_COUNT && c in Owned(fat, slots[i])
    {
      ConsistentCover(fat, slots, c);
    }
    forall i: nat, j: nat, c | i < j < FILE_COUNT && c in Owned(fat, slots[i])
      ensures c !in Owned(fat, slots[j])
    {
      ConsistentApart(fat, slots, i, j, c);
    }
  }

  /** Over every run from a format the chains are exact, both copies of the table agree
      and never-used slots form the end of the directory. */
  lemma RunsKeepChains(cs: seq<Command>)
    ensures Valid(FormatImage())
    ensures var img := RunImage(FormatImage(), cs).state;
      && ExactChains(FatOf(img), SlotsOf(img))
      && ReadAt(img, FAT1_ADDRESS, FAT_BYTES) == ReadAt(img, FAT2_ADDRESS, FAT_BYTES)
      && forall i, j :: 0 <= i <= j < FILE_COUNT && SlotsOf(img)[i].Never? ==> SlotsOf(img)[j].Never?
  {
    FormatValid();
    hide FormatImage;
    hide RunImage;
    hide ExactChains;
    hide FatOf;
    hide SlotsOf;
    hide ReadAt;
    hide Consistent;
    var img := RunImage(FormatImage(), cs).state;
    ConsistentExact(FatOf(img), SlotsOf(img));
  }

  /** A fresh image takes a file exactly up to 3070 clusters. */
  lemma FreshSave(name: Name, data: seq<Byte>, time: Word, date: Word)
    ensures Valid(FormatImage())
    ensures SaveImage(FormatImage(), name, Some(data), time, date).0 <==> |data| <= 3070 * CLUSTER_BYTES
  {
    FormatValid();
    SaveRuns(FormatImage(), name, Some(data), time, date);
    NoFilesNeedNothing(map[], FILE_COUNT);
  }

  lemma {:induction false} NoFilesNeedNothing(m: Files, n: nat)
    requires m == map[]
    ensures FilesNeeded(m, n) == 0
    decreases n
  {
    if n > 0 { NoFilesNeedNothing(m, n - 1); }
  }

  // ---------- reading files back ----------

  /** The read loop started at the directory entry of slot i. */
  ghost function LoadSlot(img: seq<Byte>, i: nat): Option<seq<Byte>>
    requires ReadableDir(img) && i < FILE_COUNT && SlotsOf(img)[i].Live?
  {
    LoadFrom(img, FatOf(img), SlotsOf(img)[i].info.cluster, SlotsOf(img)[i].info.size)
  }

  /** The read loop returns the bytes of the file in every live slot. */
  lemma LoadReadsFile(img: seq<Byte>, i: nat)
    requires Valid(img) && i in Abs(img)
    ensures LoadSlot(img, i) == Some(Abs(img)[i].data)
  {
    LoadAlongChain(img, FatOf(img), SlotsOf(img)[i].info.cluster, SlotsOf(img)[i].info.size);
  }

  /** Slots that hold the same file in two images are read alike. */
  lemma LoadAgrees(img: seq<Byte>, out: seq<Byte>, j: nat)
    requires Valid(img) && Valid(out) && j in Abs(img) && j in Abs(out) && Abs(img)[j] == Abs(out)[j]
    ensures LoadSlot(out, j) == LoadSlot(img, j)
  {
    LoadReadsFile(img, j);
    LoadReadsFile(out, j);
  }

  /** After a save the read loop returns the saved bytes for the new slot and the
      same bytes as before for every other live slot. */
  lemma SaveThenLoad(img: seq<Byte>, name: Name, data: seq<Byte>, time: Word, date: Word, j: nat)
    requires Valid(img) && SaveImage(img, name, Some(data), time, date).0
    ensures var out, i := SaveImage(img, name, Some(data), time, date).1, FreeIndex(SlotsOf(img), 0).value;
      && Valid(out)
      && (j == i ==> j in Abs(out) && LoadSlot(out, j) == Some(data))
      && (j != i && j in Abs(img) ==> j in Abs(out) && LoadSlot(out, j) == LoadSlot(img, j))
  {
    SaveSucceeds(img, name, data, time, date);
    var out, i := SaveImage(img, name, Some(data), time, date).1, FreeIndex(SlotsOf(img), 0).value;
    if j == i {
      LoadReadsFile(out, j);
    } else if j in Abs(img) {
      LoadAgrees(img, out, j);
    }
  }

  /** After a delete the read loop returns the same bytes as before for every
      slot still live. */
  lemma DeleteThenLoad(img: seq<Byte>, name: Name, j: nat)
    requires Valid(img) && DeleteImage(img, name).0
    ensures var out := DeleteImage(img, name).1;
      Valid(out) && (j in Abs(out) ==> j in Abs(img) && LoadSlot(out, j) == LoadSlot(img, j))
  {
    DeleteRefines(img, name);
    var out := DeleteImage(img, name).1;
    if j in Abs(out) { LoadAgrees(img, out, j); }
  }

  // ---------- a file's chain over time ----------

  /** No command of the run formats the volume or deletes slot i. */
  ghost predicate Spares(img: seq<Byte>, cs: seq<Command>, i: nat)
    requires Valid(img)
    decreases |cs|
  {
    cs == [] || (
      && !cs[0].Format?
      && (cs[0].Delete? ==> NamedIndex(SlotsOf(img), cs[0].name, 0) != Some(i))
      && (ExecuteRefines(img, cs[0]); Spares(Execute(img, cs[0]).1, cs[1..], i)))
  }

  lemma StepKeepsChain(img: seq<Byte>, c: Command, i: nat)
    requires Valid(img) && i < FILE_COUNT && SlotsOf(img)[i].Live? && Spares(img, [c], i)
    ensures var out := Execute(img, c).1;
      && Valid(out) && SlotsOf(out)[i] == SlotsOf(img)[i]
      && Owned(FatOf(out), SlotsOf(out)[i]) == Owned(FatOf(img), SlotsOf(img)[i])
  {
    ExecuteRefines(img, c);
    match c
    case Save(name, host, time, date) =>
      if Execute(img, c).0 {
        SaveTable(img, name, host.value, time, date);
        SaveKeepsChains(img, name, host.value, time, date, i);
      }
    case Delete(name) =>
      if Execute(img, c).0 { DeleteTable(img, name); }
  }

  /** Whatever saves and deletes of other files run, a file keeps its chain. */
  lemma {:induction false} RunKeepsChain(img: seq<Byte>, cs: seq<Command>, i: nat)
    requires Valid(img) && i < FILE_COUNT && SlotsOf(img)[i].Live? && Spares(img, cs, i)
    ensures var out := RunImage(img, cs).state;
      && SlotsOf(out)[i] == SlotsOf(img)[i]
      && Owned(FatOf(out), SlotsOf(out)[i]) == Owned(FatOf(img), SlotsOf(img)[i])
    decreases |cs|
  {
    if cs != [] {
      StepKeepsChain(img, cs[0], i);
      RunKeepsChain(Execute(img, cs[0]).1, cs[1..], i);
    }
  }

  /** A file saved, then, after a run that spares it, deleted: exactly the
      clusters its save took are zeroed, and no other entry changes. */
  lemma DeleteZeroesSavedChain(img: seq<Byte>, name: Name, data: seq<Byte>, time: Word, date: Word,
                               cs: seq<Command>, key: Name)
    requires Valid(img) && SaveImage(img, name, Some(data), time, date).0
    requires ClusterCount(|data|) <= |FreeFrom(FatOf(img), 0)|
    requires Valid(SaveImage(img, name, Some(data), time, date).1)
    requires var i := FreeIndex(SlotsOf(img), 0).value;
      var saved := SaveImage(img, name, Some(data), time, date).1;
      && Spares(saved, cs, i)
      && var before := RunImage(saved, cs).state;
         DeleteImage(before, key).0 && NamedIndex(SlotsOf(before), key, 0) == Some(i)
    ensures var before := RunImage(SaveImage(img, name, Some(data), time, date).1, cs).state;
      var out := DeleteImage(before, key).1;
      && ReadableDir(out)
      && FatOf(out) == Cleared(FatOf(before), FreeFrom(FatOf(img), 0)[..ClusterCount(|data|)])
  {
    SaveTable(img, name, data, time, date);
    var saved := SaveImage(img, name, Some(data), time, date).1;
    RunKeepsChain(saved, cs, FreeIndex(SlotsOf(img), 0).value);
    DeleteTable(RunImage(saved, cs).state, key);
  }

  // ---------- lookup by padded name ----------

  /** A name just saved can be deleted exactly when it does not end in a blank:
      stored names are read back stripped, lookups use the padded name. */
  lemma DeleteFindsSaved(m: Files, name: Name, data: seq<Byte>, time: Word, date: Word)
    requires forall i :: i in m ==> RStrip(m[i].name) == m[i].name
    requires SaveFile(m, name, Some(data), time, date).0
    ensures DeleteFile(SaveFile(m, name, Some(data), time, date).1, name).0
        <==> (name == [] || !IsBlank(name[|name| - 1]))
  {
    var m', slot := SaveFile(m, name, Some(data), time, date).1, LeastFree(m, 0).value;
    if name == [] || !IsBlank(name[|name| - 1]) {
      RStripUnique(name, name);
      LeastNamedFinds(m', name, 0, slot);
    } else {
      RStripUnique(RStrip(name), RStrip(name));
    }
  }

  lemma {:induction false} LeastNamedFinds(m: Files, name: Name, i: nat, j: nat)
    requires i <= j < FILE_COUNT && j in m && m[j].name == name
    ensures LeastNamed(m, name, i).Some?
    decreases j - i
  {
    if i < j { LeastNamedFinds(m, name, i + 1, j); }
  }

  /** The padded 8.3 name ends in a blank exactly when the extension has fewer
      than three characters or a blank third one. */
  lemma PaddedNameEnd(stem: seq<Ascii>, ext: seq<Ascii>)
    ensures var name := Name83(stem, ext);
      !IsBlank(name[|name| - 1]) <==> |ext| >= 3 && !IsBlank(ext[2])
  {
    NameLetters(stem, ext, 10);
  }

  /** The characters a read name loses at its end: tab to carriage return, the four
      separators, and the blank. */
  lemma Blanks(c: Ascii)
    ensures IsBlank(c) <==> c in {0x09, 0x0A, 0x0B, 0x0C, 0x0D, 0x1C, 0x1D, 0x1E, 0x1F, 0x20}
  {
  }
}
