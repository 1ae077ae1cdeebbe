/** The root directory: 32-byte entries packed to and read from the image
    (FileInfo and DirInfo of the image tool; fatgen103, "FAT Directory
    Structure"). Names are ASCII without NUL. */
module Directory {
  import opened MachineTypes
  import opened ImageBytes

  const NAME_BYTES: nat := 11
  const DELETED_MARK: Byte := 0xE5
  const SPACE: Byte := 0x20

  type Ascii = b: int | 0 < b < 0x80 witness 1
  type Name = n: seq<Ascii> | |n| <= NAME_BYTES

  datatype FileInfo = FileInfo(name: Name, kind: Byte, time: Word, date: Word, cluster: Word, size: Dword)

  /** None, False and a FileInfo in the tool's slot list. */
  datatype Slot = Never | Deleted | Live(info: FileInfo)

  // ---------- names ----------

  /** The ASCII characters that str.rstrip removes. */
  predicate IsBlank(c: Ascii) { c == 0x20 || 0x09 <= c <= 0x0D || 0x1C <= c <= 0x1F }

  function RStrip(s: seq<Ascii>): (r: seq<Ascii>)
    ensures r <= s
    ensures r != [] ==> !IsBlank(r[|r| - 1])
    ensures forall i :: |r| <= i < |s| ==> IsBlank(s[i])
  {
    if s != [] && IsBlank(s[|s| - 1]) then RStrip(s[..|s| - 1]) else s
  }

  function Spaces(n: nat): (r: seq<Ascii>)
    ensures |r| == n
  {
    seq(n, _ => SPACE)
  }

  /** str.ljust */
  function LJust(s: seq<Ascii>, width: nat): (r: seq<Ascii>)
    ensures |r| == if |s| < width then width else |s|
  {
    if |s| < width then s + Spaces(width - |s|) else s
  }

  /** setstrlen: padded or cut to exactly width characters. */
  function SetStrLen(s: seq<Ascii>, width: nat): (r: seq<Ascii>)
    ensures |r| == width
  {
    LJust(s, width)[..width]
  }

  /** filename83 of a base name already split into stem and extension. */
  function Name83(stem: seq<Ascii>, ext: seq<Ascii>): (r: Name)
    ensures |r| == NAME_BYTES
  {
    SetStrLen(stem, 8) + SetStrLen(ext, 3)
  }

  /** Character i of a name, a blank where it has ended. */
  function Letter(s: seq<Ascii>, i: nat): Ascii { if i < |s| then s[i] else 0x20 }

  /** The 8.3 name is the first eight characters of the stem and the first three of the
      extension, each filled up with blanks. */
  lemma NameLetters(stem: seq<Ascii>, ext: seq<Ascii>, i: nat)
    requires i < 11
    ensures |Name83(stem, ext)| == 11
    ensures Name83(stem, ext)[i] == if i < 8 then Letter(stem, i) else Letter(ext, i - 8)
  {
  }

  /** Two files share a name exactly when eight characters of the stem and three of the
      extension are the same, blanks counting as no character. */
  lemma SameNameIff(stem: seq<Ascii>, ext: seq<Ascii>, stem': seq<Ascii>, ext': seq<Ascii>)
    ensures Name83(stem, ext) == Name83(stem', ext')
      <==> (forall i: nat :: i < 8 ==> Letter(stem, i) == Letter(stem', i))
           && (forall i: nat :: i < 3 ==> Letter(ext, i) == Letter(ext', i))
  {
    var name, name' := Name83(stem, ext), Name83(stem', ext');
    forall i: nat | i < 11
      ensures name[i] == if i < 8 then Letter(stem, i) else Letter(ext, i - 8)
      ensures name'[i] == if i < 8 then Letter(stem', i) else Letter(ext', i - 8)
    {
      NameLetters(stem, ext, i);
      NameLetters(stem', ext', i);
    }
    hide Name83;
    hide Letter;
    if name == name' {
      forall i: nat | i < 3
        ensures Letter(ext, i) == Letter(ext', i)
      {
        assert name[8 + i] == name'[8 + i];
      }
    }
  }

  lemma {:induction false} RStripUnique(s: seq<Ascii>, r: seq<Ascii>)
    requires r <= s && (r == [] || !IsBlank(r[|r| - 1]))
    requires forall i :: |r| <= i < |s| ==> IsBlank(s[i])
    ensures RStrip(s) == r
  {
  }

  /** Padding is lost again by stripping. */
  lemma RStripLJust(s: seq<Ascii>, width: nat)
    ensures RStrip(LJust(s, width)) == RStrip(s)
  {
    RStripUnique(LJust(s, width), RStrip(s));
  }

  // ---------- one entry ----------

  function PackInfo(f: FileInfo): (rec: seq<Byte>)
    ensures |rec| == FILEINFO_BYTES
  {
    LJust(f.name, NAME_BYTES) + [f.kind] + Zeros(10) + Put16(f.time) + Put16(f.date)
    + Put16(f.cluster) + Put32(f.size)
  }

  function PackSlot(s: Slot): (rec: seq<Byte>)
    requires !s.Never?
    ensures |rec| == FILEINFO_BYTES
  {
    if s.Live? then PackInfo(s.info) else [DELETED_MARK] + Zeros(FILEINFO_BYTES - 1)
  }

  /** A record that a run of the tool can leave: its name, if any, is ASCII. */
  predicate ReadableRecord(rec: seq<Byte>) {
    rec == [] || rec[0] == 0 || rec[0] == DELETED_MARK
    || (|rec| == FILEINFO_BYTES && forall i :: 0 <= i < NAME_BYTES ==> 0 < rec[i] < 0x80)
  }

  function NameField(rec: seq<Byte>): (r: seq<Ascii>)
    requires |rec| == FILEINFO_BYTES && forall i :: 0 <= i < NAME_BYTES ==> 0 < rec[i] < 0x80
    ensures |r| == NAME_BYTES
  {
    seq(NAME_BYTES, i requires 0 <= i < NAME_BYTES => rec[i])
  }

  function UnpackSlot(rec: seq<Byte>): Slot
    requires ReadableRecord(rec)
  {
    if rec == [] || rec[0] == 0 then Never
    else if rec[0] == DELETED_MARK then Deleted
    else Live(FileInfo(RStrip(NameField(rec)), rec[11], Le16(rec[22], rec[23]), Le16(rec[24], rec[25]),
                       Le16(rec[26], rec[27]), Le32(rec[28], rec[29], rec[30], rec[31])))
  }

  /** The slot as it is read back: trailing blanks of the name are gone. */
  function Reread(s: Slot): Slot {
    if s.Live? then Live(s.info.(name := RStrip(s.info.name))) else s
  }

  lemma Le16Put16(w: Word)
    ensures Le16(Put16(w)[0], Put16(w)[1]) == w
  {
  }

  lemma Le32Put32(d: Dword)
    ensures Le32(Put32(d)[0], Put32(d)[1], Put32(d)[2], Put32(d)[3]) == d
  {
    assert d / 0x1_0000 == d / 0x100 / 0x100;
    assert d / 0x100_0000 == d / 0x1_0000 / 0x100;
  }

  lemma PackInfoFields(f: FileInfo)
    ensures var rec := PackInfo(f);
      && rec[..11] == LJust(f.name, NAME_BYTES) && rec[11] == f.kind
      && rec[22] == Put16(f.time)[0] && rec[23] == Put16(f.time)[1]
      && rec[24] == Put16(f.date)[0] && rec[25] == Put16(f.date)[1]
      && rec[26] == Put16(f.cluster)[0] && rec[27] == Put16(f.cluster)[1]
      && rec[28] == Put32(f.size)[0] && rec[29] == Put32(f.size)[1]
      && rec[30] == Put32(f.size)[2] && rec[31] == Put32(f.size)[3]
  {
  }

  /** The 32 bytes of a live entry, by their places: name, attribute, ten zeros, time, date,
      cluster, size, numbers with the low byte first. */
  lemma RecordLayout(f: FileInfo)
    ensures var rec: seq<int> := PackSlot(Live(f));
      && |rec| == 32 && (forall i: nat :: i < 11 ==> rec[i] == Letter(f.name, i))
      && rec[11] == f.kind && (forall i :: 12 <= i < 22 ==> rec[i] == 0)
      && f.time == rec[22] + 0x100 * rec[23] && f.date == rec[24] + 0x100 * rec[25]
      && f.cluster == rec[26] + 0x100 * rec[27]
      && f.size == rec[28] + 0x100 * rec[29] + 0x1_0000 * rec[30] + 0x100_0000 * rec[31]
  {
    var rec, padded := PackSlot(Live(f)), LJust(f.name, NAME_BYTES);
    PackInfoFields(f);
    PaddedZeros(f);
    forall i: nat | i < 11
      ensures rec[i] == Letter(f.name, i)
    {
      assert rec[i] == rec[..11][i] == padded[i];
    }
    Le16Put16(f.time);
    Le16Put16(f.date);
    Le16Put16(f.cluster);
    Le32Put32(f.size);
  }

  lemma PaddedZeros(f: FileInfo)
    ensures forall i :: 12 <= i < 22 ==> PackInfo(f)[i] == 0
  {
  }

  /** A deleted entry is the mark and zeros. */
  lemma DeletedLayout()
    ensures |PackSlot(Deleted)| == 32 && PackSlot(Deleted)[0] == 0xE5
    ensures forall i :: 1 <= i < 32 ==> PackSlot(Deleted)[i] == 0
  {
  }

  /** Packing then reading gives the same slot up to the padding of the name. */
  lemma UnpackPackSlot(s: Slot)
    requires !s.Never?
    ensures ReadableRecord(PackSlot(s)) && UnpackSlot(PackSlot(s)) == Reread(s)
  {
    if s.Live? {
      var f, rec := s.info, PackInfo(s.info);
      var padded := LJust(f.name, NAME_BYTES);
      PackInfoFields(f);
      assert forall i :: 0 <= i < NAME_BYTES ==> rec[i] == rec[..11][i] == padded[i];
      assert NameField(rec) == padded;
      RStripLJust(f.name, NAME_BYTES);
      Le16Put16(f.time);
      Le16Put16(f.date);
      Le16Put16(f.cluster);
      Le32Put32(f.size);
    }
  }

  // ---------- the whole directory ----------

  type Slots = s: seq<Slot> | |s| == FILE_COUNT witness seq(FILE_COUNT, _ => Never)

  function RecordAddress(i: nat): nat { DIR_ADDRESS + FILEINFO_BYTES * i }

  function Record(img: seq<Byte>, i: nat): seq<Byte> { ReadAt(img, RecordAddress(i), FILEINFO_BYTES) }

  ghost predicate ReadableDir(img: seq<Byte>) {
    |img| >= FD_SIZE && forall i :: 0 <= i < FILE_COUNT ==> ReadableRecord(Record(img, i))
  }

  /** The slot list a reader of the image builds. */
  ghost function SlotsOf(img: seq<Byte>): Slots
    requires ReadableDir(img)
  {
    seq(FILE_COUNT, i requires 0 <= i < FILE_COUNT => UnpackSlot(Record(img, i)))
  }

  /** Never-used slots come last. */
  ghost predicate NeverLast(slots: Slots) {
    forall i, j :: 0 <= i < j < FILE_COUNT && slots[i].Never? ==> slots[j].Never?
  }

  /** The number of slots before the first never-used one. */
  function Occupied(slots: seq<Slot>): (m: nat)
    ensures m <= |slots|
    ensures forall i :: 0 <= i < m ==> !slots[i].Never?
    ensures m < |slots| ==> slots[m].Never?
  {
    if slots == [] || slots[0].Never? then 0 else 1 + Occupied(slots[1..])
  }

  lemma OccupiedIs(slots: seq<Slot>, m: nat)
    requires m <= |slots| && (forall i :: 0 <= i < m ==> !slots[i].Never?) && (m < |slots| ==> slots[m].Never?)
    ensures Occupied(slots) == m
  {
  }

  /** The image after the first m entries are written in order. */
  function WriteEntries(img: seq<Byte>, slots: Slots, m: nat): seq<Byte>
    requires m <= FILE_COUNT && forall i :: 0 <= i < m ==> !slots[i].Never?
  {
    if m == 0 then img
    else WriteAt(WriteEntries(img, slots, m - 1), RecordAddress(m - 1), PackSlot(slots[m - 1]))
  }

  lemma WriteEntriesStep(img: seq<Byte>, slots: Slots, m: nat)
    requires m < FILE_COUNT && forall i :: 0 <= i <= m ==> !slots[i].Never?
    ensures WriteEntries(img, slots, m + 1)
         == WriteAt(WriteEntries(img, slots, m), DIR_ADDRESS + FILEINFO_BYTES * m, PackSlot(slots[m]))
  {
  }

  function WriteDir(img: seq<Byte>, slots: Slots): seq<Byte> { WriteEntries(img, slots, Occupied(slots)) }

  lemma {:induction false} WriteEntriesEffect(img: seq<Byte>, slots: Slots, m: nat)
    requires |img| >= FD_SIZE
    requires m <= FILE_COUNT && forall i :: 0 <= i < m ==> !slots[i].Never?
    ensures |WriteEntries(img, slots, m)| == |img|
    ensures forall i :: 0 <= i < m ==> Record(WriteEntries(img, slots, m), i) == PackSlot(slots[i])
    ensures forall i :: m <= i < FILE_COUNT ==> Record(WriteEntries(img, slots, m), i) == Record(img, i)
  {
    hide ReadAt;
    hide WriteAt;
    hide PackSlot;
    if m > 0 {
      WriteEntriesEffect(img, slots, m - 1);
      var before, data := WriteEntries(img, slots, m - 1), PackSlot(slots[m - 1]);
      WriteAtPointwise(before, RecordAddress(m - 1), data);
      ReadBack(before, RecordAddress(m - 1), data);
      forall i | 0 <= i < FILE_COUNT && i != m - 1
        ensures Record(WriteEntries(img, slots, m), i) == Record(before, i)
      {
        ReadElsewhere(before, RecordAddress(m - 1), data, RecordAddress(i), FILEINFO_BYTES);
      }
    }
  }

  lemma {:induction false} WriteEntriesFrame(img: seq<Byte>, slots: Slots, m: nat, at: nat, n: nat)
    requires |img| >= FD_SIZE && at + n <= |img|
    requires at + n <= DIR_ADDRESS || RecordAddress(FILE_COUNT) <= at
    requires m <= FILE_COUNT && forall i :: 0 <= i < m ==> !slots[i].Never?
    ensures ReadAt(WriteEntries(img, slots, m), at, n) == ReadAt(img, at, n)
  {
    hide ReadAt;
    hide WriteAt;
    hide PackSlot;
    if m > 0 {
      WriteEntriesFrame(img, slots, m - 1, at, n);
      WriteEntriesEffect(img, slots, m - 1);
      ReadElsewhere(WriteEntries(img, slots, m - 1), RecordAddress(m - 1), PackSlot(slots[m - 1]), at, n);
    }
  }

  lemma NeverBeyond(img: seq<Byte>, slots: Slots, m: nat, i: nat)
    requires ReadableDir(img) && NeverLast(slots) && m <= i < FILE_COUNT && slots[m].Never?
    requires forall i :: 0 <= i < FILE_COUNT && slots[i].Never? ==> SlotsOf(img)[i].Never?
    ensures slots[i].Never? && UnpackSlot(Record(img, i)).Never?
  {
    assert slots[i].Never?;
    assert SlotsOf(img)[i] == UnpackSlot(Record(img, i));
  }

  lemma WrittenRecord(img: seq<Byte>, slots: Slots, m: nat, i: nat)
    requires ReadableDir(img) && m <= FILE_COUNT && i < FILE_COUNT
    requires forall j :: 0 <= j < m ==> !slots[j].Never?
    requires m <= i ==> slots[i].Never? && UnpackSlot(Record(img, i)).Never?
    ensures var rec := Record(WriteEntries(img, slots, m), i);
      ReadableRecord(rec) && UnpackSlot(rec) == Reread(slots[i])
  {
    WriteEntriesEffect(img, slots, m);
    if i < m { UnpackPackSlot(slots[i]); }
  }

  /** Where never-used slots come last and the unwritten records are never-used
      ones, stopping at the first never-used slot loses nothing: the directory
      read back is the one written, up to the padding of names. */
  lemma WriteDirEffect(img: seq<Byte>, slots: Slots)
    requires ReadableDir(img) && NeverLast(slots)
    requires forall i :: 0 <= i < FILE_COUNT && slots[i].Never? ==> SlotsOf(img)[i].Never?
    ensures ReadableDir(WriteDir(img, slots)) && |WriteDir(img, slots)| == |img|
    ensures forall i :: 0 <= i < FILE_COUNT ==> SlotsOf(WriteDir(img, slots))[i] == Reread(slots[i])
  {
    var m := Occupied(slots);
    var out := WriteEntries(img, slots, m);
    WriteEntriesEffect(img, slots, m);
    forall i | 0 <= i < FILE_COUNT
      ensures ReadableRecord(Record(out, i)) && UnpackSlot(Record(out, i)) == Reread(slots[i])
    {
      if m <= i { NeverBeyond(img, slots, m, i); }
      WrittenRecord(img, slots, m, i);
    }
  }

  // ---------- searching ----------

  /** The first slot from start up that is not live. */
  function FreeIndex(slots: seq<Slot>, start: nat): (r: Option<nat>)
    ensures r.Some? ==> start <= r.value < |slots| && !slots[r.value].Live?
    ensures forall j :: start <= j < (if r.Some? then r.value else |slots|) ==> slots[j].Live?
    decreases |slots| - start
  {
    if start >= |slots| then None
    else if !slots[start].Live? then Some(start)
    else FreeIndex(slots, start + 1)
  }

  /** The first live slot from start up whose name is exactly name. */
  function NamedIndex(slots: seq<Slot>, name: seq<Ascii>, start: nat): (r: Option<nat>)
    ensures r.Some? ==> start <= r.value < |slots| && slots[r.value].Live? && slots[r.value].info.name == name
    ensures forall j :: start <= j < (if r.Some? then r.value else |slots|)
              ==> !(slots[j].Live? && slots[j].info.name == name)
    decreases |slots| - start
  {
    if start >= |slots| then None
    else if slots[start].Live? && slots[start].info.name == name then Some(start)
    else NamedIndex(slots, name, start + 1)
  }
}
