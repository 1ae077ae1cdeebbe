/** The directory search of both boot stages, and its agreement with the lookup
    of the image tool. */
module BootSearch {
  import opened MachineTypes
  import opened ImageBytes
  import opened Directory
  import opened BootDisk

  /** A file name the boot stages search for: 11 characters, not ending in a blank. */
  ghost predicate BootName(name: Name) { |name| == NAME_BYTES && !IsBlank(name[NAME_BYTES - 1]) }

  predicate Named(rec: seq<Byte>, name: Name) { |rec| == FILEINFO_BYTES && rec[..NAME_BYTES] == name }

  /** The first directory record from start up whose name field is name. */
  function FirstNamed(disk: seq<Byte>, name: Name, start: nat): Option<nat>
    decreases FILE_COUNT - start, |disk|
  {
    if start >= FILE_COUNT then None
    else if Named(Record(disk, start), name) then Some(start)
    else FirstNamed(disk, name, start + 1)
  }

  function ClusterField(rec: seq<Byte>): Word
    requires |rec| == FILEINFO_BYTES
  {
    Le16(rec[26], rec[27])
  }

  /** What the search finds: the cluster field of the first record so named. */
  function FoundCluster(disk: seq<Byte>, name: Name): (r: Option<Word>)
    requires |disk| >= FD_SIZE
  {
    var i := FirstNamed(disk, name, 0);
    if i.None? then None else (FirstNamedIs(disk, name, 0); Some(ClusterField(Record(disk, i.value))))
  }

  lemma {:induction false} FirstNamedIs(disk: seq<Byte>, name: Name, start: nat)
    ensures var i := FirstNamed(disk, name, start);
      i.Some? ==> start <= i.value < FILE_COUNT && Named(Record(disk, i.value), name)
    decreases FILE_COUNT - start
  {
    if start < FILE_COUNT { FirstNamedIs(disk, name, start + 1); }
  }

  // ---------- agreement with the tool ----------

  lemma RecordAgrees(disk: seq<Byte>, name: Name, i: nat)
    requires ReadableDir(disk) && BootName(name) && i < FILE_COUNT
    ensures Named(Record(disk, i), name) <==> SlotsOf(disk)[i].Live? && SlotsOf(disk)[i].info.name == name
  {
    var rec := Record(disk, i);
    assert ReadableRecord(rec) && SlotsOf(disk)[i] == UnpackSlot(rec);
    if Named(rec, name) {
      assert forall k :: 0 <= k < NAME_BYTES ==> rec[k] == rec[..NAME_BYTES][k] == name[k];
      assert NameField(rec) == name;
      RStripUnique(name, name);
    }
  }

  /** On any directory the tool can read, the boot search finds the slot the
      tool's own lookup finds, and its start cluster. */
  lemma {:induction false} SearchAgrees(disk: seq<Byte>, name: Name, start: nat)
    requires ReadableDir(disk) && BootName(name)
    ensures FirstNamed(disk, name, start) == NamedIndex(SlotsOf(disk), name, start)
    decreases FILE_COUNT - start
  {
    if start < FILE_COUNT {
      RecordAgrees(disk, name, start);
      SearchAgrees(disk, name, start + 1);
    }
  }

  lemma FoundClusterAgrees(disk: seq<Byte>, name: Name)
    requires ReadableDir(disk) && BootName(name)
    ensures var i := NamedIndex(SlotsOf(disk), name, 0);
      FoundCluster(disk, name) == if i.None? then None else Some(SlotsOf(disk)[i.value].info.cluster)
  {
    SearchAgrees(disk, name, 0);
    FirstNamedIs(disk, name, 0);
  }

  // ---------- the search loops ----------

  lemma SubSlice(s: seq<Byte>, a: nat, n: nat, b: nat, k: nat)
    requires a + n <= |s| && b + k <= n
    ensures s[a..a + n][b..b + k] == s[a + b..a + b + k]
  {
    var l, r := s[a..a + n][b..b + k], s[a + b..a + b + k];
    assert |l| == |r|;
    assert forall i :: 0 <= i < k ==> l[i] == r[i];
  }

  /** Sector j of the directory in the buffer holds records 16j to 16j + 15. */
  lemma BufferedRecord(disk: seq<Byte>, mem: seq<Byte>, buffer: nat, sector: nat, k: nat)
    requires |disk| >= FD_SIZE && 19 <= sector < 33 && k < 16 && buffer + 512 <= |mem|
    requires mem[buffer..buffer + 512] == ReadAt(disk, 512 * sector, 512)
    ensures Record(disk, 16 * (sector - 19) + k) == mem[buffer + 32 * k..buffer + 32 * k + 32]
  {
    var i := 16 * (sector - 19) + k;
    var at := 32 * k;
    assert RecordAddress(i) == 512 * sector + at && at + 32 <= 512;
    SubSlice(mem, buffer, 512, at, 32);
    SubSlice(disk, 512 * sector, 512, at, 32);
  }

  lemma EntryInMemory(mem: array<Byte>, at: nat)
    requires at + 32 <= mem.Length
    ensures mem[..][at..at + 32][..NAME_BYTES] == mem[at..at + NAME_BYTES]
    ensures mem[..][at..at + 32][26] == mem[at + 26] && mem[..][at..at + 32][27] == mem[at + 27]
  {
  }

  /** Compares 11 characters; di is left where the comparison stopped. */
  method CompareName(m: Machine, name: Name, entry: nat) returns (same: bool, di: nat)
    requires m.Ready() && |name| == NAME_BYTES && entry + 32 <= m.mem.Length
    ensures same <==> m.mem[entry..entry + NAME_BYTES] == name
    ensures entry <= di <= entry + NAME_BYTES
  {
    var cx, si := 11, 0;
    di := entry;
    while true
      invariant cx + si == 11 && di == entry + si && 0 <= cx
      invariant m.mem[entry..entry + si] == name[..si]
      decreases cx
    {
      if cx == 0 {
        assert name[..11] == name;
        return true, di;
      }
      cx := cx - 1;
      var al := name[si];
      si := si + 1;
      if al != m.mem[di] {
        assert m.mem[entry..entry + NAME_BYTES][si - 1] == m.mem[di] != name[si - 1];
        return false, di;
      }
      di := di + 1;
      assert m.mem[entry..entry + si] == m.mem[entry..entry + (si - 1)] + [m.mem[entry + (si - 1)]];
      assert name[..si] == name[..si - 1] + [name[si - 1]];
    }
  }

  lemma AlignDown(buffer: nat, k: nat, di: nat)
    requires buffer % 32 == 0 && buffer + 32 * k <= di < buffer + 32 * k + 32
    ensures di - di % 32 == buffer + 32 * k
  {
    var q := buffer / 32 + k;
    assert 32 * q <= di < 32 * q + 32;
    assert di / 32 == q;
  }

  predicate FoundAt(disk: seq<Byte>, i: Option<nat>, cluster: Word) {
    i.Some? && |Record(disk, i.value)| == FILEINFO_BYTES && cluster == ClusterField(Record(disk, i.value))
  }

  lemma FirstNamedStep(disk: seq<Byte>, name: Name, i: nat)
    requires i < FILE_COUNT
    ensures FirstNamed(disk, name, i) == if Named(Record(disk, i), name) then Some(i) else FirstNamed(disk, name, i + 1)
  {
  }

  /** Sixteen entries of one sector in the buffer. */
  method SearchSector(m: Machine, name: Name, buffer: nat, ghost sector: nat) returns (cluster: Option<Word>)
    requires m.Ready() && |name| == NAME_BYTES && buffer % 32 == 0 && buffer + 512 <= m.mem.Length
    requires 19 <= sector < 33 && m.mem[buffer..buffer + 512] == ReadAt(m.disk, 512 * sector, 512)
    ensures cluster.Some? ==> FoundAt(m.disk, FirstNamed(m.disk, name, 16 * (sector - 19)), cluster.value)
    ensures cluster.None? ==> FirstNamed(m.disk, name, 16 * (sector - 19)) == FirstNamed(m.disk, name, 16 * (sector - 18))
  {
    hide ReadAt;
    hide Record;
    hide FirstNamed;
    var dx, di := 16, buffer;
    ghost var base, k := 16 * (sector - 19), 0;
    while dx != 0
      invariant 0 <= dx && k == 16 - dx && di == buffer + 32 * k
      invariant FirstNamed(m.disk, name, base + k) == FirstNamed(m.disk, name, base)
      decreases dx
    {
      dx := dx - 1;
      var same;
      assert m.mem[..][buffer..buffer + 512] == m.mem[buffer..buffer + 512];
      BufferedRecord(m.disk, m.mem[..], buffer, sector, k);
      FirstNamedStep(m.disk, name, base + k);
      ghost var entry := di;
      EntryInMemory(m.mem, entry);
      same, di := CompareName(m, name, di);
      AlignDown(buffer, k, di);
      di := di - di % 32;
      if same {
        di := di + 0x1A;
        return Some(Le16(m.mem[di], m.mem[di + 1]));
      }
      di := di + 0x20;
      k := k + 1;
    }
    cluster := None;
  }

  /** Searches the 14 directory sectors in turn. */
  method FindFile(m: Machine, name: Name, buffer: nat) returns (cluster: Option<Word>)
    requires m.Ready() && |name| == NAME_BYTES && buffer % 32 == 0 && buffer + 512 <= m.mem.Length
    modifies m.mem
    ensures cluster == FoundCluster(m.disk, name)
    ensures SameOutside(old(m.mem[..]), m.mem[..], buffer, buffer + 512)
  {
    var loops, sector := ROOT_DIR_SECTORS, ROOT_DIR_START_SECTORS;
    cluster := None;
    ghost var start := m.mem[..];
    while loops != 0
      invariant 0 <= loops <= 14 && sector == 33 - loops && cluster == None
      invariant FirstNamed(m.disk, name, 16 * (sector - 19)) == FirstNamed(m.disk, name, 0)
      invariant SameOutside(start, m.mem[..], buffer, buffer + 512)
      decreases loops
    {
      loops := loops - 1;
      ghost var before := m.mem[..];
      m.ReadOneSector(sector, 1, buffer);
      BufferFilled(before, buffer, ReadAt(m.disk, 512 * sector, 512));
      assert m.mem[..][buffer..buffer + 512] == m.mem[buffer..buffer + 512];
      cluster := SearchSector(m, name, buffer, sector);
      if cluster.Some? { return; }
      sector := sector + 1;
    }
    assert FirstNamed(m.disk, name, FILE_COUNT) == None;
  }
}
