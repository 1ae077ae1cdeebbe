/** The image tool as it runs: the Fat and DirInfo objects, updated in place, and
    the save, delete and load commands built from them. */
module Fat12Tool {
  import opened MachineTypes
  import opened ImageBytes
  import opened FatTable
  import opened Chains
  import opened Directory
  import opened ClusterStore
  import opened Ownership
  import opened Volume

  class Fat {
    const file: ImageFile
    var fat: Table

    /** Decodes the first copy of the table. */
    constructor (file: ImageFile)
      requires |file.bytes| >= FD_SIZE
      ensures this.file == file && fat == FatOf(file.bytes)
    {
      var data := ReadAt(file.bytes, FAT1_ADDRESS, FAT_BYTES);
      var entries: seq<Entry> := [];
      var i := 0;
      while i < |data|
        invariant 0 <= i <= |data| && i % 3 == 0 && |data| % 3 == 0
        invariant entries + Unpack(data[i..]) == Unpack(data)
      {
        var n1, n2 := FirstOf(data[i], data[i + 1]), SecondOf(data[i + 1], data[i + 2]);
        assert Unpack(data[i..]) == [n1, n2] + Unpack(data[i..][3..]);
        assert data[i..][3..] == data[i + 3..];
        entries := entries + [n1, n2];
        i := i + 3;
      }
      assert entries == Unpack(data);
      this.file := file;
      fat := entries;
    }

    /** Packs the list and writes both copies. */
    method Write()
      requires |file.bytes| >= FD_SIZE
      modifies file
      ensures file.bytes == WriteFat(old(file.bytes), fat)
    {
      var data: seq<Byte> := [];
      var i := 0;
      while i < |fat|
        invariant 0 <= i <= |fat| && i % 2 == 0
        invariant data + Pack(fat[i..]) == Pack(fat)
      {
        assert Pack(fat[i..]) == Triple(fat[i], fat[i + 1]) + Pack(fat[i..][2..]);
        assert fat[i..][2..] == fat[i + 2..];
        data := data + Triple(fat[i], fat[i + 1]);
        i := i + 2;
      }
      assert data == Pack(fat);
      file.Write(FAT1_ADDRESS, data);
      file.Write(FAT2_ADDRESS, data);
    }

    method HaveSpace(clusterCount: nat) returns (start: Option<Cluster>)
      ensures start == Volume.HaveSpace(fat, clusterCount)
    {
      start := None;
      var n, i := 0, 0;
      ghost var seen: seq<Cluster> := [];
      while i < |fat|
        invariant 0 <= i <= |fat| && n == |seen|
        invariant seen + FreeFrom(fat, i) == FreeFrom(fat, 0)
        invariant start == if seen == [] then None else Some(seen[0])
        invariant n > 0 ==> n < clusterCount
      {
        if fat[i] == 0 {
          if start.None? { start := Some(i); }
          n := n + 1;
          seen := seen + [i];
          if n >= clusterCount {
            assert FreeFrom(fat, 0) == seen + FreeFrom(fat, i + 1);
            return;
          }
        }
        i := i + 1;
      }
      start := None;
    }

    method FindFreeCluster(start: nat) returns (found: Option<Cluster>)
      ensures found == if FreeFrom(fat, start) == [] then None else Some(FreeFrom(fat, start)[0])
    {
      var i := start;
      while i < |fat|
        invariant start <= i
        invariant FreeFrom(fat, i) == FreeFrom(fat, start)
        decreases |fat| - i
      {
        if fat[i] == 0 { return Some(i); }
        i := i + 1;
      }
      found := None;
    }

    method PutNext(cluster: Cluster, value: Entry)
      modifies this
      ensures fat == old(fat)[cluster := value]
    {
      fat := fat[cluster := value];
    }

    /** The next cluster, or None where the list lookup raises. */
    method GetNext(cluster: nat) returns (next: Option<Entry>)
      ensures next == if cluster < FAT_ENTRIES then Some(fat[cluster]) else None
    {
      next := if cluster < |fat| then Some(fat[cluster]) else None;
    }

    /** Frees a chain of the length its size needs; false where a lookup raises. */
    method DelChain(cluster: nat, size: nat) returns (ran: bool)
      modifies this
      ensures (ran, fat) == FreeChain(old(fat), cluster, ClusterCount(size))
    {
      var no: nat := (size + CLUSTER_BYTES - 1) / CLUSTER_BYTES;
      var c: nat := cluster;
      ghost var want := FreeChain(fat, cluster, no);
      while no > 0
        invariant FreeChain(fat, c, no) == want
        decreases no
      {
        if c >= |fat| { return false; }
        var next := fat[c];
        fat := fat[c := 0];
        if next >= 0xFF8 { return true; }
        c := next;
        no := no - 1;
      }
      ran := true;
    }
  }

  class DirInfo {
    const file: ImageFile
    var fileinfos: Slots

    /** Reads the slots in order. */
    constructor (file: ImageFile)
      requires ReadableDir(file.bytes)
      ensures this.file == file && fileinfos == SlotsOf(file.bytes)
    {
      var slots: seq<Slot> := [];
      for i := 0 to FILE_COUNT
        invariant |slots| == i && forall j :: 0 <= j < i ==> slots[j] == UnpackSlot(Record(file.bytes, j))
      {
        var data := ReadAt(file.bytes, DIR_ADDRESS + FILEINFO_BYTES * i, FILEINFO_BYTES);
        assert data == Record(file.bytes, i);
        slots := slots + [UnpackSlot(data)];
      }
      this.file := file;
      fileinfos := slots;
    }

    /** Writes entries in order and stops at the first never-used slot. */
    method Write()
      modifies file
      ensures file.bytes == WriteDir(old(file.bytes), fileinfos)
    {
      var i := 0;
      ghost var before := file.bytes;
      while i < |fileinfos| && !fileinfos[i].Never?
        invariant 0 <= i <= |fileinfos| && forall j :: 0 <= j < i ==> !fileinfos[j].Never?
        invariant file.bytes == WriteEntries(before, fileinfos, i)
      {
        WriteEntriesStep(before, fileinfos, i);
        file.Write(DIR_ADDRESS + FILEINFO_BYTES * i, PackSlot(fileinfos[i]));
        i := i + 1;
      }
      OccupiedIs(fileinfos, i);
    }

    method FindFreeIndex() returns (index: Option<nat>)
      ensures index == FreeIndex(fileinfos, 0)
    {
      var i := 0;
      while i < |fileinfos|
        invariant 0 <= i <= |fileinfos|
        invariant FreeIndex(fileinfos, i) == FreeIndex(fileinfos, 0)
      {
        if !fileinfos[i].Live? { return Some(i); }
        i := i + 1;
      }
      index := None;
    }

    method Add(index: nat, name: Name, size: Dword, cluster: Cluster, time: Word, date: Word)
      requires index < FILE_COUNT
      modifies this
      ensures fileinfos == old(fileinfos)[index := Live(NewInfo(name, time, date, cluster, size))]
    {
      fileinfos := fileinfos[index := Live(FileInfo(name, FILE_NORMAL, time, date, cluster, size))];
    }

    method Find(name: Name) returns (index: Option<nat>)
      ensures index == NamedIndex(fileinfos, name, 0)
    {
      var i := 0;
      while i < |fileinfos|
        invariant 0 <= i <= |fileinfos|
        invariant NamedIndex(fileinfos, name, i) == NamedIndex(fileinfos, name, 0)
      {
        if fileinfos[i].Live? && fileinfos[i].info.name == name { return Some(i); }
        i := i + 1;
      }
      index := None;
    }

    /** Marks the named slot deleted and returns its entry. */
    method DelFile(name: Name) returns (info: Option<FileInfo>)
      modifies this
      ensures var index := NamedIndex(old(fileinfos), name, 0);
        if index.None? then info == None && fileinfos == old(fileinfos)
        else info == Some(old(fileinfos)[index.value].info) && fileinfos == old(fileinfos)[index.value := Deleted]
    {
      var index := Find(name);
      if index.Some? {
        info := Some(fileinfos[index.value].info);
        fileinfos := fileinfos[index.value := Deleted];
      } else {
        info := None;
      }
    }
  }

  // ---------- the write loop ----------

  /** Where the loop resumes its search after j clusters. */
  ghost function Resume(ch: seq<Cluster>, j: nat): nat
    requires j <= |ch|
  {
    if j == 0 then 0 else var last: int := ch[j - 1]; last + 1
  }

  /** The links after j of the clusters are written. */
  ghost function LinkedSoFar(fat: Table, ch: seq<Cluster>, j: nat): Table
    requires j <= |ch|
  {
    if 0 < j == |ch| then Link(fat, ch) else LinkOpen(fat, ch[..j])
  }

  /** The next free cluster found is the next one to take. */
  lemma NextIsFree(fat: Table, k: nat, j: nat)
    requires j < k <= |FreeFrom(fat, 0)|
    ensures var ch := Taken(fat, k);
      var rest := FreeFrom(LinkedSoFar(fat, ch, j), Resume(ch, j));
      rest != [] && rest[0] == ch[j]
  {
    var ch := Taken(fat, k);
    TakenIsFree(fat, k);
    if j > 0 {
      LinkOpenEffect(fat, ch[..j]);
      FreeFromSuffix(fat, LinkOpen(fat, ch[..j]), Resume(ch, j));
      FreeFromTail(fat, 0, j - 1);
    }
  }

  /** One turn of the loop: link the previous cluster, end the chain if done. */
  lemma LinkStep(fat: Table, ch: seq<Cluster>, j: nat)
    requires j < |ch|
    ensures var one := if j > 0 then LinkedSoFar(fat, ch, j)[ch[j - 1] := ch[j]] else LinkedSoFar(fat, ch, j);
      LinkedSoFar(fat, ch, j + 1) == if j + 1 == |ch| then one[ch[j] := END_OF_CHAIN] else one
  {
    assert ch[..j + 1][..j] == ch[..j];
    assert ch[..|ch|] == ch;
  }

  lemma LinkedEnds(fat: Table, ch: seq<Cluster>)
    ensures LinkedSoFar(fat, ch, 0) == fat && LinkedSoFar(fat, ch, |ch|) == Link(fat, ch)
  {
  }

  /** write_cluster: at most one cluster of data, at the cluster's place. */
  method WriteCluster(image: ImageFile, cluster: nat, data: seq<Byte>)
    modifies image
    ensures image.bytes == WriteAt(old(image.bytes), ClusterAddress(cluster), data[..Min(|data|, CLUSTER_BYTES)])
  {
    image.Write(ENTITY_ADDRESS + cluster * CLUSTER_BYTES, data[..Min(|data|, CLUSTER_BYTES)]);
  }

  /** Writes data into the first free clusters and links them. Given enough free
      clusters it never fails. */
  method WriteFile(image: ImageFile, content: seq<Byte>, fat: Fat) returns (ok: bool)
    requires ClusterCount(|content|) <= |FreeFrom(fat.fat, 0)|
    modifies image, fat
    ensures ok
    ensures var ch := Taken(old(fat.fat), ClusterCount(|content|));
      image.bytes == Store(old(image.bytes), ch, content) && fat.fat == Link(old(fat.fat), ch)
  {
    hide LinkedSoFar;
    hide LinkOpen;
    hide Link;
    hide FreeFrom;
    hide WriteAt;
    ghost var k := ClusterCount(|content|);
    ghost var fat0, ch, j, all := fat.fat, Taken(fat.fat, k), 0, Store(image.bytes, Taken(fat.fat, k), content);
    assert ch[0..] == ch;
    LinkedEnds(fat0, ch);
    var size: int := |content|;
    var data, prev: int := content, -1;
    while size > 0
      invariant 0 <= j <= k && size == |content| - CLUSTER_BYTES * j
      invariant |data| == if size > 0 then size else 0
      invariant prev + 1 == Resume(ch, j)
      invariant fat.fat == LinkedSoFar(fat0, ch, j)
      invariant Store(image.bytes, ch[j..], data) == all
      decreases size
    {
      NextIsFree(fat0, k, j);
      var cluster := fat.FindFreeCluster(prev + 1);
      if cluster.None? { return false; }
      LinkStep(fat0, ch, j);
      if prev >= 0 { fat.PutNext(prev, cluster.value); }
      var n := Min(|data|, CLUSTER_BYTES);
      StoreStep(image.bytes, ch, j, data, n);
      WriteCluster(image, cluster.value, data);
      data := data[n..];
      size := size - CLUSTER_BYTES;
      if size <= 0 { fat.PutNext(cluster.value, END_OF_CHAIN); }
      prev := cluster.value;
      j := j + 1;
    }
    assert ch[j..] == [];
    ok := true;
  }

  /** save: it fails only before it has changed anything; on success the entry,
      the data and the links are exactly those of the first free clusters. */
  method Save(image: ImageFile, name: Name, host: Option<seq<Byte>>, time: Word, date: Word, fat: Fat, dir: DirInfo)
    returns (ok: bool)
    modifies image, fat, dir
    ensures ok <==> host.Some? && Volume.HaveSpace(old(fat.fat), ClusterCount(|host.value|)).Some?
                    && FreeIndex(old(dir.fileinfos), 0).Some?
    ensures !ok ==> image.bytes == old(image.bytes) && fat.fat == old(fat.fat) && dir.fileinfos == old(dir.fileinfos)
    ensures ok ==>
      && ClusterCount(|host.value|) <= |FreeFrom(old(fat.fat), 0)| && FreeFrom(old(fat.fat), 0) != []
      && |host.value| < 0x1_0000_0000
      && var ch := Taken(old(fat.fat), ClusterCount(|host.value|));
         && image.bytes == Store(old(image.bytes), ch, host.value)
         && fat.fat == Link(old(fat.fat), ch)
         && dir.fileinfos == old(dir.fileinfos)[FreeIndex(old(dir.fileinfos), 0).value :=
              Live(NewInfo(name, time, date, FreeFrom(old(fat.fat), 0)[0], |host.value|))]
  {
    if host.None? { return false; }
    var size := |host.value|;
    var startCluster := fat.HaveSpace((size + CLUSTER_BYTES - 1) / CLUSTER_BYTES);
    if startCluster.None? { return false; }
    var fileIndex := dir.FindFreeIndex();
    if fileIndex.None? { return false; }
    FreeListBound(fat.fat, 0);
    dir.Add(fileIndex.value, name, size, startCluster.value, time, date);
    ok := WriteFile(image, host.value, fat);
  }

  // ---------- commands ----------

  /** The save command: load, save, write both back unless saving failed. */
  method SaveCommand(image: ImageFile, name: Name, host: Option<seq<Byte>>, time: Word, date: Word)
    returns (ok: bool)
    requires ReadableDir(image.bytes)
    modifies image
    ensures (ok, image.bytes) == SaveImage(old(image.bytes), name, host, time, date)
  {
    var fat := new Fat(image);
    var dir := new DirInfo(image);
    ghost var before := image.bytes;
    ok := Save(image, name, host, time, date, fat, dir);
    if !ok { return; }
    dir.Write();
    StoreLength(before, Taken(FatOf(before), ClusterCount(|host.value|)), host.value, dir.fileinfos);
    fat.Write();
  }

  lemma StoreLength(img: seq<Byte>, ch: seq<Cluster>, data: seq<Byte>, slots: Slots)
    requires |img| >= FD_SIZE
    ensures |WriteDir(Store(img, ch, data), slots)| >= FD_SIZE
  {
    StoreGrows(img, ch, data);
    WriteEntriesEffect(Store(img, ch, data), slots, Occupied(slots));
  }

  lemma {:induction false} StoreGrows(img: seq<Byte>, ch: seq<Cluster>, data: seq<Byte>)
    ensures |Store(img, ch, data)| >= |img|
    decreases |ch|
  {
    if ch != [] {
      var n := Min(|data|, CLUSTER_BYTES);
      WriteAtPointwise(img, ClusterAddress(ch[0]), data[..n]);
      StoreGrows(WriteAt(img, ClusterAddress(ch[0]), data[..n]), ch[1..], data[n..]);
    }
  }

  /** The delete command; an index error while freeing ends it before any write. */
  method DeleteCommand(image: ImageFile, name: Name) returns (ok: bool)
    requires ReadableDir(image.bytes)
    modifies image
    ensures (ok, image.bytes) == DeleteImage(old(image.bytes), name)
  {
    var dir := new DirInfo(image);
    var info := dir.DelFile(name);
    if info.None? { return false; }
    var fat := new Fat(image);
    var ran := fat.DelChain(info.value.cluster, info.value.size);
    if !ran { return false; }
    ghost var before := image.bytes;
    dir.Write();
    WriteEntriesEffect(before, dir.fileinfos, Occupied(dir.fileinfos));
    fat.Write();
    ok := true;
  }

  ghost function Append(data: seq<Byte>, rest: Option<seq<Byte>>): Option<seq<Byte>> {
    if rest.None? then None else Some(data + rest.value)
  }

  lemma LoadStep(img: seq<Byte>, fat: Table, c: Cluster, size: nat, data: seq<Byte>)
    requires size > 0
    ensures var n := Min(size, CLUSTER_BYTES);
      Append(data, LoadFrom(img, fat, c, size))
        == Append(data + ReadAt(img, ClusterAddress(c), n), LoadFrom(img, fat, fat[c], size - n))
  {
    var n := Min(size, CLUSTER_BYTES);
    var piece, rest := ReadAt(img, ClusterAddress(c), n), LoadFrom(img, fat, fat[c], size - n);
    if rest.Some? {
      assert data + (piece + rest.value) == (data + piece) + rest.value;
    }
  }

  lemma AppendNothing(r: Option<seq<Byte>>)
    ensures Append([], r) == r
  {
    assert r.Some? ==> [] + r.value == r.value;
  }

  lemma LoadRaises(img: seq<Byte>, fat: Table, c: nat, size: nat, data: seq<Byte>)
    requires size > 0 && c >= FAT_ENTRIES
    ensures Append(data, LoadFrom(img, fat, c, size)) == None
  {
  }

  lemma LoadEnds(img: seq<Byte>, fat: Table, c: nat, data: seq<Byte>)
    ensures Append(data, LoadFrom(img, fat, c, 0)) == Some(data)
  {
    assert data + [] == data;
  }

  /** The read loop of load, started at a directory entry; None where the lookup
      of the next cluster raises. */
  method Load(image: ImageFile, info: FileInfo, fat: Fat) returns (content: Option<seq<Byte>>)
    ensures content == LoadFrom(image.bytes, fat.fat, info.cluster, info.size)
  {
    var cluster: nat, size: nat := info.cluster, info.size;
    var data: seq<Byte> := [];
    hide LoadFrom;
    hide ReadAt;
    hide Append;
    ghost var want := LoadFrom(image.bytes, fat.fat, cluster, size);
    AppendNothing(want);
    while size > 0
      invariant Append(data, LoadFrom(image.bytes, fat.fat, cluster, size)) == want
      decreases size
    {
      var readSize := Min(size, CLUSTER_BYTES);
      var piece := image.Read(ENTITY_ADDRESS + cluster * CLUSTER_BYTES, readSize);
      var next := fat.GetNext(cluster);
      if next.None? {
        LoadRaises(image.bytes, fat.fat, cluster, size, data);
        return None;
      }
      LoadStep(image.bytes, fat.fat, cluster, size, data);
      data := data + piece;
      size := size - readSize;
      cluster := next.value;
    }
    LoadEnds(image.bytes, fat.fat, cluster, data);
    content := Some(data);
  }
}
