/** From the tool's runs to memory: what the boot stages have loaded of a file that
    was saved. */
module BootRuns {
  import opened MachineTypes
  import opened ImageBytes
  import opened FatTable
  import opened Chains
  import opened Directory
  import opened Ownership
  import opened Volume
  import opened VolumeRefinement
  import opened VolumeRuns
  import opened BootDisk
  import opened BootSearch
  import opened BootLoad

  /** The clusters of the file in slot i. */
  ghost function ChainOf(disk: seq<Byte>, i: nat): seq<Cluster>
    requires ReadableDir(disk) && i < FILE_COUNT
  {
    Owned(FatOf(disk), SlotsOf(disk)[i])
  }

  /** Slot i holds the file a boot stage finds under that name: not empty, and stored
      below cluster 2849. */
  ghost predicate BootFile(disk: seq<Byte>, name: Name, i: nat) {
    && Valid(disk) && LeastNamed(Abs(disk), name, 0) == Some(i) && |Abs(disk)[i].data| > 0
    && forall c :: c in ChainOf(disk, i) ==> c < 2849
  }

  /** The tool's lookup and the map's agree on the slot. */
  lemma BootSlot(disk: seq<Byte>, name: Name, i: nat)
    requires ReadableDir(disk) && LeastNamed(Abs(disk), name, 0) == Some(i)
    ensures NamedIndex(SlotsOf(disk), name, 0) == Some(i)
  {
    hide ReadableDir;
    hide FatOf;
    hide Content;
    hide LeastNamed;
    hide NamedIndex;
    NamedIndexAgrees(SlotsOf(disk), Abs(disk), name, 0);
  }

  /** Such a file is bootable along its own chain, whose clusters begin with its bytes. */
  lemma FileBootable(disk: seq<Byte>, name: Name, i: nat)
    requires BootName(name) && BootFile(disk, name, i)
    ensures var ch := ChainOf(disk, i);
      && Bootable(disk, name, ch) && |ch| == ClusterCount(|Abs(disk)[i].data|)
      && Abs(disk)[i].data <= Clusters(disk, ch)
  {
    BootSlot(disk, name, i);
    ContentLength(disk, i);
    var ch := ChainOf(disk, i);
    assert forall t :: 0 <= t < |ch| ==> ch[t] in ch;
    hide LeastNamed;
    hide NamedIndex;
    hide Clusters;
    hide Bootable;
    hide ClusterCount;
    hide Valid;
    hide Abs;
    hide Owned;
    hide SlotsOf;
    hide FatOf;
    ToolFileBootable(disk, name, i);
    LoadedIsFile(disk, i, Clusters(disk, ch));
  }

  lemma BootNames()
    ensures BootName(KERNEL_NAME) && BootName(LOADER_NAME)
  {
  }

  /** The codes of ASCII characters. */
  function Codes(s: string): (r: seq<Ascii>)
    requires forall i :: 0 <= i < |s| ==> '\0' < s[i] < '\U{80}'
  {
    seq(|s|, i requires 0 <= i < |s| => s[i] as int)
  }

  /** The files KERNEL.KAL and LOADER.KAL are saved under the names that the loader and the
      boot sector look for. */
  lemma BootFileNames()
    ensures Name83(Codes("KERNEL"), Codes("KAL")) == KERNEL_NAME == Codes("KERNEL  KAL")
    ensures Name83(Codes("LOADER"), Codes("KAL")) == LOADER_NAME == Codes("LOADER  KAL")
  {
    SixAndThree(Codes("KERNEL"), Codes("KAL"), KERNEL_NAME);
    SixAndThree(Codes("LOADER"), Codes("KAL"), LOADER_NAME);
    assert Codes("KERNEL  KAL") == KERNEL_NAME;
    assert Codes("LOADER  KAL") == LOADER_NAME;
  }

  lemma SixAndThree(stem: seq<Ascii>, ext: seq<Ascii>, name: Name)
    requires |stem| == 6 && |ext| == 3 && name == stem + [0x20, 0x20] + ext
    ensures Name83(stem, ext) == name
  {
    forall i: nat | i < 11
      ensures Name83(stem, ext)[i] == name[i]
    {
      NameLetters(stem, ext, i);
    }
  }

  /** So it is after every run of the tool, for the kernel and for the loader. */
  lemma RunBootable(cs: seq<Command>, name: Name, i: nat)
    requires name == KERNEL_NAME || name == LOADER_NAME
    requires Valid(FormatImage()) && BootFile(RunImage(FormatImage(), cs).state, name, i)
    ensures var disk := RunImage(FormatImage(), cs).state;
      var ch := ChainOf(disk, i);
      && Bootable(disk, name, ch) && |ch| == ClusterCount(|Abs(disk)[i].data|)
      && Abs(disk)[i].data <= Clusters(disk, ch)
  {
    BootNames();
    hide *;
    FileBootable(RunImage(FormatImage(), cs).state, name, i);
  }

  // ---------- the kernel ----------

  /** The loader on a disk the tool left: memory from 1 MB on begins with the bytes that
      were saved as the kernel. */
  method LoadSavedKernel(m: Machine, ghost cs: seq<Command>, ghost i: nat) returns (sectors: nat)
    requires m.Ready() && Valid(FormatImage()) && m.disk == RunImage(FormatImage(), cs).state
    requires BootFile(m.disk, KERNEL_NAME, i)
    requires m.mem.Length >= 0x10_0000 + 512 * ClusterCount(|Abs(m.disk)[i].data|)
    modifies m.mem
    ensures var data := Abs(m.disk)[i].data;
      && sectors == ClusterCount(|data|) && |data| <= 512 * sectors
      && m.mem[0x10_0000..0x10_0000 + |data|] == data
  {
    hide *;
    HasData(m.disk, KERNEL_NAME, i);
    ghost var data, ch := Abs(m.disk)[i].data, ChainOf(m.disk, i);
    KernelChain(m.disk, cs, i, data, ch);
    sectors := LoadData(m, data, ch);
  }

  method LoadData(m: Machine, ghost data: seq<Byte>, ghost ch: seq<Cluster>) returns (sectors: nat)
    requires m.Ready() && Bootable(m.disk, KERNEL_NAME, ch) && m.mem.Length >= 0x10_0000 + 512 * |ch|
    requires data <= Clusters(m.disk, ch) && |Clusters(m.disk, ch)| == 512 * |ch|
    modifies m.mem
    ensures sectors == |ch| && |data| <= 512 * sectors && m.mem[0x10_0000..0x10_0000 + |data|] == data
  {
    hide Clusters;
    hide Bootable;
    sectors := LoadKernel(m, ch);
    assert m.mem[..][0x10_0000..0x10_0000 + 512 * |ch|] == m.mem[0x10_0000..0x10_0000 + 512 * |ch|];
    MemoryBegins(m.mem[..], 0x10_0000, Clusters(m.disk, ch), data);
    assert m.mem[0x10_0000..0x10_0000 + |data|] == m.mem[..][0x10_0000..0x10_0000 + |data|];
  }

  lemma KernelChain(disk: seq<Byte>, cs: seq<Command>, i: nat, data: seq<Byte>, ch: seq<Cluster>)
    requires Valid(FormatImage()) && disk == RunImage(FormatImage(), cs).state && BootFile(disk, KERNEL_NAME, i)
    requires data == Abs(disk)[i].data && ch == ChainOf(disk, i)
    ensures Bootable(disk, KERNEL_NAME, ch) && |ch| == ClusterCount(|data|)
    ensures data <= Clusters(disk, ch) && |Clusters(disk, ch)| == 512 * |ch|
  {
    hide *;
    RunBootable(cs, KERNEL_NAME, i);
    ChainBelow(disk, KERNEL_NAME, ch);
    ClustersLength(disk, ch);
  }

  lemma MemoryBegins(mem: seq<Byte>, at: nat, all: seq<Byte>, data: seq<Byte>)
    requires at + |all| <= |mem| && mem[at..at + |all|] == all && data <= all
    ensures mem[at..at + |data|] == data
  {
    SliceFront(mem, at, |data|, |all|);
  }

  lemma ChainBelow(disk: seq<Byte>, name: Name, ch: seq<Cluster>)
    requires Bootable(disk, name, ch)
    ensures |disk| >= FD_SIZE && ch != [] && forall t :: 0 <= t < |ch| ==> 2 <= ch[t] < 2849
  {
  }

  // ---------- the loader ----------

  /** Sector t of a chain's clusters. */
  lemma {:induction false} ClusterSlice(disk: seq<Byte>, ch: seq<Cluster>, t: nat)
    requires |disk| >= FD_SIZE && t < |ch| && forall k :: 0 <= k < |ch| ==> 2 <= ch[k] < 2849
    ensures |Clusters(disk, ch)| == 512 * |ch|
    ensures Clusters(disk, ch)[512 * t..512 * t + 512] == SectorAt(disk, ClusterSector(ch[t]))
    decreases |ch|
  {
    var n := |ch| - 1;
    ClustersLength(disk, ch);
    ClustersLength(disk, ch[..n]);
    ClustersGrow(disk, ch, n);
    assert ch[..n + 1] == ch;
    SectorOfCluster(disk, ch[n]);
    hide Clusters;
    hide SectorAt;
    if t < n {
      ClusterSlice(disk, ch[..n], t);
      assert Clusters(disk, ch)[512 * t..512 * t + 512] == Clusters(disk, ch[..n])[512 * t..512 * t + 512];
    }
  }

  /** Where the last sector that wraps onto the start begins in the file. */
  function LastStart(size: nat): (from: nat)
    requires size > 0
    ensures from < size && (from == 0 <==> size <= 128 * 512)
  {
    (ClusterCount(size) - 1) / 128 * 128 * 512
  }

  /** The bytes from there, up to a sector. */
  function LastBytes(data: seq<Byte>): seq<Byte>
    requires data != []
  {
    var from := LastStart(|data|); data[from..from + Min(512, |data| - from)]
  }

  lemma LastStartAt(size: nat)
    requires size > 0
    ensures ClusterCount(size) > 0 && LastStart(size) == 512 * LastAt(ClusterCount(size), 0)
  {
  }

  lemma StartOf(mem: seq<Byte>, disk: seq<Byte>, ch: seq<Cluster>, data: seq<Byte>, from: nat)
    requires |disk| >= FD_SIZE && (forall t :: 0 <= t < |ch| ==> 2 <= ch[t] < 2849) && Loaded(mem, disk, ch, |ch|)
    requires ch != [] && data <= Clusters(disk, ch) && from == 512 * LastAt(|ch|, 0) < |data|
    ensures |mem| >= LOADER_BASE + 0x1_0000
    ensures data[from..from + Min(512, |data| - from)] <= mem[LOADER_BASE..]
  {
    hide *;
    SegmentSector(mem, disk, ch, 0);
    ClusterSlice(disk, ch, LastAt(|ch|, 0));
    SectorBegins(mem, LOADER_BASE, Clusters(disk, ch), from, data);
  }

  /** Equal sectors begin with equal bytes, those of a front of the second sequence. */
  lemma SectorBegins(mem: seq<Byte>, at: nat, all: seq<Byte>, from: nat, data: seq<Byte>)
    requires at + 512 <= |mem| && from + 512 <= |all| && data <= all && from < |data|
    requires mem[at..at + 512] == all[from..from + 512]
    ensures data[from..from + Min(512, |data| - from)] <= mem[at..]
  {
    var n := Min(512, |data| - from);
    SliceFront(mem, at, n, 512);
    SliceFront(all, from, n, 512);
    assert data[from..from + n] == all[from..from + n] == mem[at..at + n];
    assert mem[at..][..n] == mem[at..at + n];
  }

  lemma StartLoaded(mem: seq<Byte>, disk: seq<Byte>, ch: seq<Cluster>, data: seq<Byte>)
    requires Bootable(disk, LOADER_NAME, ch) && Loaded(mem, disk, ch, |ch|)
    requires data != [] && |ch| == ClusterCount(|data|) && data <= Clusters(disk, ch)
    ensures |mem| >= LOADER_BASE + 0x1_0000 && LastBytes(data) <= mem[LOADER_BASE..]
  {
    hide *;
    LastStartAt(|data|);
    ChainBelow(disk, LOADER_NAME, ch);
    StartOf(mem, disk, ch, data, LastStart(|data|));
    LastBytesAre(data, LastStart(|data|));
  }

  lemma HasData(disk: seq<Byte>, name: Name, i: nat)
    requires BootFile(disk, name, i)
    ensures ReadableDir(disk) && i < FILE_COUNT && i in Abs(disk) && Abs(disk)[i].data != []
  {
  }

  /** What the boot sector leaves where the loader starts: the saved bytes from the last
      multiple of 128 sectors on; with at most 128 sectors that is the loader's start. */
  lemma LoaderStart(disk: seq<Byte>, i: nat, mem: seq<Byte>)
    requires BootFile(disk, LOADER_NAME, i) && Loaded(mem, disk, ChainOf(disk, i), |ChainOf(disk, i)|)
    ensures i in Abs(disk) && Abs(disk)[i].data != []
    ensures |mem| >= 0x2_0000 && LastBytes(Abs(disk)[i].data) <= mem[0x1_0000..]
  {
    BootNames();
    assert LOADER_BASE == 0x1_0000;
    hide *;
    HasData(disk, LOADER_NAME, i);
    FileBootable(disk, LOADER_NAME, i);
    StartLoaded(mem, disk, ChainOf(disk, i), Abs(disk)[i].data);
  }

  lemma LastBytesAre(data: seq<Byte>, from: nat)
    requires data != [] && from == LastStart(|data|)
    ensures LastBytes(data) == data[from..from + Min(512, |data| - from)]
  {
  }

  // ---------- a loader of 129 sectors ----------

  /** 128 sectors of zeros and one of ones. */
  function LongLoader(): seq<Byte> { seq(129 * 512, a => if a < 128 * 512 then 0 else 1) }

  lemma {:induction false} FreshFree(fat: Table, start: nat, t: nat)
    requires 2 <= start && t < |FreeFrom(fat, start)| && forall c: Cluster :: 2 <= c ==> fat[c] == 0
    ensures FreeFrom(fat, start)[t] == start + t
    decreases t
  {
    if t > 0 { FreshFree(fat, start + 1, t - 1); }
  }

  /** A valid image without files and with every data cluster free. */
  ghost predicate Empty(img: seq<Byte>) {
    && Valid(img) && ReadableDir(img) && Abs(img) == map[]
    && FatOf(img)[0] != 0 && FatOf(img)[1] != 0 && forall c: Cluster :: 2 <= c ==> FatOf(img)[c] == 0
  }

  lemma FreshEmpty()
    ensures Empty(FormatImage())
  {
    FormatValid();
    FormatTable();
    hide FormatImage;
    hide FatOf;
    hide Abs;
  }

  /** On a fresh disk a file takes slot 0 and the clusters from 2 on. */
  lemma FreshChain(img: seq<Byte>, name: Name, data: seq<Byte>)
    requires Empty(img) && SaveImage(img, name, Some(data), 0, 0).0
    ensures var disk := SaveImage(img, name, Some(data), 0, 0).1;
      && Valid(disk) && ReadableDir(disk) && Abs(disk) == map[0 := File(RStrip(name), FILE_NORMAL, 0, 0, data)]
      && |ChainOf(disk, 0)| == ClusterCount(|data|)
      && forall t :: 0 <= t < |ChainOf(disk, 0)| ==> ChainOf(disk, 0)[t] == 2 + t
  {
    FreshSlot(img, name, data);
    FreshOwned(img, name, data);
    FirstFree(FatOf(img));
    assert forall c: Cluster :: 2 <= c ==> FatOf(img)[c] == 0;
    hide *;
    FrontFree(FatOf(img), ClusterCount(|data|));
  }

  lemma FreshOwned(img: seq<Byte>, name: Name, data: seq<Byte>)
    requires Empty(img) && SaveImage(img, name, Some(data), 0, 0).0
    ensures ClusterCount(|data|) <= |FreeFrom(FatOf(img), 0)|
    ensures var disk := SaveImage(img, name, Some(data), 0, 0).1;
      ReadableDir(disk) && ChainOf(disk, 0) == FreeFrom(FatOf(img), 0)[..ClusterCount(|data|)]
  {
    hide SaveImage;
    hide Valid;
    hide Abs;
    hide FatOf;
    hide FreeFrom;
    hide Owned;
    hide Link;
    hide ClusterCount;
    EmptySlots(img);
    SaveTable(img, name, data, 0, 0);
  }

  lemma FrontFree(fat: Table, k: nat)
    requires FreeFrom(fat, 0) == FreeFrom(fat, 2) && k <= |FreeFrom(fat, 0)|
    requires forall c: Cluster :: 2 <= c ==> fat[c] == 0
    ensures forall t :: 0 <= t < k ==> FreeFrom(fat, 0)[..k][t] == 2 + t
  {
    hide FreeFrom;
    forall t | 0 <= t < k
      ensures FreeFrom(fat, 0)[..k][t] == 2 + t
    {
      FreshFree(fat, 2, t);
    }
  }

  lemma FirstFree(fat: Table)
    requires fat[0] != 0 && fat[1] != 0
    ensures FreeFrom(fat, 0) == FreeFrom(fat, 2)
  {
    assert FreeFrom(fat, 0) == FreeFrom(fat, 1) == FreeFrom(fat, 2);
  }

  lemma FreshSlot(img: seq<Byte>, name: Name, data: seq<Byte>)
    requires Empty(img) && SaveImage(img, name, Some(data), 0, 0).0
    ensures var disk := SaveImage(img, name, Some(data), 0, 0).1;
      Valid(disk) && Abs(disk) == map[0 := File(RStrip(name), FILE_NORMAL, 0, 0, data)]
    ensures FreeIndex(SlotsOf(img), 0) == Some(0)
  {
    hide SaveImage;
    hide Valid;
    hide Abs;
    hide FatOf;
    SaveRefines(img, name, Some(data), 0, 0);
    EmptySlots(img);
    SavedOnly(name, data);
  }

  lemma EmptySlots(img: seq<Byte>)
    requires ReadableDir(img) && Abs(img) == map[]
    ensures FreeIndex(SlotsOf(img), 0) == Some(0)
  {
    FirstSlot();
    FreeIndexAgrees(SlotsOf(img), Abs(img), 0);
  }

  lemma FirstSlot()
    ensures LeastFree(map[], 0) == Some(0)
  {
  }

  lemma SavedOnly(name: Name, data: seq<Byte>)
    ensures var (ok, m) := SaveFile(map[], name, Some(data), 0, 0);
      ok ==> m == map[0 := File(RStrip(name), FILE_NORMAL, 0, 0, data)]
  {
    FirstSlot();
    hide LeastFree;
  }

  lemma FirstByte(mem: seq<Byte>, at: nat, data: seq<Byte>)
    requires at <= |mem| && data != []
    ensures data <= mem[at..] ==> at < |mem| && mem[at] == data[0]
  {
  }

  lemma LongLoaderBytes()
    ensures |LongLoader()| == 129 * 512 <= 3070 * CLUSTER_BYTES && ClusterCount(129 * 512) == 129
    ensures |LastBytes(LongLoader())| == 512 && LastBytes(LongLoader())[0] == 1 && LongLoader()[0] == 0
    ensures RStrip(LOADER_NAME) == LOADER_NAME
  {
    assert LastStart(129 * 512) == 128 * 512;
  }

  /** Saved on a fresh disk, this loader is bootable, and once it is loaded its start in
      memory is not the start of the file. */
  lemma LongLoaderExample(mem: seq<Byte>)
    ensures Valid(FormatImage())
    ensures var disk := SaveImage(FormatImage(), LOADER_NAME, Some(LongLoader()), 0, 0).1;
      && ReadableDir(disk) && Bootable(disk, LOADER_NAME, ChainOf(disk, 0)) && |ChainOf(disk, 0)| == 129
      && (Loaded(mem, disk, ChainOf(disk, 0), 129) ==>
            |mem| >= 0x2_0000 && mem[0x1_0000] != LongLoader()[0])
  {
    hide *;
    LongLoaderBytes();
    var data := LongLoader();
    FreshEmpty();
    FreshSave(LOADER_NAME, data, 0, 0);
    FreshChain(FormatImage(), LOADER_NAME, data);
    LoaderLoaded(SaveImage(FormatImage(), LOADER_NAME, Some(data), 0, 0).1, data, mem);
    if |mem| >= 0x2_0000 { FirstByte(mem, 0x1_0000, LastBytes(data)); }
  }

  /** The same for any bytes saved as the only file. */
  lemma LoaderLoaded(disk: seq<Byte>, data: seq<Byte>, mem: seq<Byte>)
    requires Valid(disk) && Abs(disk) == map[0 := File(LOADER_NAME, FILE_NORMAL, 0, 0, data)] && |data| > 0
    requires |ChainOf(disk, 0)| <= 2847 && forall t :: 0 <= t < |ChainOf(disk, 0)| ==> ChainOf(disk, 0)[t] == 2 + t
    ensures Bootable(disk, LOADER_NAME, ChainOf(disk, 0))
    ensures Loaded(mem, disk, ChainOf(disk, 0), |ChainOf(disk, 0)|) ==>
              |mem| >= 0x2_0000 && LastBytes(data) <= mem[0x1_0000..]
  {
    BootNames();
    assert ReadableDir(disk);
    hide *;
    LoaderFile(disk, data);
    FileBootable(disk, LOADER_NAME, 0);
    if Loaded(mem, disk, ChainOf(disk, 0), |ChainOf(disk, 0)|) { LoaderStart(disk, 0, mem); }
  }

  lemma LoaderFile(disk: seq<Byte>, data: seq<Byte>)
    requires Valid(disk) && Abs(disk) == map[0 := File(LOADER_NAME, FILE_NORMAL, 0, 0, data)] && |data| > 0
    requires |ChainOf(disk, 0)| <= 2847 && forall t :: 0 <= t < |ChainOf(disk, 0)| ==> ChainOf(disk, 0)[t] == 2 + t
    ensures BootFile(disk, LOADER_NAME, 0)
  {
    hide ReadableDir;
    hide ChainOf;
    assert LeastNamed(Abs(disk), LOADER_NAME, 0) == Some(0);
  }
}
