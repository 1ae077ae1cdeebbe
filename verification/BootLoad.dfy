/** Loading a file at boot: the loader's walk of KERNEL.KAL with its copy loop,
    and the boot sector's walk of LOADER.KAL. */
module BootLoad {
  import opened MachineTypes
  import opened ImageBytes
  import opened FatTable
  import opened Chains
  import opened Directory
  import opened ClusterStore
  import opened Ownership
  import opened Volume
  import opened BootDisk
  import opened BootSearch

  const KERNEL_BASE: nat := 0x10_0000
  const LOADER_BASE: nat := 0x1_0000
  const SECTOR_BUFFER: nat := 0x7E00
  const LOADER_TABLE_BUFFER: nat := 0x8000

  /** "KERNEL  KAL" */
  const KERNEL_NAME: Name := [0x4B, 0x45, 0x52, 0x4E, 0x45, 0x4C, 0x20, 0x20, 0x4B, 0x41, 0x4C]
  /** "LOADER  KAL" */
  const LOADER_NAME: Name := [0x4C, 0x4F, 0x41, 0x44, 0x45, 0x52, 0x20, 0x20, 0x4B, 0x41, 0x4C]

  /** Sector number of a cluster, as both stages compute it in 16 bits. */
  function ClusterSector(c: Word): Word { (c + ROOT_DIR_SECTORS + SECTOR_BALANCE) % 0x1_0000 }

  /** The layout of the floppy in sectors of 512 bytes: one boot sector, two tables of
      nine, a directory of fourteen, then the data from cluster 2 on. */
  lemma DiskLayout()
    ensures FD_SIZE == 2880 * 512 && FAT1_ADDRESS == 1 * 512 && FAT_BYTES == 9 * 512 && FAT2_ADDRESS == 10 * 512
    ensures DIR_ADDRESS == 19 * 512 && FILE_COUNT * FILEINFO_BYTES == 14 * 512
    ensures ClusterAddress(2) == 33 * 512 && forall c: nat :: ClusterAddress(c + 1) == ClusterAddress(c) + 512
    ensures forall c: nat :: 2 <= c < 2849 ==> ClusterSector(c) == c + 31
  {
  }

  /** The clusters of a chain, whole and in order. */
  function Clusters(disk: seq<Byte>, ch: seq<Cluster>): seq<Byte> {
    if ch == [] then [] else Clusters(disk, ch[..|ch| - 1]) + ReadAt(disk, ClusterAddress(ch[|ch| - 1]), 512)
  }

  /** The boot sector number of a data cluster is where the tool stored it. */
  lemma SectorOfCluster(disk: seq<Byte>, c: Cluster)
    requires |disk| >= FD_SIZE && 2 <= c < 2849
    ensures ClusterSector(c) + 1 <= DISK_SECTORS
    ensures 512 * ClusterSector(c) == ClusterAddress(c)
    ensures |ReadAt(disk, ClusterAddress(c), 512)| == 512
  {
  }

  lemma {:induction false} ClustersLength(disk: seq<Byte>, ch: seq<Cluster>)
    requires |disk| >= FD_SIZE && forall t :: 0 <= t < |ch| ==> 2 <= ch[t] < 2849
    ensures |Clusters(disk, ch)| == 512 * |ch|
    decreases |ch|
  {
    if ch != [] {
      ClustersLength(disk, ch[..|ch| - 1]);
      SectorOfCluster(disk, ch[|ch| - 1]);
    }
  }

  /** The file's chain as a boot stage meets it: complete and on the disk. */
  ghost predicate Bootable(disk: seq<Byte>, name: Name, ch: seq<Cluster>) {
    && |disk| >= FD_SIZE && |ch| > 0
    && FoundCluster(disk, name) == Some(ch[0])
    && Complete(FatOf(disk), ch)
    && forall t :: 0 <= t < |ch| ==> ch[t] < 2849
  }

  /** On an image the tool left, a file that is named for boot, is not empty and
      lies below cluster 2849 is bootable along exactly its own chain. */
  lemma ToolFileBootable(disk: seq<Byte>, name: Name, i: nat)
    requires Valid(disk) && BootName(name) && NamedIndex(SlotsOf(disk), name, 0) == Some(i)
    requires SlotsOf(disk)[i].info.size > 0
    requires forall c :: c in Owned(FatOf(disk), SlotsOf(disk)[i]) ==> c < 2849
    ensures Bootable(disk, name, Owned(FatOf(disk), SlotsOf(disk)[i]))
    ensures |Owned(FatOf(disk), SlotsOf(disk)[i])| == ClusterCount(SlotsOf(disk)[i].info.size)
  {
    var ch := Owned(FatOf(disk), SlotsOf(disk)[i]);
    ValidChain(disk, i);
    FoundClusterAgrees(disk, name);
    forall t | 0 <= t < |ch|
      ensures ch[t] < 2849
    {
      assert ch[t] in ch;
    }
  }

  /** The link a boot stage decodes leads along the chain. */
  lemma NextLink(disk: seq<Byte>, ch: seq<Cluster>, j: nat)
    requires |disk| >= FD_SIZE && Complete(FatOf(disk), ch) && j < |ch|
    ensures EntryAt(disk[FAT1_ADDRESS..], ch[j]) == if j + 1 < |ch| then ch[j + 1] else END_OF_CHAIN
  {
    DecodersAgree(disk, ch[j]);
  }

  // ---------- where a stage writes ----------

  /** Memory differs at most in two ranges. */
  ghost predicate Confined(before: seq<Byte>, after: seq<Byte>, lo: nat, hi: nat, lo2: nat, hi2: nat) {
    |after| == |before|
    && forall a :: 0 <= a < |before| && !(lo <= a < hi) && !(lo2 <= a < hi2) ==> after[a] == before[a]
  }

  /** One write more, inside the first range or the second. */
  lemma ConfinedNext(m0: seq<Byte>, m1: seq<Byte>, m2: seq<Byte>, a: nat, b: nat, lo: nat, hi: nat, lo2: nat, hi1: nat, hi2: nat)
    requires Confined(m0, m1, lo, hi, lo2, hi1) && SameOutside(m1, m2, a, b) && hi1 <= hi2
    requires (lo <= a && b <= hi) || (lo2 <= a && b <= hi2)
    ensures Confined(m0, m2, lo, hi, lo2, hi2)
  {
  }

  lemma ConfinedStart(m0: seq<Byte>, lo: nat, hi: nat, lo2: nat, hi2: nat)
    ensures Confined(m0, m0, lo, hi, lo2, hi2)
  {
  }

  lemma ConfinedJoin(m0: seq<Byte>, m1: seq<Byte>, m2: seq<Byte>, lo: nat, hi: nat, lo2: nat, mid: nat, hi2: nat)
    requires Confined(m0, m1, lo, hi, lo2, mid) && Confined(m1, m2, lo, hi, mid, hi2) && lo2 <= mid <= hi2
    ensures Confined(m0, m2, lo, hi, lo2, hi2)
  {
  }

  // ---------- the loader ----------

  /** Label_Mov_Kernel: 200h bytes from esi to edi. */
  method CopySector(mem: array<Byte>, esi: nat, edi: nat)
    requires esi + 512 <= edi && edi + 512 <= mem.Length
    modifies mem
    ensures mem[..] == WriteAt(old(mem[..]), edi, old(mem[esi..esi + 512]))
  {
    var cx, si, di := 0x200, esi, edi;
    while cx != 0
      invariant 0 <= cx <= 512 && si == esi + 512 - cx && di == edi + 512 - cx
      invariant forall a :: 0 <= a < mem.Length && !(edi <= a < di) ==> mem[a] == old(mem[a])
      invariant forall a :: edi <= a < di ==> mem[a] == old(mem[a - edi + esi])
    {
      mem[di] := mem[si];
      si := si + 1;
      di := di + 1;
      cx := cx - 1;
    }
    WriteAtPointwise(old(mem[..]), edi, old(mem[esi..esi + 512]));
  }

  /** Reads a sector into the buffer and copies it to its place in the kernel. */
  method FetchSector(m: Machine, ax: Word, edi: nat)
    requires m.Ready() && ax < DISK_SECTORS && KERNEL_BASE <= edi && edi + 512 <= m.mem.Length
    modifies m.mem
    ensures Fetched(old(m.mem[..]), m.mem[..], SectorAt(m.disk, ax), edi)
  {
    ghost var before, data := m.mem[..], SectorAt(m.disk, ax);
    assert |data| == 512;
    hide Fetched;
    hide SameOutside;
    hide SectorAt;
    m.ReadOneSector(ax, 1, SECTOR_BUFFER);
    BufferFilled(before, SECTOR_BUFFER, data);
    ghost var mid := m.mem[..];
    assert m.mem[SECTOR_BUFFER..SECTOR_BUFFER + 512] == mid[SECTOR_BUFFER..SECTOR_BUFFER + 512];
    CopySector(m.mem, SECTOR_BUFFER, edi);
    BufferFilled(mid, edi, data);
    FetchedBy(before, mid, m.mem[..], data, edi);
  }

  /** A sector stands at edi, and only the buffer changed besides. */
  ghost predicate Fetched(before: seq<Byte>, after: seq<Byte>, data: seq<Byte>, edi: nat) {
    && KERNEL_BASE <= edi && edi + 512 <= |before| && Confined(before, after, 0x7E00, 0x8400, edi, edi + 512)
    && after[edi..edi + 512] == data && after[KERNEL_BASE..edi] == before[KERNEL_BASE..edi]
  }

  lemma FetchedBy(before: seq<Byte>, mid: seq<Byte>, after: seq<Byte>, data: seq<Byte>, edi: nat)
    requires KERNEL_BASE <= edi && edi + 512 <= |before| && SameOutside(before, mid, 0x7E00, 0x8000)
    requires SameOutside(mid, after, edi, edi + 512) && after[edi..edi + 512] == data
    ensures Fetched(before, after, data, edi)
  {
  }

  /** The first j clusters are in place, and nothing changed but there and in the buffers. */
  ghost predicate KernelSoFar(start: seq<Byte>, mem: seq<Byte>, disk: seq<Byte>, ch: seq<Cluster>, j: nat) {
    && j <= |ch| && KERNEL_BASE + 512 * |ch| <= |mem|
    && mem[KERNEL_BASE..KERNEL_BASE + 512 * j] == Clusters(disk, ch[..j])
    && Confined(start, mem, 0x7E00, 0x8400, KERNEL_BASE, KERNEL_BASE + 512 * j)
  }

  lemma KernelStart(start: seq<Byte>, mem: seq<Byte>, disk: seq<Byte>, ch: seq<Cluster>)
    requires KERNEL_BASE + 512 * |ch| <= |start| && SameOutside(start, mem, 0x8000, 0x8200)
    ensures KernelSoFar(start, mem, disk, ch, 0)
  {
  }

  /** One sector fetched, then the table read for the next link. */
  lemma KernelGrows(start: seq<Byte>, m0: seq<Byte>, m1: seq<Byte>, m2: seq<Byte>, disk: seq<Byte>, ch: seq<Cluster>, j: nat)
    requires KernelSoFar(start, m0, disk, ch, j) && j < |ch| && |disk| >= FD_SIZE && 2 <= ch[j] < 2849
    requires Fetched(m0, m1, SectorAt(disk, ClusterSector(ch[j])), KERNEL_BASE + 512 * j)
    requires SameOutside(m1, m2, 0x8000, 0x8400)
    ensures KernelSoFar(start, m2, disk, ch, j + 1)
  {
    var edi := KERNEL_BASE + 512 * j;
    ClustersGrow(disk, ch, j);
    KeptBehind(m1, m2, KERNEL_BASE, edi + 512);
    SliceSplit(m2, KERNEL_BASE, edi, edi + 512);
    SliceSplit(m1, KERNEL_BASE, edi, edi + 512);
    hide Clusters;
    hide SectorAt;
    ConfinedJoin(start, m0, m1, 0x7E00, 0x8400, KERNEL_BASE, edi, edi + 512);
    ConfinedNext(start, m1, m2, 0x8000, 0x8400, 0x7E00, 0x8400, KERNEL_BASE, edi + 512, edi + 512);
    hide Confined;
    hide SameOutside;
  }

  lemma KeptBehind(m1: seq<Byte>, m2: seq<Byte>, a: nat, b: nat)
    requires SameOutside(m1, m2, 0x8000, 0x8400) && 0x8400 <= a <= b <= |m1|
    ensures m2[a..b] == m1[a..b]
  {
  }

  /** The clusters loaded so far grow by the sector just fetched. */
  lemma ClustersGrow(disk: seq<Byte>, ch: seq<Cluster>, j: nat)
    requires j < |ch| && |disk| >= FD_SIZE && 2 <= ch[j] < 2849
    ensures Clusters(disk, ch[..j + 1]) == Clusters(disk, ch[..j]) + SectorAt(disk, ClusterSector(ch[j]))
  {
    assert ch[..j + 1][..j] == ch[..j];
    SectorOfCluster(disk, ch[j]);
  }

  /** The loader: find the kernel, then read, copy and follow links until 0xFFF; sectors
      counts the sectors read. It writes to its two buffers and from 1 MB on, nowhere else. */
  method LoadKernel(m: Machine, ghost ch: seq<Cluster>) returns (sectors: nat)
    requires m.Ready() && Bootable(m.disk, KERNEL_NAME, ch)
    requires m.mem.Length >= KERNEL_BASE + 512 * |ch|
    modifies m.mem
    ensures sectors == |ch|
    ensures m.mem[KERNEL_BASE..KERNEL_BASE + 512 * |ch|] == Clusters(m.disk, ch)
    ensures Confined(old(m.mem[..]), m.mem[..], 0x7E00, 0x8400, 0x10_0000, 0x10_0000 + 512 * |ch|)
  {
    hide SameOutside;
    hide Clusters;
    hide Fetched;
    hide Confined;
    hide KernelSoFar;
    ghost var start := m.mem[..];
    var found := FindFile(m, KERNEL_NAME, LOADER_TABLE_BUFFER);
    KernelStart(start, m.mem[..], m.disk, ch);
    var cluster := found.value;
    var ax := ClusterSector(cluster);
    var edi := KERNEL_BASE;
    sectors := 0;
    while true
      invariant 0 <= sectors < |ch| && cluster == ch[sectors] && ax == ClusterSector(cluster)
      invariant edi == KERNEL_BASE + 512 * sectors
      invariant KernelSoFar(start, m.mem[..], m.disk, ch, sectors)
      decreases |ch| - sectors
    {
      SectorOfCluster(m.disk, cluster);
      NextLink(m.disk, ch, sectors);
      ghost var m0 := m.mem[..];
      FetchSector(m, ax, edi);
      ghost var m1 := m.mem[..];
      ax := m.GetFATEntry(cluster, LOADER_TABLE_BUFFER);
      KernelGrows(start, m0, m1, m.mem[..], m.disk, ch, sectors);
      sectors := sectors + 1;
      edi := edi + 512;
      if ax == 0xFFF {
        KernelDone(start, m.mem[..], m.disk, ch);
        assert m.mem[..][KERNEL_BASE..edi] == m.mem[KERNEL_BASE..edi];
        return;
      }
      cluster := ax;
      ax := ClusterSector(ax);
    }
  }

  lemma KernelDone(start: seq<Byte>, mem: seq<Byte>, disk: seq<Byte>, ch: seq<Cluster>)
    requires KernelSoFar(start, mem, disk, ch, |ch|)
    ensures KERNEL_BASE + 512 * |ch| <= |mem| && mem[KERNEL_BASE..KERNEL_BASE + 512 * |ch|] == Clusters(disk, ch)
    ensures Confined(start, mem, 0x7E00, 0x8400, KERNEL_BASE, KERNEL_BASE + 512 * |ch|)
  {
    assert ch[..|ch|] == ch;
  }

  // ---------- what was loaded is the file ----------

  lemma {:induction false} ClustersFront(disk: seq<Byte>, ch: seq<Cluster>)
    requires ch != []
    ensures Clusters(disk, ch) == ReadAt(disk, ClusterAddress(ch[0]), 512) + Clusters(disk, ch[1..])
    decreases |ch|
  {
    if |ch| > 1 {
      var front := ch[..|ch| - 1];
      ClustersFront(disk, front);
      assert front[1..] == ch[1..][..|ch| - 2];
      var rest := ch[1..];
      assert Clusters(disk, rest) == Clusters(disk, front[1..]) + ReadAt(disk, ClusterAddress(ch[|ch| - 1]), 512);
    }
  }

  /** The whole clusters begin with the pieces the tool's read loop returns. */
  lemma {:induction false} PiecesArePrefix(disk: seq<Byte>, ch: seq<Cluster>, size: nat)
    requires |disk| >= FD_SIZE && |ch| == ClusterCount(size)
    requires forall t :: 0 <= t < |ch| ==> 2 <= ch[t] < 2849
    ensures ReadPieces(disk, ch, size) <= Clusters(disk, ch) && |ReadPieces(disk, ch, size)| == size
    decreases |ch|
  {
    hide ReadAt;
    if ch != [] {
      var n := Min(size, CLUSTER_BYTES);
      var sector, first := ReadAt(disk, ClusterAddress(ch[0]), 512), ReadAt(disk, ClusterAddress(ch[0]), n);
      SectorOfCluster(disk, ch[0]);
      ReadAtFront(disk, ClusterAddress(ch[0]), n);
      ClustersFront(disk, ch);
      var rest := ReadPieces(disk, ch[1..], size - n);
      PiecesArePrefix(disk, ch[1..], size - n);
      if n < 512 {
        assert rest == [] && first + rest == first;
      } else {
        assert first == sector;
      }
    }
  }

  /** A short read is the front of a sector. */
  lemma ReadAtFront(disk: seq<Byte>, off: nat, n: nat)
    requires off + 512 <= |disk| && n <= 512
    ensures |ReadAt(disk, off, 512)| == 512 && ReadAt(disk, off, n) == ReadAt(disk, off, 512)[..n]
  {
    assert ReadAt(disk, off, 512) == disk[off..off + 512];
    assert n > 0 ==> ReadAt(disk, off, n) == disk[off..off + n];
    SliceFront(disk, off, n, 512);
  }

  lemma SliceFront(s: seq<Byte>, a: nat, n: nat, k: nat)
    requires n <= k && a + k <= |s|
    ensures s[a..a + k][..n] == s[a..a + n]
  {
  }

  /** Memory filled with a file's clusters starts with the file's bytes. */
  lemma LoadedIsFile(disk: seq<Byte>, i: nat, loaded: seq<Byte>)
    requires Valid(disk) && i in Abs(disk)
    requires var ch := Owned(FatOf(disk), SlotsOf(disk)[i]);
      loaded == Clusters(disk, ch) && forall t :: 0 <= t < |ch| ==> ch[t] < 2849
    ensures Abs(disk)[i].data <= loaded
  {
    var ch := Owned(FatOf(disk), SlotsOf(disk)[i]);
    ValidChain(disk, i);
    PiecesArePrefix(disk, ch, SlotsOf(disk)[i].info.size);
  }

  // ---------- the boot sector ----------

  /** The 16-bit load offset of sector t. */
  function Offset(t: nat): (bx: nat)
    ensures bx + 512 <= 0x1_0000
  {
    512 * (t % 128)
  }

  /** Sector t of the walk is in memory, at its offset in the 64 KB segment. */
  ghost predicate InSegment(mem: seq<Byte>, disk: seq<Byte>, c: Cluster, t: nat) {
    |mem| >= LOADER_BASE + 0x1_0000
    && mem[LOADER_BASE + Offset(t)..LOADER_BASE + Offset(t) + 512] == SectorAt(disk, ClusterSector(c))
  }

  /** After n sectors, the last 128 of them are in the segment. */
  ghost predicate Loaded(mem: seq<Byte>, disk: seq<Byte>, ch: seq<Cluster>, n: nat) {
    forall t :: 0 <= t < |ch| && t < n <= t + 128 ==> InSegment(mem, disk, ch[t], t)
  }

  /** A sector written at bx leaves the 127 sectors before it. */
  lemma LoadedGrows(before: seq<Byte>, disk: seq<Byte>, ch: seq<Cluster>, n: nat, bx: nat)
    requires |before| >= LOADER_BASE + 0x1_0000 && n < |ch| && bx == Offset(n)
    requires |SectorAt(disk, ClusterSector(ch[n]))| == 512
    requires Loaded(before, disk, ch, n)
    ensures var after := WriteAt(before, LOADER_BASE + bx, SectorAt(disk, ClusterSector(ch[n])));
      |after| == |before| && Loaded(after, disk, ch, n + 1)
  {
    var after := WriteAt(before, LOADER_BASE + bx, SectorAt(disk, ClusterSector(ch[n])));
    BufferFilled(before, LOADER_BASE + bx, SectorAt(disk, ClusterSector(ch[n])));
    forall t | 0 <= t < |ch| && t < n + 1 <= t + 128
      ensures InSegment(after, disk, ch[t], t)
    {
      if t < n {
        assert InSegment(before, disk, ch[t], t);
        assert t % 128 != n % 128;
        var at := LOADER_BASE + Offset(t);
        assert after[at..at + 512] == before[at..at + 512];
      }
    }
  }

  /** Changes below the segment keep what is loaded. */
  lemma LoadedKept(before: seq<Byte>, after: seq<Byte>, disk: seq<Byte>, ch: seq<Cluster>, n: nat)
    requires Loaded(before, disk, ch, n) && SameOutside(before, after, SECTOR_BUFFER, SECTOR_BUFFER + 1024)
    ensures Loaded(after, disk, ch, n)
  {
    forall t | 0 <= t < |ch| && t < n <= t + 128
      ensures InSegment(after, disk, ch[t], t)
    {
      assert InSegment(before, disk, ch[t], t);
      var at := LOADER_BASE + Offset(t);
      assert after[at..at + 512] == before[at..at + 512];
    }
  }

  lemma OffsetStep(n: nat)
    ensures (Offset(n) + 512) % 0x1_0000 == Offset(n + 1)
  {
    if n % 128 == 127 {
      assert (n + 1) % 128 == 0;
    } else {
      assert (n + 1) % 128 == n % 128 + 1;
    }
  }

  lemma InSegmentOnly(before: seq<Byte>, bx: nat, data: seq<Byte>)
    requires |data| == 512 && bx + 512 <= 0x1_0000 && |before| >= LOADER_BASE + 0x1_0000
    ensures SameOutside(before, WriteAt(before, LOADER_BASE + bx, data), LOADER_BASE, LOADER_BASE + 0x1_0000)
  {
    BufferFilled(before, LOADER_BASE + bx, data);
  }

  /** Reads sector n of the walk to its place in the segment. */
  method LoadSector(m: Machine, ax: Word, bx: nat, ghost ch: seq<Cluster>, ghost n: nat)
    requires m.Ready() && Bootable(m.disk, LOADER_NAME, ch) && n < |ch|
    requires ax == ClusterSector(ch[n]) && bx == Offset(n) && Loaded(m.mem[..], m.disk, ch, n)
    modifies m.mem
    ensures Loaded(m.mem[..], m.disk, ch, n + 1)
    ensures SameOutside(old(m.mem[..]), m.mem[..], LOADER_BASE, LOADER_BASE + 0x1_0000)
  {
    SectorOfCluster(m.disk, ch[n]);
    LoadedGrows(m.mem[..], m.disk, ch, n, bx);
    ghost var before := m.mem[..];
    InSegmentOnly(before, bx, SectorAt(m.disk, ax));
    assert SectorAt(m.disk, ax) == ReadAt(m.disk, 512 * ax, 512 * 1) && bx + 512 <= 0x1_0000;
    assert ax + 1 <= DISK_SECTORS && ax % SECTORS_PER_TRACK + 1 <= SECTORS_PER_TRACK;
    hide Loaded;
    hide SameOutside;
    hide WriteAt;
    hide ReadAt;
    hide Bootable;
    hide ClusterSector;
    hide Offset;
    m.ReadOneSector(ax, 1, LOADER_BASE + bx);
  }

  /** The boot sector: the load offset bx is 16 bits wide, so it wraps after 128
      sectors; what remains is the last 128 sectors, each at its wrapped offset. */
  method LoadLoader(m: Machine, ghost ch: seq<Cluster>) returns (sectors: nat)
    requires m.Ready() && Bootable(m.disk, LOADER_NAME, ch)
    modifies m.mem
    ensures sectors == |ch| && Loaded(m.mem[..], m.disk, ch, |ch|)
    ensures Confined(old(m.mem[..]), m.mem[..], 0x7E00, 0x8200, 0x1_0000, 0x2_0000)
  {
    ghost var start := m.mem[..];
    hide Confined;
    ConfinedStart(start, 0x7E00, 0x8200, 0x1_0000, 0x2_0000);
    var found := FindFile(m, LOADER_NAME, SECTOR_BUFFER);
    ConfinedNext(start, start, m.mem[..], 0x7E00, 0x8000, 0x7E00, 0x8200, 0x1_0000, 0x2_0000, 0x2_0000);
    var cluster := found.value;
    var ax := ClusterSector(cluster);
    var bx := 0;
    sectors := 0;
    while true
      invariant 0 <= sectors < |ch| && cluster == ch[sectors] && ax == ClusterSector(cluster)
      invariant bx == Offset(sectors)
      invariant Loaded(m.mem[..], m.disk, ch, sectors)
      invariant Confined(start, m.mem[..], 0x7E00, 0x8200, 0x1_0000, 0x2_0000)
      decreases |ch| - sectors
    {
      ghost var earlier := m.mem[..];
      LoadSector(m, ax, bx, ch, sectors);
      ConfinedNext(start, earlier, m.mem[..], 0x1_0000, 0x2_0000, 0x7E00, 0x8200, 0x1_0000, 0x2_0000, 0x2_0000);
      NextLink(m.disk, ch, sectors);
      OffsetStep(sectors);
      sectors := sectors + 1;
      ghost var before := m.mem[..];
      ax := m.GetFATEntry(cluster, SECTOR_BUFFER);
      LoadedKept(before, m.mem[..], m.disk, ch, sectors);
      ConfinedNext(start, before, m.mem[..], 0x7E00, 0x8200, 0x7E00, 0x8200, 0x1_0000, 0x2_0000, 0x2_0000);
      if ax == 0xFFF {
        return;
      }
      cluster := ax;
      ax := ClusterSector(ax);
      bx := (bx + BYTES_PER_SECTOR) % 0x1_0000;
    }
  }

  /** The last of n sectors that is read to the place of sector k. */
  function LastAt(n: nat, k: nat): (t: nat)
    requires k < n && k < 128
    ensures k <= t < n <= t + 128 && Offset(t) == 512 * k
    ensures n <= 128 ==> t == k
  {
    k + (n - 1 - k) / 128 * 128
  }

  /** Where sector k belongs lies the last sector read to that place: its own exactly
      when at most 128 sectors follow it, itself included. */
  lemma SegmentSector(mem: seq<Byte>, disk: seq<Byte>, ch: seq<Cluster>, k: nat)
    requires Loaded(mem, disk, ch, |ch|) && k < |ch| && k < 128
    ensures |mem| >= LOADER_BASE + 0x1_0000
    ensures mem[LOADER_BASE + 512 * k..LOADER_BASE + 512 * k + 512]
         == SectorAt(disk, ClusterSector(ch[LastAt(|ch|, k)]))
    ensures LastAt(|ch|, k) == k <==> |ch| <= k + 128
  {
    assert InSegment(mem, disk, ch[LastAt(|ch|, k)], LastAt(|ch|, k));
  }

  /** The sector that ends up in the place of sector k has its bytes. */
  ghost predicate SameSector(disk: seq<Byte>, ch: seq<Cluster>, k: nat)
    requires k < |ch| && k < 128
  {
    SectorAt(disk, ClusterSector(ch[LastAt(|ch|, k)])) == SectorAt(disk, ClusterSector(ch[k]))
  }

  lemma {:induction false} SegmentUpTo(mem: seq<Byte>, disk: seq<Byte>, ch: seq<Cluster>, j: nat)
    requires |mem| >= LOADER_BASE + 0x1_0000 && |disk| >= FD_SIZE && j <= |ch| && j <= 128
    requires Loaded(mem, disk, ch, |ch|) && forall t :: 0 <= t < |ch| ==> 2 <= ch[t] < 2849
    ensures mem[LOADER_BASE..LOADER_BASE + 512 * j] == Clusters(disk, ch[..j])
      <==> forall k :: 0 <= k < j ==> SameSector(disk, ch, k)
    decreases j
  {
    hide SectorAt;
    hide Loaded;
    hide Clusters;
    if j == 0 {
      ClustersLength(disk, ch[..0]);
    } else {
      var k, at := j - 1, LOADER_BASE + 512 * (j - 1);
      SegmentUpTo(mem, disk, ch, k);
      SegmentSector(mem, disk, ch, k);
      ClustersGrow(disk, ch, k);
      ClustersLength(disk, ch[..k]);
      assert ch[..k + 1] == ch[..j];
      SplitEqual(mem[LOADER_BASE..at], mem[at..at + 512], Clusters(disk, ch[..k]), SectorAt(disk, ClusterSector(ch[k])));
      assert LOADER_BASE + 512 * j == at + 512;
      SliceSplit(mem, LOADER_BASE, at, at + 512);
      assert mem[at..at + 512] == SectorAt(disk, ClusterSector(ch[k])) <==> SameSector(disk, ch, k);
    }
  }

  lemma SliceSplit(s: seq<Byte>, a: nat, b: nat, c: nat)
    requires a <= b <= c <= |s|
    ensures s[a..c] == s[a..b] + s[b..c]
  {
  }

  lemma SplitEqual(a: seq<Byte>, b: seq<Byte>, c: seq<Byte>, d: seq<Byte>)
    requires |a| == |c|
    ensures a + b == c + d <==> a == c && b == d
  {
    if a + b == c + d {
      assert a == (a + b)[..|a|] && c == (c + d)[..|a|];
      assert b == (a + b)[|a|..] && d == (c + d)[|a|..];
    }
  }

  lemma EachOwnSector(disk: seq<Byte>, ch: seq<Cluster>)
    requires |ch| <= 128
    ensures forall k :: 0 <= k < |ch| ==> SameSector(disk, ch, k)
  {
  }

  /** The front of the loader, up to 128 sectors, is in memory in order exactly when
      every sector that overwrote one of them has its bytes; up to 128 sectors that is
      the whole loader, always. */
  lemma SegmentInOrder(mem: seq<Byte>, disk: seq<Byte>, ch: seq<Cluster>)
    requires |mem| >= LOADER_BASE + 0x1_0000 && |disk| >= FD_SIZE
    requires Loaded(mem, disk, ch, |ch|) && forall t :: 0 <= t < |ch| ==> 2 <= ch[t] < 2849
    ensures var m := Min(|ch|, 128);
      (mem[LOADER_BASE..LOADER_BASE + 512 * m] == Clusters(disk, ch[..m]))
      <==> (forall k :: 0 <= k < m ==> SameSector(disk, ch, k))
    ensures |ch| <= 128 ==> mem[LOADER_BASE..LOADER_BASE + 512 * |ch|] == Clusters(disk, ch)
  {
    hide SectorAt;
    hide Loaded;
    hide Clusters;
    hide SameSector;
    SegmentUpTo(mem, disk, ch, Min(|ch|, 128));
    if |ch| <= 128 { EachOwnSector(disk, ch); }
    if |ch| <= 128 { assert ch[..|ch|] == ch; }
  }

  /** The start in memory is the loader's own first sector exactly when the loader has
      at most 128 sectors or the last one that wrapped to it has the same bytes. */
  lemma SegmentStart(mem: seq<Byte>, disk: seq<Byte>, ch: seq<Cluster>)
    requires Loaded(mem, disk, ch, |ch|) && ch != []
    ensures |mem| >= LOADER_BASE + 0x1_0000
    ensures var last := (|ch| - 1) / 128 * 128;
      (mem[LOADER_BASE..LOADER_BASE + 512] == SectorAt(disk, ClusterSector(ch[0])))
      <==> (|ch| <= 128 || SectorAt(disk, ClusterSector(ch[last])) == SectorAt(disk, ClusterSector(ch[0])))
  {
    hide SectorAt;
    SegmentSector(mem, disk, ch, 0);
  }
}
