/** What both boot stages share: the LBA-to-CHS arithmetic of their sector reads and
    the second decoding of the table. */
module BootDisk {
  import opened MachineTypes
  import opened ImageBytes
  import opened FatTable
  import opened Chains

  const ROOT_DIR_SECTORS: Word := 14
  const ROOT_DIR_START_SECTORS: Word := 19
  const FAT1_START_SECTORS: Word := 1
  const SECTOR_BALANCE: Word := 17
  const BYTES_PER_SECTOR: Word := 512
  const SECTORS_PER_TRACK: nat := 18
  const HEADS: nat := 2
  const DISK_SECTORS: nat := 2880

  // ---------- geometry ----------

  datatype Chs = Chs(cylinder: nat, head: nat, sector: nat)

  /** The registers int 13h is given for a sector number: one byte division by
      the track length, then the quotient split into head bit and cylinder. */
  function ToChs(lba: nat): Chs {
    var al, ah := lba / SECTORS_PER_TRACK, lba % SECTORS_PER_TRACK;
    Chs(al / 2, al % 2, ah + 1)
  }

  /** The sector the drive serves at a position of the disk. */
  function ToLba(p: Chs): nat
    requires p.sector >= 1
  {
    (p.cylinder * HEADS + p.head) * SECTORS_PER_TRACK + p.sector - 1
  }

  /** The conversion loses nothing and stays on the disk. */
  lemma ChsInvertible(lba: nat)
    ensures ToLba(ToChs(lba)) == lba
    ensures ToChs(lba).head < HEADS && 1 <= ToChs(lba).sector <= SECTORS_PER_TRACK
    ensures lba < DISK_SECTORS ==> ToChs(lba).cylinder < 80
  {
  }

  lemma ChsReaches(p: Chs)
    requires p.head < HEADS && 1 <= p.sector <= SECTORS_PER_TRACK
    ensures ToChs(ToLba(p)) == p
  {
    var t := p.cylinder * HEADS + p.head;
    assert ToLba(p) == t * SECTORS_PER_TRACK + (p.sector - 1);
    assert ToLba(p) / SECTORS_PER_TRACK == t && ToLba(p) % SECTORS_PER_TRACK == p.sector - 1;
  }

  function SectorAt(disk: seq<Byte>, lba: nat): seq<Byte> { ReadAt(disk, BYTES_PER_SECTOR * lba, BYTES_PER_SECTOR) }

  // ---------- the machine ----------

  /** Memory keeps its size and differs at most from lo up to hi. */
  ghost predicate SameOutside(before: seq<Byte>, after: seq<Byte>, lo: nat, hi: nat) {
    |after| == |before| && forall a :: 0 <= a < |before| && !(lo <= a < hi) ==> after[a] == before[a]
  }

  /** What a read into a buffer leaves. */
  lemma BufferFilled(before: seq<Byte>, buffer: nat, data: seq<Byte>)
    requires buffer + |data| <= |before|
    ensures SameOutside(before, WriteAt(before, buffer, data), buffer, buffer + |data|)
    ensures WriteAt(before, buffer, data)[buffer..buffer + |data|] == data
  {
    WriteAtPointwise(before, buffer, data);
  }

  /** Low memory and the floppy in drive 0. */
  class Machine {
    const mem: array<Byte>
    const disk: seq<Byte>

    constructor (memory: array<Byte>, floppy: seq<Byte>)
      requires |floppy| >= FD_SIZE && memory.Length >= 0x10_0000
      ensures mem == memory && disk == floppy && Ready()
    {
      mem := memory;
      disk := floppy;
    }

    predicate Ready() { |disk| >= FD_SIZE && mem.Length >= 0x10_0000 }

    /** int 13h, function 2: count sectors of one track to a buffer. */
    method ServeRead(at: Chs, count: nat, buffer: nat)
      requires Ready() && at.head < HEADS && 1 <= at.sector && at.sector - 1 + count <= SECTORS_PER_TRACK
      requires ToLba(at) + count <= DISK_SECTORS && buffer + 512 * count <= mem.Length
      modifies mem
      ensures mem[..] == WriteAt(old(mem[..]), buffer, ReadAt(disk, 512 * ToLba(at), 512 * count))
    {
      var from := 512 * ToLba(at);
      forall i | 0 <= i < 512 * count {
        mem[buffer + i] := disk[from + i];
      }
      ghost var data := ReadAt(disk, from, 512 * count);
      if count > 0 {
        assert data == disk[from..from + 512 * count];
        WriteAtPointwise(old(mem[..]), buffer, data);
      }
    }

    /** Func_ReadOneSector and ReadOneSectorFunction: ax is the sector, cl the count. */
    method ReadOneSector(ax: Word, cl: Byte, buffer: nat)
      requires Ready() && ax + cl <= DISK_SECTORS && ax % SECTORS_PER_TRACK + cl <= SECTORS_PER_TRACK
      requires buffer + 512 * cl <= mem.Length
      modifies mem
      ensures mem[..] == WriteAt(old(mem[..]), buffer, ReadAt(disk, 512 * ax, 512 * cl))
    {
      var al: Byte, ah: Byte := ax / SECTORS_PER_TRACK, ax % SECTORS_PER_TRACK;
      ah := ah + 1;
      var sector, dh := ah, al;
      al := al / 2;
      var ch := al;
      dh := dh % 2;
      ChsInvertible(ax);
      ServeRead(Chs(ch, dh, sector), cl, buffer);
    }

    /** Func_GetFATEntry and DecodeFAT, which differ in the buffer only: the entry
        at ax of the table on disk, found in two consecutive sectors. */
    method GetFATEntry(ax0: Word, buffer: nat) returns (ax: Word)
      requires Ready() && ax0 < 0x1000 && buffer + 1024 <= mem.Length
      modifies mem
      ensures ax == EntryAt(disk[FAT1_ADDRESS..], ax0)
      ensures SameOutside(old(mem[..]), mem[..], buffer, buffer + 1024)
    {
      hide ReadAt;
      hide WriteAt;
      hide SameOutside;
      hide EntryAt;
      hide Le16;
      ghost var before := mem[..];
      var product := ax0 * 3;
      ax := product / 2;
      var dx: Word := product % 2;
      var odd := dx != 0;
      dx := ax % BYTES_PER_SECTOR;
      ax := ax / BYTES_PER_SECTOR;
      var lba := ax + FAT1_START_SECTORS;
      EntryInSectors(disk, ax0, lba, dx);
      ReadOneSector(lba, 2, buffer);
      BufferFilled(before, buffer, ReadAt(disk, 512 * lba, 1024));
      var bx := buffer + dx;
      assert mem[bx] == mem[..][buffer..buffer + 1024][dx] && mem[bx + 1] == mem[..][buffer..buffer + 1024][dx + 1];
      ax := Le16(mem[bx], mem[bx + 1]);
      if odd { ax := ax / 16; }
      ax := ax % 0x1000;
    }
  }

  /** The two bytes at the entry's place in its two sectors decode to the entry. */
  lemma EntryInSectors(disk: seq<Byte>, n: Word, lba: nat, dx: nat)
    requires |disk| >= FD_SIZE && n < 0x1000 && lba == n * 3 / 2 / 512 + 1 && dx == n * 3 / 2 % 512
    ensures var data := ReadAt(disk, 512 * lba, 1024);
      |data| == 1024 && var w := Le16(data[dx], data[dx + 1]);
      EntryAt(disk[FAT1_ADDRESS..], n) == (if n * 3 % 2 != 0 then w / 16 else w) % 0x1000
  {
    TwoSectors(disk, lba, dx);
    assert 512 * (lba - 1) + dx == n + n / 2;
  }

  lemma TwoSectors(disk: seq<Byte>, lba: nat, dx: nat)
    requires |disk| >= FD_SIZE && 1 <= lba <= 12 && dx < 512
    ensures |ReadAt(disk, 512 * lba, 1024)| == 1024
    ensures ReadAt(disk, 512 * lba, 1024)[dx] == disk[FAT1_ADDRESS..][512 * (lba - 1) + dx]
    ensures ReadAt(disk, 512 * lba, 1024)[dx + 1] == disk[FAT1_ADDRESS..][512 * (lba - 1) + dx + 1]
  {
  }

  /** Within the table the boot decoders see exactly the tool's list. */
  lemma DecodersAgree(disk: seq<Byte>, n: Cluster)
    requires |disk| >= FD_SIZE
    ensures EntryAt(disk[FAT1_ADDRESS..], n) == FatOf(disk)[n]
  {
    var table := ReadAt(disk, FAT1_ADDRESS, FAT_BYTES);
    UnpackEntry(table, n);
    assert table[n + n / 2] == disk[FAT1_ADDRESS..][n + n / 2];
    assert table[n + n / 2 + 1] == disk[FAT1_ADDRESS..][n + n / 2 + 1];
  }
}
