/** The packed 12-bit table: its decoding into a list and its packing back
    (class Fat of the image tool), stated against the closed form of the
    FAT specification (fatgen103, "FAT Data Structure"). */
module FatTable {
  import opened MachineTypes
  import opened ImageBytes

  type Entry = e: int | 0 <= e < 0x1000

  const FAT_ENTRIES: nat := 3072
  const END_OF_CHAIN: Entry := 0xFFF

  /** Entry n of a packed table: the 16-bit little-endian word at byte n + n/2,
      its high 12 bits for odd n and its low 12 bits for even n. */
  function EntryAt(table: seq<Byte>, n: nat): Entry
    requires n + n / 2 + 1 < |table|
  {
    var word := Le16(table[n + n / 2], table[n + n / 2 + 1]);
    if n % 2 == 1 then word / 16 else word % 0x1000
  }

  /** The list the decoding loop builds, two entries for every three bytes. */
  function Unpack(table: seq<Byte>): (fat: seq<Entry>)
    requires |table| % 3 == 0
    ensures |fat| == |table| / 3 * 2
  {
    if table == [] then []
    else [FirstOf(table[0], table[1]), SecondOf(table[1], table[2])] + Unpack(table[3..])
  }

  function FirstOf(b0: Byte, b1: Byte): Entry {
    var high: int := b1 % 16;
    b0 + high * 256
  }

  function SecondOf(b1: Byte, b2: Byte): Entry {
    var high: int := b2;
    b1 / 16 + high * 16
  }

  /** The three bytes that two entries share. */
  function Triple(n1: Entry, n2: Entry): seq<Byte> {
    [n1 % 0x100, n2 % 0x10 * 0x10 + n1 / 0x100, n2 / 0x10]
  }

  function Pack(fat: seq<Entry>): (table: seq<Byte>)
    requires |fat| % 2 == 0
    ensures |table| == |fat| / 2 * 3
  {
    if fat == [] then [] else Triple(fat[0], fat[1]) + Pack(fat[2..])
  }

  lemma EntryShift(table: seq<Byte>, n: nat)
    requires n + n / 2 + 4 < |table|
    ensures EntryAt(table, n + 2) == EntryAt(table[3..], n)
  {
    assert (n + 2) / 2 == n / 2 + 1;
    assert (n + 2) % 2 == n % 2;
  }

  lemma EntriesOfTriple(table: seq<Byte>)
    requires |table| >= 3
    ensures EntryAt(table, 0) == FirstOf(table[0], table[1])
    ensures EntryAt(table, 1) == SecondOf(table[1], table[2])
  {
  }

  /** The decoded list holds at n what the closed form finds at n. */
  lemma {:induction false} UnpackEntry(table: seq<Byte>, n: nat)
    requires |table| % 3 == 0 && n < |Unpack(table)|
    ensures n + n / 2 + 1 < |table| && Unpack(table)[n] == EntryAt(table, n)
    decreases |table|
  {
    if n < 2 {
      EntriesOfTriple(table);
    } else {
      UnpackEntry(table[3..], n - 2);
      EntryShift(table, n - 2);
    }
  }

  lemma TripleRoundTrip(n1: Entry, n2: Entry)
    ensures var t := Triple(n1, n2); FirstOf(t[0], t[1]) == n1 && SecondOf(t[1], t[2]) == n2
  {
  }

  lemma BytesRoundTrip(b0: Byte, b1: Byte, b2: Byte)
    ensures Triple(FirstOf(b0, b1), SecondOf(b1, b2)) == [b0, b1, b2]
  {
  }

  /** Packing then decoding gives every list of 12-bit values back. */
  lemma {:induction false} UnpackPack(fat: seq<Entry>)
    requires |fat| % 2 == 0
    ensures Unpack(Pack(fat)) == fat
    decreases |fat|
  {
    if fat != [] {
      TripleRoundTrip(fat[0], fat[1]);
      UnpackPack(fat[2..]);
      assert Pack(fat)[3..] == Pack(fat[2..]);
      assert fat == [fat[0], fat[1]] + fat[2..];
    }
  }

  /** Decoding then packing gives every table of whole triples back. */
  lemma {:induction false} PackUnpack(table: seq<Byte>)
    requires |table| % 3 == 0
    ensures Pack(Unpack(table)) == table
    decreases |table|
  {
    if table != [] {
      BytesRoundTrip(table[0], table[1], table[2]);
      PackUnpack(table[3..]);
      assert Unpack(table)[2..] == Unpack(table[3..]);
      assert table == [table[0], table[1], table[2]] + table[3..];
    }
  }

  /** The table a reader of the image sees. */
  function FatOf(img: seq<Byte>): (fat: seq<Entry>)
    requires |img| >= FD_SIZE
    ensures |fat| == FAT_ENTRIES
  {
    Unpack(ReadAt(img, FAT1_ADDRESS, FAT_BYTES))
  }

  /** The image after both copies are written. */
  function WriteFat(img: seq<Byte>, fat: seq<Entry>): seq<Byte>
    requires |fat| == FAT_ENTRIES
  {
    WriteAt(WriteAt(img, FAT1_ADDRESS, Pack(fat)), FAT2_ADDRESS, Pack(fat))
  }

  /** After a write both copies are identical and decode to the list. */
  lemma WriteFatEffect(img: seq<Byte>, fat: seq<Entry>)
    requires |img| >= FD_SIZE && |fat| == FAT_ENTRIES
    ensures |WriteFat(img, fat)| == |img|
    ensures FatOf(WriteFat(img, fat)) == fat
    ensures ReadAt(WriteFat(img, fat), FAT1_ADDRESS, FAT_BYTES)
         == ReadAt(WriteFat(img, fat), FAT2_ADDRESS, FAT_BYTES)
  {
    var one := WriteAt(img, FAT1_ADDRESS, Pack(fat));
    WriteAtPointwise(img, FAT1_ADDRESS, Pack(fat));
    WriteAtPointwise(one, FAT2_ADDRESS, Pack(fat));
    ReadBack(img, FAT1_ADDRESS, Pack(fat));
    ReadElsewhere(one, FAT2_ADDRESS, Pack(fat), FAT1_ADDRESS, FAT_BYTES);
    ReadBack(one, FAT2_ADDRESS, Pack(fat));
    UnpackPack(fat);
  }

  /** Writing the table moves nothing behind it. */
  lemma WriteFatFrame(img: seq<Byte>, fat: seq<Entry>, at: nat, n: nat)
    requires |img| >= FD_SIZE && |fat| == FAT_ENTRIES
    requires DIR_ADDRESS <= at && at + n <= |img|
    ensures ReadAt(WriteFat(img, fat), at, n) == ReadAt(img, at, n)
  {
    WriteAtPointwise(img, FAT1_ADDRESS, Pack(fat));
    ReadElsewhere(img, FAT1_ADDRESS, Pack(fat), at, n);
    ReadElsewhere(WriteAt(img, FAT1_ADDRESS, Pack(fat)), FAT2_ADDRESS, Pack(fat), at, n);
  }
}
