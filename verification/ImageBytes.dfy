/** The disk image as a file of bytes: positioned reads and writes, little-endian
    fields, and the constants of the 1.44 MB FAT12 layout. */
module ImageBytes {
  import opened MachineTypes

  const FD_SIZE: nat := 1474560
  const FAT1_ADDRESS: nat := 0x0200
  const FAT_BYTES: nat := 0x1200
  const FAT2_ADDRESS: nat := 0x1400
  const DIR_ADDRESS: nat := 0x2600
  const ENTITY_ADDRESS: nat := 0x3e00
  const FILEINFO_BYTES: nat := 32
  const FILE_COUNT: nat := 224
  const CLUSTER_BYTES: nat := 512
  const FILE_NORMAL: Byte := 0x20

  function Min(a: nat, b: nat): nat { if a < b then a else b }

  function Zeros(n: nat): (r: seq<Byte>)
    ensures |r| == n
  {
    seq(n, _ => 0)
  }

  /** seek(off); read(n): short at the end of the file. */
  function ReadAt(img: seq<Byte>, off: nat, n: nat): seq<Byte> {
    if off >= |img| then [] else img[off..Min(off + n, |img|)]
  }

  /** seek(off); write(data): a write past the end fills the hole with zeros. */
  function WriteAt(img: seq<Byte>, off: nat, data: seq<Byte>): seq<Byte> {
    if data == [] then img
    else
      var base := if off > |img| then img + Zeros(off - |img|) else img;
      base[..off] + data + (if off + |data| < |base| then base[off + |data|..] else [])
  }

  lemma WriteAtPointwise(img: seq<Byte>, off: nat, data: seq<Byte>)
    ensures |WriteAt(img, off, data)| >= |img|
    ensures data != [] ==> |WriteAt(img, off, data)| >= off + |data|
    ensures |img| >= off + |data| ==> |WriteAt(img, off, data)| == |img|
    ensures forall k :: off <= k < off + |data| ==> WriteAt(img, off, data)[k] == data[k - off]
    ensures forall k :: 0 <= k < |img| && !(off <= k < off + |data|) ==> WriteAt(img, off, data)[k] == img[k]
  {
  }

  /** A write behind the end fills the hole with zeros and ends the file. */
  lemma WriteBehindEnd(img: seq<Byte>, off: nat, data: seq<Byte>)
    requires |img| <= off && data != []
    ensures |WriteAt(img, off, data)| == off + |data|
    ensures forall k :: |img| <= k < off ==> WriteAt(img, off, data)[k] == 0
  {
  }

  /** A read gives the bytes from off on, as many as there are up to n. */
  lemma ReadAtPointwise(img: seq<Byte>, off: nat, n: nat)
    ensures |ReadAt(img, off, n)| == (if off + n <= |img| then n else if off <= |img| then |img| - off else 0)
    ensures forall k :: 0 <= k < |ReadAt(img, off, n)| ==> off + k < |img| && ReadAt(img, off, n)[k] == img[off + k]
  {
  }

  /** What was written is read back. */
  lemma ReadBack(img: seq<Byte>, off: nat, data: seq<Byte>)
    ensures ReadAt(WriteAt(img, off, data), off, |data|) == data
  {
    WriteAtPointwise(img, off, data);
    if data != [] {
      assert WriteAt(img, off, data)[off..off + |data|] == data;
    }
  }

  /** A read that lies in the file and misses the written range is unchanged. */
  lemma ReadElsewhere(img: seq<Byte>, off: nat, data: seq<Byte>, at: nat, n: nat)
    requires at + n <= |img|
    requires at + n <= off || off + |data| <= at
    ensures ReadAt(WriteAt(img, off, data), at, n) == ReadAt(img, at, n)
  {
    WriteAtPointwise(img, off, data);
    var w := WriteAt(img, off, data);
    if at < |img| {
      assert w[at..at + n] == img[at..at + n];
    } else if at < |w| {
      assert w[at..at] == [];
    }
  }

  function Le16(b0: Byte, b1: Byte): Word { b0 + b1 * 0x100 }

  function Le32(b0: Byte, b1: Byte, b2: Byte, b3: Byte): Dword {
    b0 + b1 * 0x100 + b2 * 0x1_0000 + b3 * 0x100_0000
  }

  function Put16(w: Word): seq<Byte> { [w % 0x100, w / 0x100] }

  function Put32(d: Dword): seq<Byte> {
    [d % 0x100, d / 0x100 % 0x100, d / 0x1_0000 % 0x100, d / 0x100_0000]
  }

  /** The image file; only its bytes change. */
  class ImageFile {
    var bytes: seq<Byte>

    constructor (initial: seq<Byte>)
      ensures bytes == initial
    {
      bytes := initial;
    }

    method Read(off: nat, n: nat) returns (data: seq<Byte>)
      ensures data == ReadAt(bytes, off, n)
    {
      data := ReadAt(bytes, off, n);
    }

    method Write(off: nat, data: seq<Byte>)
      modifies this
      ensures bytes == WriteAt(old(bytes), off, data)
    {
      bytes := WriteAt(bytes, off, data);
    }
  }
}
