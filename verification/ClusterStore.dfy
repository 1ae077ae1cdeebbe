/** The data area: writing a file's pieces into clusters and reading them back. */
module ClusterStore {
  import opened MachineTypes
  import opened ImageBytes
  import opened FatTable
  import opened Chains

  function ClusterAddress(c: nat): nat { ENTITY_ADDRESS + c * CLUSTER_BYTES }

  /** The image after successive 512-byte pieces of data go to the clusters of ch. */
  function Store(img: seq<Byte>, ch: seq<Cluster>, data: seq<Byte>): seq<Byte>
    decreases |ch|
  {
    if ch == [] then img
    else
      var n := Min(|data|, CLUSTER_BYTES);
      Store(WriteAt(img, ClusterAddress(ch[0]), data[..n]), ch[1..], data[n..])
  }

  lemma StoreStep(img: seq<Byte>, ch: seq<Cluster>, j: nat, data: seq<Byte>, n: nat)
    requires j < |ch| && n == Min(|data|, CLUSTER_BYTES)
    ensures Store(img, ch[j..], data)
         == Store(WriteAt(img, ClusterAddress(ch[j]), data[..n]), ch[j + 1..], data[n..])
  {
    assert ch[j..][1..] == ch[j + 1..];
  }

  /** The bytes read from the clusters of ch, size bytes in all. */
  function ReadPieces(img: seq<Byte>, ch: seq<Cluster>, size: nat): seq<Byte>
    decreases |ch|
  {
    if ch == [] then []
    else
      var n := Min(size, CLUSTER_BYTES);
      ReadAt(img, ClusterAddress(ch[0]), n) + ReadPieces(img, ch[1..], size - n)
  }

  /** Every piece of a file of this size lies inside the image. */
  ghost predicate Held(img: seq<Byte>, ch: seq<Cluster>, size: nat) {
    forall t :: 0 <= t < |ch| && t * CLUSTER_BYTES < size
      ==> ClusterAddress(ch[t]) + Min(size - t * CLUSTER_BYTES, CLUSTER_BYTES) <= |img|
  }

  /** Bytes outside the clusters written stay. */
  lemma {:induction false} StoreFrame(img: seq<Byte>, ch: seq<Cluster>, data: seq<Byte>, at: nat, n: nat)
    requires at + n <= |img|
    requires forall t :: 0 <= t < |ch| ==> at + n <= ClusterAddress(ch[t]) || ClusterAddress(ch[t]) + CLUSTER_BYTES <= at
    ensures |Store(img, ch, data)| >= |img|
    ensures ReadAt(Store(img, ch, data), at, n) == ReadAt(img, at, n)
    decreases |ch|
  {
    if ch != [] {
      var p := Min(|data|, CLUSTER_BYTES);
      WriteAtPointwise(img, ClusterAddress(ch[0]), data[..p]);
      ReadElsewhere(img, ClusterAddress(ch[0]), data[..p], at, n);
      StoreFrame(WriteAt(img, ClusterAddress(ch[0]), data[..p]), ch[1..], data[p..], at, n);
    }
  }

  lemma HeldCons(img: seq<Byte>, ch: seq<Cluster>, size: nat)
    requires ch != []
    requires ClusterAddress(ch[0]) + Min(size, CLUSTER_BYTES) <= |img|
    requires Held(img, ch[1..], size - Min(size, CLUSTER_BYTES))
    ensures Held(img, ch, size)
  {
    forall t | 0 <= t < |ch| && t * CLUSTER_BYTES < size
      ensures ClusterAddress(ch[t]) + Min(size - t * CLUSTER_BYTES, CLUSTER_BYTES) <= |img|
    {
      if t > 0 { assert ch[t] == ch[1..][t - 1]; }
    }
  }

  lemma DistinctTail(ch: seq<Cluster>)
    requires Distinct(ch) && ch != []
    ensures Distinct(ch[1..]) && forall t :: 0 <= t < |ch| - 1 ==> ch[1..][t] != ch[0]
  {
    forall a, b | 0 <= a < b < |ch| - 1
      ensures ch[1..][a] != ch[1..][b]
    {
      assert ch[a + 1] != ch[b + 1];
    }
    forall t | 0 <= t < |ch| - 1
      ensures ch[1..][t] != ch[0]
    {
      assert ch[0] != ch[t + 1];
    }
  }

  /** The piece stored first survives the pieces stored after it. */
  lemma FirstPieceStays(img: seq<Byte>, ch: seq<Cluster>, data: seq<Byte>)
    requires Distinct(ch) && ch != []
    ensures ReadAt(Store(img, ch, data), ClusterAddress(ch[0]), Min(|data|, CLUSTER_BYTES))
         == data[..Min(|data|, CLUSTER_BYTES)]
    ensures |Store(img, ch, data)| >= |img|
    ensures data != [] ==> ClusterAddress(ch[0]) + Min(|data|, CLUSTER_BYTES) <= |Store(img, ch, data)|
  {
    var p, at := Min(|data|, CLUSTER_BYTES), ClusterAddress(ch[0]);
    var one := WriteAt(img, at, data[..p]);
    WriteAtPointwise(img, at, data[..p]);
    ReadBack(img, at, data[..p]);
    DistinctTail(ch);
    if p > 0 {
      StoreFrame(one, ch[1..], data[p..], at, p);
    } else {
      StoreFrame(one, ch[1..], data[p..], 0, 0);
    }
  }

  lemma ClusterCountStep(size: nat)
    ensures ClusterCount(size) > 0 <==> size > 0
    ensures size > 0 ==> ClusterCount(size - Min(size, CLUSTER_BYTES)) == ClusterCount(size) - 1
  {
  }

  lemma PiecesCons(img: seq<Byte>, ch: seq<Cluster>, size: nat)
    requires ch != []
    ensures var p := Min(size, CLUSTER_BYTES);
      ReadPieces(img, ch, size) == ReadAt(img, ClusterAddress(ch[0]), p) + ReadPieces(img, ch[1..], size - p)
  {
  }

  /** A file stored in distinct clusters is held and read back whole. */
  lemma {:induction false} ReadStored(img: seq<Byte>, ch: seq<Cluster>, data: seq<Byte>)
    requires Distinct(ch) && |ch| == ClusterCount(|data|)
    ensures ReadPieces(Store(img, ch, data), ch, |data|) == data
    ensures Held(Store(img, ch, data), ch, |data|)
    decreases |ch|
  {
    if ch == [] {
      assert data == [];
    } else {
      var p, full := Min(|data|, CLUSTER_BYTES), Store(img, ch, data);
      ClusterCountStep(|data|);
      hide Store;
      hide Distinct;
      hide Held;
      hide WriteAt;
      hide ReadAt;
      hide ReadPieces;
      hide ClusterCount;
      hide ClusterAddress;
      var one := WriteAt(img, ClusterAddress(ch[0]), data[..p]);
      assert ch[0..] == ch;
      StoreStep(img, ch, 0, data, p);
      DistinctTail(ch);
      FirstPieceStays(img, ch, data);
      ReadStored(one, ch[1..], data[p..]);
      StoredJoin(full, ch, data);
    }
  }

  /** A piece stored and the rest stored are the file stored. */
  lemma StoredJoin(full: seq<Byte>, ch: seq<Cluster>, data: seq<Byte>)
    requires var p := Min(|data|, CLUSTER_BYTES);
      && ch != [] && ClusterAddress(ch[0]) + p <= |full|
      && ReadAt(full, ClusterAddress(ch[0]), p) == data[..p]
      && ReadPieces(full, ch[1..], |data| - p) == data[p..] && Held(full, ch[1..], |data| - p)
    ensures ReadPieces(full, ch, |data|) == data && Held(full, ch, |data|)
  {
    hide ReadPieces;
    hide Held;
    hide ReadAt;
    hide ClusterAddress;
    PiecesCons(full, ch, |data|);
    HeldCons(full, ch, |data|);
    FrontAndRest(data, Min(|data|, CLUSTER_BYTES));
  }

  lemma FrontAndRest(data: seq<Byte>, p: nat)
    requires p <= |data|
    ensures data[..p] + data[p..] == data
  {
  }

  /** A file whose pieces are all held keeps its bytes if its clusters keep theirs. */
  lemma {:induction false} ReadPiecesSame(img: seq<Byte>, img': seq<Byte>, ch: seq<Cluster>, size: nat)
    requires forall t :: 0 <= t < |ch| && t * CLUSTER_BYTES < size ==>
               var n := Min(size - t * CLUSTER_BYTES, CLUSTER_BYTES);
               ReadAt(img', ClusterAddress(ch[t]), n) == ReadAt(img, ClusterAddress(ch[t]), n)
    ensures ReadPieces(img', ch, size) == ReadPieces(img, ch, size)
    decreases |ch|
  {
    if ch != [] {
      var n := Min(size, CLUSTER_BYTES);
      if n == 0 {
      } else {
        assert ReadAt(img', ClusterAddress(ch[0]), n) == ReadAt(img, ClusterAddress(ch[0]), n) by {
          assert 0 * CLUSTER_BYTES < size;
        }
      }
      forall t | 0 <= t < |ch| - 1 && t * CLUSTER_BYTES < size - n
        ensures var k := Min(size - n - t * CLUSTER_BYTES, CLUSTER_BYTES);
                ReadAt(img', ClusterAddress(ch[1..][t]), k) == ReadAt(img, ClusterAddress(ch[1..][t]), k)
      {
        assert ch[1..][t] == ch[t + 1];
        assert (t + 1) * CLUSTER_BYTES < size;
      }
      ReadPiecesSame(img, img', ch[1..], size - n);
    }
  }

  /** A held file has its full length. */
  lemma {:induction false} ReadPiecesLength(img: seq<Byte>, ch: seq<Cluster>, size: nat)
    requires Held(img, ch, size) && |ch| == ClusterCount(size)
    ensures |ReadPieces(img, ch, size)| == size
    decreases |ch|
  {
    if ch != [] {
      var n := Min(size, CLUSTER_BYTES);
      assert 0 * CLUSTER_BYTES < size;
      forall t | 0 <= t < |ch| - 1 && t * CLUSTER_BYTES < size - n
        ensures ClusterAddress(ch[1..][t]) + Min(size - n - t * CLUSTER_BYTES, CLUSTER_BYTES) <= |img|
      {
        assert ch[1..][t] == ch[t + 1];
        assert (t + 1) * CLUSTER_BYTES < size;
      }
      ReadPiecesLength(img, ch[1..], size - n);
    }
  }

  // ---------- the read loop ----------

  /** What the read loop returns from cluster c for size bytes; None where a
      link leaves the table and the lookup raises. */
  function LoadFrom(img: seq<Byte>, fat: Table, c: nat, size: nat): Option<seq<Byte>>
    decreases size
  {
    if size == 0 then Some([])
    else if c >= FAT_ENTRIES then None
    else
      var n := Min(size, CLUSTER_BYTES);
      var rest := LoadFrom(img, fat, fat[c], size - n);
      if rest.None? then None else Some(ReadAt(img, ClusterAddress(c), n) + rest.value)
  }

  /** The loop ends when nothing is left to read, raises on a cluster that is no index of
      the table, even for its last piece, and follows every other link. */
  lemma LoadStops(img: seq<Byte>, fat: Table, c: nat, size: nat)
    ensures size == 0 ==> LoadFrom(img, fat, c, size) == Some([])
    ensures size > 0 && c >= 3072 ==> LoadFrom(img, fat, c, size) == None
    ensures 0 < size <= 512 && c < 3072 ==> LoadFrom(img, fat, c, size) == Some(ReadAt(img, 0x3E00 + 512 * c, size))
    ensures size > 512 && c < 3072 ==>
      var rest := LoadFrom(img, fat, fat[c], size - 512);
      LoadFrom(img, fat, c, size) == if rest == None then None else Some(ReadAt(img, 0x3E00 + 512 * c, 512) + rest.value)
  {
    if 0 < size <= 512 && c < 3072 {
      var piece := ReadAt(img, 0x3E00 + 512 * c, size);
      assert LoadFrom(img, fat, fat[c], 0) == Some([]);
      assert piece + [] == piece;
    }
  }

  /** Along a chain of the right length the loop reads that chain's pieces. */
  lemma {:induction false} LoadAlongChain(img: seq<Byte>, fat: Table, c: nat, size: nat)
    requires |Chain(fat, c, ClusterCount(size))| == ClusterCount(size)
    ensures LoadFrom(img, fat, c, size) == Some(ReadPieces(img, Chain(fat, c, ClusterCount(size)), size))
    decreases size
  {
    if size > 0 {
      var n, k := Min(size, CLUSTER_BYTES), ClusterCount(size);
      assert ClusterCount(size - n) == k - 1;
      var ch := Chain(fat, c, k);
      assert ch[0] == c && ch[1..] == Chain(fat, fat[c], k - 1);
      LoadAlongChain(img, fat, fat[c], size - n);
      assert ReadPieces(img, ch, size) == ReadAt(img, ClusterAddress(c), n) + ReadPieces(img, ch[1..], size - n);
    }
  }
}
