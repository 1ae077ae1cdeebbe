/** Cluster chains in the decoded table: the free list, building a chain out of
    it, following a chain and freeing one. */
module Chains {
  import opened ImageBytes
  import opened FatTable

  type Table = f: seq<Entry> | |f| == FAT_ENTRIES witness seq(FAT_ENTRIES, _ => 0)
  type Cluster = c: int | 0 <= c < FAT_ENTRIES

  function ClusterCount(size: nat): nat { (size + CLUSTER_BYTES - 1) / CLUSTER_BYTES }

  /** A file takes as many clusters of 512 bytes as its bytes need. */
  lemma CountBounds(size: nat)
    ensures ClusterCount(size) == 0 <==> size == 0
    ensures size > 0 ==> 512 * (ClusterCount(size) - 1) < size <= 512 * ClusterCount(size)
  {
  }

  ghost predicate Ascending(s: seq<Cluster>) { forall a, b :: 0 <= a < b < |s| ==> s[a] < s[b] }

  ghost predicate Distinct(s: seq<Cluster>) { forall a, b :: 0 <= a < b < |s| ==> s[a] != s[b] }

  // ---------- free clusters ----------

  /** The free clusters from start up, in ascending order. */
  function FreeFrom(fat: Table, start: nat): seq<Cluster>
    decreases |fat| - start
  {
    if start >= FAT_ENTRIES then []
    else if fat[start] == 0 then [start] + FreeFrom(fat, start + 1)
    else FreeFrom(fat, start + 1)
  }

  lemma {:induction false} FreeFromAscending(fat: Table, start: nat)
    ensures forall t :: 0 <= t < |FreeFrom(fat, start)| ==> start <= FreeFrom(fat, start)[t]
    ensures forall t :: 0 <= t < |FreeFrom(fat, start)| ==> fat[FreeFrom(fat, start)[t]] == 0
    ensures Ascending(FreeFrom(fat, start))
    decreases |fat| - start
  {
    if start < FAT_ENTRIES {
      FreeFromAscending(fat, start + 1);
    }
  }

  lemma {:induction false} FreeFromHasAll(fat: Table, start: nat, c: Cluster)
    requires start <= c && fat[c] == 0
    ensures c in FreeFrom(fat, start)
    decreases |fat| - start
  {
    if start < c {
      FreeFromHasAll(fat, start + 1, c);
    }
  }

  lemma {:induction false} FreeFromSuffix(fat: Table, fat': Table, start: nat)
    requires forall c :: start <= c < FAT_ENTRIES ==> fat[c] == fat'[c]
    ensures FreeFrom(fat, start) == FreeFrom(fat', start)
    decreases |fat| - start
  {
    if start < FAT_ENTRIES {
      FreeFromSuffix(fat, fat', start + 1);
    }
  }

  /** The free list beyond its element j starts right after that element. */
  lemma {:induction false} FreeFromTail(fat: Table, start: nat, j: nat)
    requires j < |FreeFrom(fat, start)|
    ensures var c: int := FreeFrom(fat, start)[j]; FreeFrom(fat, c + 1) == FreeFrom(fat, start)[j + 1..]
    decreases |fat| - start
  {
    if fat[start] == 0 {
      if j > 0 { FreeFromTail(fat, start + 1, j - 1); }
    } else {
      FreeFromTail(fat, start + 1, j);
    }
  }

  // ---------- following a chain ----------

  /** The first n clusters met from c, cut off where a link leaves the table. */
  function Chain(fat: Table, c: nat, n: nat): (ch: seq<Cluster>)
    ensures |ch| <= n
    decreases n
  {
    if n == 0 || c >= FAT_ENTRIES then [] else [c] + Chain(fat, fat[c], n - 1)
  }

  /** ch is a complete chain: data clusters, each linking to the next, the last
      one marked 0xFFF. */
  ghost predicate Complete(fat: Table, ch: seq<Cluster>) {
    && (forall t :: 0 <= t < |ch| ==> 2 <= ch[t])
    && (forall t :: 0 <= t < |ch| - 1 ==> fat[ch[t]] == ch[t + 1])
    && (ch != [] ==> fat[ch[|ch| - 1]] == END_OF_CHAIN)
  }

  /** A chain whose cells hold the same links is met again. */
  lemma {:induction false} ChainStable(fat: Table, fat': Table, c: nat, n: nat)
    requires forall t :: 0 <= t < |Chain(fat, c, n)| ==> fat'[Chain(fat, c, n)[t]] == fat[Chain(fat, c, n)[t]]
    ensures Chain(fat', c, n) == Chain(fat, c, n)
    decreases n
  {
    if n > 0 && c < FAT_ENTRIES {
      var ch, rest := Chain(fat, c, n), Chain(fat, fat[c], n - 1);
      assert ch[0] == c;
      assert forall t :: 0 <= t < |rest| ==> rest[t] == ch[t + 1];
      ChainStable(fat, fat', fat[c], n - 1);
    }
  }

  lemma CompleteTail(fat: Table, ch: seq<Cluster>)
    requires |ch| > 1 && Complete(fat, ch)
    ensures Complete(fat, ch[1..]) && fat[ch[0]] == ch[1]
  {
    assert fat[ch[0]] == ch[0 + 1];
    assert forall t :: 0 <= t < |ch| - 1 ==> ch[1..][t] == ch[t + 1];
  }

  lemma {:induction false} ChainOfComplete(fat: Table, ch: seq<Cluster>)
    requires |ch| > 0 && Complete(fat, ch)
    ensures Chain(fat, ch[0], |ch|) == ch
    decreases |ch|
  {
    if |ch| > 1 {
      CompleteTail(fat, ch);
      ChainOfComplete(fat, ch[1..]);
    }
    assert ch == [ch[0]] + ch[1..];
  }

  // ---------- building a chain ----------

  /** The links the write loop has made after visiting the clusters of ch. */
  function LinkOpen(fat: Table, ch: seq<Cluster>): Table {
    if |ch| < 2 then fat
    else LinkOpen(fat, ch[..|ch| - 1])[ch[|ch| - 2] := ch[|ch| - 1]]
  }

  /** The links once the last cluster carries the end mark. */
  function Link(fat: Table, ch: seq<Cluster>): Table {
    if ch == [] then fat else LinkOpen(fat, ch)[ch[|ch| - 1] := END_OF_CHAIN]
  }

  lemma {:induction false} LinkOpenEffect(fat: Table, ch: seq<Cluster>)
    requires Ascending(ch)
    ensures forall t :: 0 <= t < |ch| - 1 ==> LinkOpen(fat, ch)[ch[t]] == ch[t + 1]
    ensures forall c: Cluster :: c !in ch ==> LinkOpen(fat, ch)[c] == fat[c]
    ensures forall c: Cluster :: |ch| > 0 && ch[|ch| - 1] <= c ==> LinkOpen(fat, ch)[c] == fat[c]
    decreases |ch|
  {
    if |ch| >= 2 {
      LinkOpenEffect(fat, ch[..|ch| - 1]);
    }
  }

  /** Linking ascending data clusters makes a complete chain and touches no
      other cell. */
  lemma LinkEffect(fat: Table, ch: seq<Cluster>)
    requires Ascending(ch) && forall t :: 0 <= t < |ch| ==> 2 <= ch[t]
    ensures Complete(Link(fat, ch), ch)
    ensures forall c: Cluster :: c !in ch ==> Link(fat, ch)[c] == fat[c]
  {
    LinkOpenEffect(fat, ch);
  }

  // ---------- freeing a chain ----------

  /** What the freeing loop leaves, and whether it ran without an index error. */
  function FreeChain(fat: Table, c: nat, n: nat): (bool, Table)
    decreases n
  {
    if n == 0 then (true, fat)
    else if c >= FAT_ENTRIES then (false, fat)
    else if fat[c] >= 0xFF8 then (true, fat[c := 0])
    else FreeChain(fat[c := 0], fat[c], n - 1)
  }

  /** The loop stops behind an entry of 0xFF8 or more and leaves the table where a link is
      no index; any other entry is followed, and it ends after n of them. */
  lemma FreeChainStops(fat: Table, c: nat, n: nat)
    requires n > 0
    ensures c >= 3072 ==> FreeChain(fat, c, n) == (false, fat)
    ensures c < 3072 && fat[c] >= 0xFF8 ==> FreeChain(fat, c, n) == (true, fat[c := 0])
    ensures c < 3072 && fat[c] < 0xFF8 ==>
              FreeChain(fat, c, n) == (if n == 1 then (true, fat[c := 0]) else FreeChain(fat[c := 0], fat[c], n - 1))
  {
  }

  /** Zeroing the cells of a list of clusters. */
  function Cleared(fat: Table, ch: seq<Cluster>): Table {
    seq(FAT_ENTRIES, c requires 0 <= c < FAT_ENTRIES => if c in ch then 0 else fat[c])
  }

  /** On a complete chain the freeing loop zeroes exactly that chain. */
  lemma {:induction false} FreeChainEffect(fat: Table, ch: seq<Cluster>)
    requires |ch| > 0 && Complete(fat, ch) && Distinct(ch)
    ensures FreeChain(fat, ch[0], |ch|) == (true, Cleared(fat, ch))
    decreases |ch|
  {
    var one := fat[ch[0] := 0];
    assert ch == [ch[0]] + ch[1..];
    if |ch| == 1 {
      assert one == Cleared(fat, ch);
    } else {
      CompleteTail(fat, ch);
      FreeChainStops(fat, ch[0], |ch|);
      assert forall t :: 0 <= t < |ch| - 1 ==> ch[1..][t] == ch[t + 1];
      ClearedRest(fat, ch);
      assert fat[ch[0]] == ch[1] < 0xFF8 && Distinct(ch[1..]) && Complete(one, ch[1..]);
      hide FreeChain;
      hide Complete;
      hide Cleared;
      FreeChainEffect(one, ch[1..]);
    }
  }

  lemma ClearedRest(fat: Table, ch: seq<Cluster>)
    requires ch != []
    ensures Cleared(fat[ch[0] := 0], ch[1..]) == Cleared(fat, ch)
  {
    assert ch == [ch[0]] + ch[1..];
  }
}
