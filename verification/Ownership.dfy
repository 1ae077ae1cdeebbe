/** Which clusters belong to which slot, and that saving and deleting keep every
    file's chain complete, all chains disjoint, and no cluster lost. */
module Ownership {
  import opened ImageBytes
  import opened FatTable
  import opened Chains
  import opened Directory

  // ---------- chains partition the used clusters ----------

  ghost predicate Covered(own: seq<seq<Cluster>>, c: Cluster) { exists i :: 0 <= i < |own| && c in own[i] }

  /** Complete chains without repetition, pairwise disjoint, that together hold
      every nonzero entry from index 2 up. */
  ghost predicate Partition(fat: Table, own: seq<seq<Cluster>>) {
    && fat[0] != 0 && fat[1] != 0
    && (forall i :: 0 <= i < |own| ==> Complete(fat, own[i]) && Distinct(own[i]))
    && (forall i, j, c :: 0 <= i < j < |own| && c in own[i] ==> c !in own[j])
    && (forall c: Cluster :: 2 <= c && fat[c] != 0 ==> Covered(own, c))
  }

  /** A cell on a complete chain is never free. */
  lemma OnChainIsUsed(fat: Table, ch: seq<Cluster>, c: Cluster)
    requires Complete(fat, ch) && c in ch
    ensures 2 <= c && fat[c] != 0
  {
    var t :| 0 <= t < |ch| && ch[t] == c;
    if t < |ch| - 1 {
      assert fat[ch[t]] == ch[t + 1] >= 2;
    }
  }

  lemma CompleteStays(fat: Table, fat': Table, ch: seq<Cluster>)
    requires Complete(fat, ch) && forall c :: c in ch ==> fat'[c] == fat[c]
    ensures Complete(fat', ch)
  {
    forall t | 0 <= t < |ch|
      ensures fat'[ch[t]] == fat[ch[t]]
    {
      assert ch[t] in ch;
    }
  }

  lemma CoveredAfter(own: seq<seq<Cluster>>, i: nat, ch: seq<Cluster>, c: Cluster)
    requires i < |own| && Covered(own, c) && (c in own[i] ==> c in ch)
    ensures Covered(own[i := ch], c)
  {
    var j :| 0 <= j < |own| && c in own[j];
    assert c in own[i := ch][j];
  }

  lemma FreeAscendingIsData(fat: Table, ch: seq<Cluster>)
    requires fat[0] != 0 && fat[1] != 0 && forall c :: c in ch ==> fat[c] == 0
    ensures forall t :: 0 <= t < |ch| ==> 2 <= ch[t]
  {
    forall t | 0 <= t < |ch|
      ensures 2 <= ch[t]
    {
      assert ch[t] in ch;
    }
  }

  lemma OwnedOffFree(fat: Table, own: seq<seq<Cluster>>, ch: seq<Cluster>, j: nat)
    requires Partition(fat, own) && j < |own| && forall c :: c in ch ==> fat[c] == 0
    ensures forall c :: c in own[j] ==> c !in ch
  {
    forall c | c in own[j]
      ensures c !in ch
    {
      OnChainIsUsed(fat, own[j], c);
    }
  }

  /** Giving free clusters, linked in ascending order, to an owner of none. */
  lemma PartitionGains(fat: Table, own: seq<seq<Cluster>>, i: nat, ch: seq<Cluster>)
    requires Partition(fat, own) && i < |own| && own[i] == []
    requires Ascending(ch) && forall c :: c in ch ==> fat[c] == 0
    ensures Partition(Link(fat, ch), own[i := ch])
    ensures forall j, c :: 0 <= j < |own| && c in own[j] ==> Link(fat, ch)[c] == fat[c]
  {
    var fat', own' := Link(fat, ch), own[i := ch];
    FreeAscendingIsData(fat, ch);
    LinkEffect(fat, ch);
    forall j | 0 <= j < |own|
      ensures forall c :: c in own[j] ==> c !in ch && fat'[c] == fat[c]
      ensures Complete(fat', own'[j]) && Distinct(own'[j])
    {
      OwnedOffFree(fat, own, ch, j);
      if j != i { CompleteStays(fat, fat', own[j]); }
    }
    forall c: Cluster | 2 <= c && fat'[c] != 0
      ensures Covered(own', c)
    {
      if c in ch {
        assert c in own'[i];
      } else {
        CoveredAfter(own, i, ch, c);
      }
    }
  }

  /** Zeroing one owner's clusters. */
  lemma PartitionLoses(fat: Table, own: seq<seq<Cluster>>, i: nat)
    requires Partition(fat, own) && i < |own|
    ensures Partition(Cleared(fat, own[i]), own[i := []])
    ensures forall j, c :: 0 <= j < |own| && j != i && c in own[j] ==> Cleared(fat, own[i])[c] == fat[c]
  {
    var fat', own' := Cleared(fat, own[i]), own[i := []];
    assert 0 !in own[i] && 1 !in own[i];
    forall j | 0 <= j < |own|
      ensures Complete(fat', own'[j]) && Distinct(own'[j])
    {
      if j != i { CompleteStays(fat, fat', own[j]); }
    }
    forall c: Cluster | 2 <= c && fat'[c] != 0
      ensures Covered(own', c)
    {
      CoveredAfter(own, i, [], c);
    }
  }

  // ---------- conservation ----------

  function TotalLength(own: seq<seq<Cluster>>): nat {
    if own == [] then 0 else TotalLength(own[..|own| - 1]) + |own[|own| - 1]|
  }

  function SetOf(s: seq<Cluster>): set<Cluster> { set c | c in s }

  function AllOwned(own: seq<seq<Cluster>>): set<Cluster> {
    if own == [] then {} else AllOwned(own[..|own| - 1]) + SetOf(own[|own| - 1])
  }

  function Indices(fat: seq<Entry>): (r: set<Cluster>)
    requires |fat| <= FAT_ENTRIES
    ensures |r| == |fat|
    ensures forall c: Cluster :: c in r <==> c < |fat|
  {
    if fat == [] then {} else Indices(fat[..|fat| - 1]) + {|fat| - 1}
  }

  lemma {:induction false} DistinctCardinality(s: seq<Cluster>)
    requires Distinct(s)
    ensures |SetOf(s)| == |s|
    decreases |s|
  {
    if s != [] {
      var front, last := s[..|s| - 1], s[|s| - 1];
      DistinctCardinality(front);
      assert SetOf(s) == SetOf(front) + {last};
      assert last !in front;
    }
  }

  lemma {:induction false} InAllOwned(own: seq<seq<Cluster>>, c: Cluster)
    ensures c in AllOwned(own) <==> exists i :: 0 <= i < |own| && c in own[i]
    decreases |own|
  {
    if own != [] {
      InAllOwned(own[..|own| - 1], c);
      if c in AllOwned(own[..|own| - 1]) {
        var i :| 0 <= i < |own| - 1 && c in own[..|own| - 1][i];
        assert c in own[i];
      } else if c in own[|own| - 1] {
      } else {
        assert forall i :: 0 <= i < |own| - 1 ==> own[..|own| - 1][i] == own[i];
      }
    }
  }

  lemma {:induction false} AllOwnedCardinality(own: seq<seq<Cluster>>)
    requires forall i :: 0 <= i < |own| ==> Distinct(own[i])
    requires forall i, j, c :: 0 <= i < j < |own| && c in own[i] ==> c !in own[j]
    ensures |AllOwned(own)| == TotalLength(own)
    decreases |own|
  {
    if own != [] {
      var front, last := own[..|own| - 1], own[|own| - 1];
      AllOwnedCardinality(front);
      DistinctCardinality(last);
      forall c | c in last
        ensures c !in AllOwned(front)
      {
        InAllOwned(front, c);
      }
      assert AllOwned(front) !! SetOf(last);
    }
  }

  lemma FreeOrOwned(fat: Table, own: seq<seq<Cluster>>, c: Cluster)
    requires Partition(fat, own)
    ensures c in FreeFrom(fat, 0) <==> fat[c] == 0
    ensures c in AllOwned(own) <==> 2 <= c && fat[c] != 0
  {
    FreeFromAscending(fat, 0);
    if fat[c] == 0 { FreeFromHasAll(fat, 0, c); }
    InAllOwned(own, c);
    if c in AllOwned(own) {
      var i :| 0 <= i < |own| && c in own[i];
      OnChainIsUsed(fat, own[i], c);
    }
  }

  lemma Complementary(fat: Table, free: set<Cluster>, used: set<Cluster>, all: set<Cluster>)
    requires fat[0] != 0 && fat[1] != 0
    requires forall c: Cluster :: c in free <==> fat[c] == 0
    requires forall c: Cluster :: c in used <==> 2 <= c && fat[c] != 0
    requires forall c: Cluster :: c in all
    ensures |free| + |used| == |all| - 2
  {
    assert free !! used;
    assert free + used == all - {0, 1};
  }

  /** No cluster leaks: the free clusters are all but those on a chain. */
  lemma PartitionCount(fat: Table, own: seq<seq<Cluster>>)
    requires Partition(fat, own)
    ensures |FreeFrom(fat, 0)| + TotalLength(own) == FAT_ENTRIES - 2
  {
    assert |SetOf(FreeFrom(fat, 0))| == |FreeFrom(fat, 0)| by {
      FreeFromAscending(fat, 0);
      DistinctCardinality(FreeFrom(fat, 0));
    }
    AllOwnedCardinality(own);
    forall c: Cluster
      ensures c in SetOf(FreeFrom(fat, 0)) <==> fat[c] == 0
      ensures c in AllOwned(own) <==> 2 <= c && fat[c] != 0
    {
      FreeOrOwned(fat, own, c);
    }
    Complementary(fat, SetOf(FreeFrom(fat, 0)), AllOwned(own), Indices(fat));
  }

  // ---------- slots as owners ----------

  /** The chain a slot heads; empty for a slot that is not live or an empty file. */
  function Owned(fat: Table, s: Slot): seq<Cluster> {
    if s.Live? then Chain(fat, s.info.cluster, ClusterCount(s.info.size)) else []
  }

  function Needed(s: Slot): nat { if s.Live? then ClusterCount(s.info.size) else 0 }

  function Owners(fat: Table, slots: Slots): seq<seq<Cluster>> {
    seq(FILE_COUNT, i requires 0 <= i < FILE_COUNT => Owned(fat, slots[i]))
  }

  /** The volume invariant: each live file heads a complete chain of exactly
      ceil(size / 512) clusters, and the chains partition the used clusters. */
  ghost predicate Consistent(fat: Table, slots: Slots) {
    && Partition(fat, Owners(fat, slots))
    && forall i :: 0 <= i < FILE_COUNT ==> |Owned(fat, slots[i])| == Needed(slots[i])
  }

  /** The clusters a save of k clusters takes: the first k free ones. */
  function Taken(fat: Table, k: nat): seq<Cluster>
    requires k <= |FreeFrom(fat, 0)|
  {
    FreeFrom(fat, 0)[..k]
  }

  lemma TakenIsFree(fat: Table, k: nat)
    requires k <= |FreeFrom(fat, 0)|
    ensures Ascending(Taken(fat, k)) && Distinct(Taken(fat, k))
    ensures forall c :: c in Taken(fat, k) ==> fat[c] == 0
  {
    FreeFromAscending(fat, 0);
  }

  lemma TakenIsData(fat: Table, k: nat)
    requires fat[0] != 0 && fat[1] != 0 && k <= |FreeFrom(fat, 0)|
    ensures forall t :: 0 <= t < k ==> 2 <= Taken(fat, k)[t]
  {
    FreeFromAscending(fat, 0);
    forall t | 0 <= t < k
      ensures 2 <= Taken(fat, k)[t]
    {
      assert fat[FreeFrom(fat, 0)[t]] == 0;
    }
  }

  /** The directory entry a save of this size may record. */
  ghost predicate Saveable(fat: Table, info: FileInfo) {
    && 0 < |FreeFrom(fat, 0)| && ClusterCount(info.size) <= |FreeFrom(fat, 0)|
    && info.cluster == FreeFrom(fat, 0)[0]
  }

  /** The entry of a new file heads exactly the clusters linked for it. */
  lemma NewFileOwns(fat: Table, info: FileInfo)
    requires fat[0] != 0 && fat[1] != 0 && Saveable(fat, info)
    ensures var ch := Taken(fat, ClusterCount(info.size));
      Owned(Link(fat, ch), Live(info)) == ch && Complete(Link(fat, ch), ch)
  {
    var ch := Taken(fat, ClusterCount(info.size));
    TakenIsFree(fat, |ch|);
    TakenIsData(fat, |ch|);
    LinkEffect(fat, ch);
    if ch != [] {
      ChainOfComplete(Link(fat, ch), ch);
    }
  }

  lemma OwnedStable(fat: Table, fat': Table, s: Slot)
    requires forall c :: c in Owned(fat, s) ==> fat'[c] == fat[c]
    ensures Owned(fat', s) == Owned(fat, s)
  {
    if s.Live? {
      var own := Owned(fat, s);
      assert forall t :: 0 <= t < |own| ==> own[t] in own;
      ChainStable(fat, fat', s.info.cluster, ClusterCount(s.info.size));
    }
  }

  lemma OwnersAfter(fat: Table, fat': Table, slots: Slots, i: nat, s: Slot)
    requires i < FILE_COUNT
    requires forall j, c :: 0 <= j < FILE_COUNT && j != i && c in Owners(fat, slots)[j] ==> fat'[c] == fat[c]
    ensures Owners(fat', slots[i := s]) == Owners(fat, slots)[i := Owned(fat', s)]
  {
    forall j | 0 <= j < FILE_COUNT && j != i
      ensures Owned(fat', slots[j]) == Owners(fat, slots)[j]
    {
      assert Owners(fat, slots)[j] == Owned(fat, slots[j]);
      OwnedStable(fat, fat', slots[j]);
    }
  }

  lemma LengthsAfter(fat: Table, fat': Table, slots: Slots, i: nat, s: Slot)
    requires i < FILE_COUNT && Consistent(fat, slots) && |Owned(fat', s)| == Needed(s)
    requires Partition(fat', Owners(fat, slots)[i := Owned(fat', s)])
    requires Owners(fat', slots[i := s]) == Owners(fat, slots)[i := Owned(fat', s)]
    ensures Consistent(fat', slots[i := s])
  {
    var slots' := slots[i := s];
    forall j | 0 <= j < FILE_COUNT
      ensures |Owned(fat', slots'[j])| == Needed(slots'[j])
    {
      if j != i {
        assert Owned(fat', slots'[j]) == Owners(fat', slots')[j] == Owners(fat, slots)[j];
      }
    }
  }

  /** Saving into a slot that is not live keeps the invariant; the new slot heads
      the first free clusters and every other slot keeps its chain. */
  lemma SaveKeepsConsistent(fat: Table, slots: Slots, i: nat, info: FileInfo)
    requires Consistent(fat, slots) && i < FILE_COUNT && !slots[i].Live? && Saveable(fat, info)
    ensures var ch := Taken(fat, ClusterCount(info.size));
      && Consistent(Link(fat, ch), slots[i := Live(info)])
      && Owners(Link(fat, ch), slots[i := Live(info)]) == Owners(fat, slots)[i := ch]
  {
    var ch := Taken(fat, ClusterCount(info.size));
    TakenIsFree(fat, |ch|);
    assert Owners(fat, slots)[i] == [];
    PartitionGains(fat, Owners(fat, slots), i, ch);
    NewFileOwns(fat, info);
    OwnersAfter(fat, Link(fat, ch), slots, i, Live(info));
    LengthsAfter(fat, Link(fat, ch), slots, i, Live(info));
  }

  /** Deleting a live slot zeroes exactly that slot's chain, keeps the invariant
      and leaves every other slot its chain. */
  lemma DeleteKeepsConsistent(fat: Table, slots: Slots, i: nat)
    requires Consistent(fat, slots) && i < FILE_COUNT && slots[i].Live?
    ensures var f, ch := slots[i].info, Owned(fat, slots[i]);
      && FreeChain(fat, f.cluster, ClusterCount(f.size)) == (true, Cleared(fat, ch))
      && Consistent(Cleared(fat, ch), slots[i := Deleted])
      && Owners(Cleared(fat, ch), slots[i := Deleted]) == Owners(fat, slots)[i := []]
  {
    var ch := Owned(fat, slots[i]);
    assert Owners(fat, slots)[i] == ch;
    PartitionLoses(fat, Owners(fat, slots), i);
    if ch != [] {
      FreeChainEffect(fat, ch);
    } else {
      assert Cleared(fat, ch) == fat;
    }
    OwnersAfter(fat, Cleared(fat, ch), slots, i, Deleted);
    LengthsAfter(fat, Cleared(fat, ch), slots, i, Deleted);
  }

  /** A save directly followed by freeing the new entry restores the table. */
  lemma FreeUndoesSave(fat: Table, info: FileInfo)
    requires fat[0] != 0 && fat[1] != 0 && Saveable(fat, info)
    ensures var k := ClusterCount(info.size);
      FreeChain(Link(fat, Taken(fat, k)), info.cluster, k) == (true, fat)
  {
    var ch := Taken(fat, ClusterCount(info.size));
    TakenIsFree(fat, |ch|);
    NewFileOwns(fat, info);
    if ch != [] {
      FreeChainEffect(Link(fat, ch), ch);
      LinkEffect(fat, ch);
      assert Cleared(Link(fat, ch), ch) == fat;
    }
  }

  function ClustersNeeded(slots: seq<Slot>): nat {
    if slots == [] then 0 else ClustersNeeded(slots[..|slots| - 1]) + Needed(slots[|slots| - 1])
  }

  lemma {:induction false} LengthsAgree(own: seq<seq<Cluster>>, slots: seq<Slot>)
    requires |own| == |slots| && forall i :: 0 <= i < |own| ==> |own[i]| == Needed(slots[i])
    ensures TotalLength(own) == ClustersNeeded(slots)
    decreases |own|
  {
    if own != [] { LengthsAgree(own[..|own| - 1], slots[..|slots| - 1]); }
  }

  /** Conservation: free clusters and the clusters live files need make up all
      data clusters of the table. */
  lemma FreeCount(fat: Table, slots: Slots)
    requires Consistent(fat, slots)
    ensures |FreeFrom(fat, 0)| + ClustersNeeded(slots) == FAT_ENTRIES - 2
  {
    PartitionCount(fat, Owners(fat, slots));
    LengthsAgree(Owners(fat, slots), slots);
  }
}
