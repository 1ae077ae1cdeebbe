/** The allocator's search of the bitmap for consecutive clear bits: the word
    probes, the strides that skip candidates, and what the search guarantees. */
module FrameSearch {
  import opened MachineTypes
  import opened Arithmetic
  import opened Words

  /** Frame p is marked in the bitmap. */
  predicate Marked(bitmap: seq<Word64>, p: nat)
    requires p < 64 * |bitmap|
  {
    Bit(bitmap[p / 64], p % 64)
  }

  ghost predicate RunClear(bitmap: seq<Word64>, p: nat, n: nat)
    requires p + n <= 64 * |bitmap|
  {
    forall q :: p <= q < p + n ==> !Marked(bitmap, q)
  }

  /** The frames the word tests look at from a word boundary: of more than 64, whole
      words only. */
  function Probed(n: nat): (w: nat)
    ensures w <= n && (n > 0 ==> w > 0)
  {
    if n <= 64 then n else n / 64 * 64
  }

  /** The frames they look at from any place: inside a word all of them. */
  function Looked(n: nat, bit: nat): (w: nat)
    ensures Probed(n) <= w <= n
  {
    if bit % 64 == 0 then Probed(n) else n
  }

  /** Where a probe for n frames may stand: the code's shifts stay below 64 for up to
      64 frames, for more of them from a word boundary, and inside a word when they end
      before the next word's last bit. */
  predicate AtProbe(n: nat, bit: nat) { n > 0 && (n <= 64 || bit % 64 == 0 || bit % 64 + n <= 127) }

  /** How far the search moves on after a failed probe. */
  function Stride(bit: nat, n: nat): nat {
    if n >= 64 && bit % 64 == 0 then n / 64 * 64
    else if 64 - bit % 64 >= n then n
    else 64 - bit % 64
  }

  lemma StrideBound(bit: nat, n: nat)
    requires AtProbe(n, bit)
    ensures 1 <= Stride(bit, n) <= Probed(n) && AtProbe(n, bit + Stride(bit, n))
  {
    if n > 64 && bit % 64 == 0 {
      var w := n / 64;
      assert (bit + 64 * w) % 64 == 0;
    } else if n > 64 {
      NextWord(bit);
    }
  }

  lemma NextWord(bit: nat)
    ensures bit + (64 - bit % 64) == (bit / 64 + 1) * 64 && (bit / 64 + 1) * 64 % 64 == 0
  {
  }

  /** The start the search returns, by its candidates from bit up. */
  ghost function Search(bitmap: seq<Word64>, bit: nat, end: nat, n: nat): (r: Option<nat>)
    requires AtProbe(n, bit) && end <= 64 * |bitmap|
    decreases end - bit
  {
    if bit + n > end then None
    else if RunClear(bitmap, bit, Looked(n, bit)) then Some(bit)
    else
      StrideBound(bit, n);
      Search(bitmap, bit + Stride(bit, n), end, n)
  }

  /** Soundness: a block found lies in the range and all its frames that are looked
      at are clear. */
  lemma {:induction false} SearchSound(bitmap: seq<Word64>, bit: nat, end: nat, n: nat)
    requires AtProbe(n, bit) && end <= 64 * |bitmap|
    ensures var r := Search(bitmap, bit, end, n);
      r.Some? ==> bit <= r.value && r.value + n <= end && RunClear(bitmap, r.value, Looked(n, r.value))
    decreases end - bit
  {
    if bit + n <= end && !RunClear(bitmap, bit, Looked(n, bit)) {
      StrideBound(bit, n);
      SearchSound(bitmap, bit + Stride(bit, n), end, n);
    }
  }

  /** Completeness: candidates are at most Probed(n) apart, so a run of 2 Probed(n) - 1
      clear bits anywhere in the range makes the search succeed. */
  lemma SearchComplete(bitmap: seq<Word64>, bit: nat, end: nat, n: nat, run: nat)
    requires AtProbe(n, bit) && end <= 64 * |bitmap|
    requires var w := Probed(n);
      bit <= run && run + w - 1 + n <= end && RunClear(bitmap, run, 2 * w - 1)
    ensures Search(bitmap, bit, end, n).Some?
  {
    if n <= 64 || bit % 64 == 0 {
      SearchReaches(bitmap, bit, end, n, run);
    } else if bit < run && !RunClear(bitmap, bit, n) {
      StrideBound(bit, n);
      NextWord(bit);
      SearchReaches(bitmap, bit + Stride(bit, n), end, n, run);
    }
  }

  /** From a place whose probe looks at Probed(n) frames on the search meets the run. */
  lemma {:induction false} SearchReaches(bitmap: seq<Word64>, bit: nat, end: nat, n: nat, run: nat)
    requires AtProbe(n, bit) && (n <= 64 || bit % 64 == 0) && end <= 64 * |bitmap|
    requires var w := Probed(n);
      bit < run + w && run + w - 1 + n <= end && RunClear(bitmap, run, 2 * w - 1)
    ensures Search(bitmap, bit, end, n).Some?
    decreases end - bit
  {
    if bit < run && !RunClear(bitmap, bit, Looked(n, bit)) {
      StrideBound(bit, n);
      if n > 64 { assert (bit + 64 * (n / 64)) % 64 == 0; }
      SearchReaches(bitmap, bit + Stride(bit, n), end, n, run);
    }
  }

  /** A single frame is found exactly when the range is not full. */
  lemma SingleFrame(bitmap: seq<Word64>, start: nat, end: nat)
    requires start <= end <= 64 * |bitmap|
    ensures Search(bitmap, start, end, 1).Some? <==> exists p :: start <= p < end && !Marked(bitmap, p)
  {
    SearchSound(bitmap, start, end, 1);
    if Search(bitmap, start, end, 1).Some? {
      assert !Marked(bitmap, Search(bitmap, start, end, 1).value);
    } else if p :| start <= p < end && !Marked(bitmap, p) {
      assert RunClear(bitmap, p, 1);
      SearchComplete(bitmap, start, end, 1, p);
    }
  }

  // ---------- what exactly the search finds ----------

  /** The first word boundary from start on. */
  function FirstWord(start: nat): (w: nat)
    ensures start <= w < start + 64 && w % 64 == 0
  {
    if start % 64 == 0 then start else NextWord(start); (start / 64 + 1) * 64
  }

  /** The places where a search from start looks: in the first word every n frames
      from start, in later words every n frames from the word's first; for more than
      64 frames the start, and every so many whole words from a word boundary. */
  predicate Candidate(start: nat, n: nat, p: nat)
    requires n > 0
  {
    p >= start &&
    if n > 64 then p == start || (p >= FirstWord(start) && (p - FirstWord(start)) % Probed(n) == 0)
    else if p / 64 == start / 64 then (p - start) % n == 0
    else p % 64 % n == 0
  }

  /** Beyond the start itself the places are those of a search one stride on. */
  lemma CandidateStep(bit: nat, n: nat, p: nat)
    requires AtProbe(n, bit)
    ensures Candidate(bit, n, p) && p > bit <==> Candidate(bit + Stride(bit, n), n, p)
  {
    if n > 64 && bit % 64 == 0 {
      StrideBound(bit, n);
      assert (bit + 64 * (n / 64)) % 64 == 0;
      if p > bit { MultipleStep(p - bit, Probed(n)); }
      ModSmall(0, Probed(n));
    } else if n > 64 {
      NextWord(bit);
      ModSmall(0, Probed(n));
    } else if bit % 64 + n < 64 {
      StepInWord(bit, n, p);
    } else {
      StepToWord(bit, n, p);
    }
  }

  lemma StepInWord(bit: nat, n: nat, p: nat)
    requires 1 <= n && bit % 64 + n < 64
    ensures Candidate(bit, n, p) && p > bit <==> Candidate(bit + n, n, p)
  {
    assert (bit + n) / 64 == bit / 64;
    if p > bit { MultipleStep(p - bit, n); }
  }

  lemma StepToWord(bit: nat, n: nat, p: nat)
    requires 1 <= n <= 64 && bit % 64 + n >= 64
    ensures bit + Stride(bit, n) == (bit / 64 + 1) * 64
    ensures Candidate(bit, n, p) && p > bit <==> Candidate((bit / 64 + 1) * 64, n, p)
  {
    var next := (bit / 64 + 1) * 64;
    assert next / 64 == bit / 64 + 1 && next % 64 == 0;
    if bit < p < next { ModSmall(p - bit, n); }
    assert p >= next ==> (p / 64 == next / 64 ==> p % 64 == p - next);
  }

  /** A positive multiple of n is n more than a multiple. */
  lemma MultipleStep(x: nat, n: nat)
    requires x > 0 && n > 0
    ensures x % n == 0 <==> x >= n && (x - n) % n == 0
  {
    if x < n {
      ModSmall(x, n);
    } else {
      ModAdd(x - n, n, n);
      Remainder(x - n + n, (x - n) / n + 1, n, (x - n) % n);
    }
  }

  /** The search succeeds exactly when one of its places that leaves room for the
      block is clear, as far as it looks, and returns the first such place. */
  lemma {:induction false} SearchExact(bitmap: seq<Word64>, bit: nat, end: nat, n: nat)
    requires AtProbe(n, bit) && end <= 64 * |bitmap|
    ensures Search(bitmap, bit, end, n).Some? <==> exists p: nat :: Hit(bitmap, bit, end, n, p)
    ensures var r := Search(bitmap, bit, end, n);
      r.Some? ==> Hit(bitmap, bit, end, n, r.value) && forall p: nat :: p < r.value ==> !Hit(bitmap, bit, end, n, p)
    decreases end - bit
  {
    if bit + n <= end && RunClear(bitmap, bit, Looked(n, bit)) {
      ModSmall(0, n);
      assert Hit(bitmap, bit, end, n, bit);
    } else if bit + n <= end {
      StrideBound(bit, n);
      var next := bit + Stride(bit, n);
      SearchExact(bitmap, next, end, n);
      forall p: nat
        ensures Hit(bitmap, bit, end, n, p) <==> Hit(bitmap, next, end, n, p)
      {
        CandidateStep(bit, n, p);
      }
    }
  }

  /** A place with room for the block that passes the probe. */
  ghost predicate Hit(bitmap: seq<Word64>, start: nat, end: nat, n: nat, p: nat)
    requires n > 0 && end <= 64 * |bitmap|
  {
    Candidate(start, n, p) && p + n <= end && RunClear(bitmap, p, Looked(n, p))
  }

  /** From one candidate on the candidates are those of a search started there. */
  lemma CandidateFrom(start: nat, n: nat, c: nat, p: nat)
    requires AtProbe(n, start) && Candidate(start, n, c) && Candidate(start, n, p) && c <= p
    ensures Candidate(c, n, p)
  {
    if n > 64 {
      if c > start { LaterCandidate(start, n, c, p); }
    } else if c / 64 == start / 64 {
      if p / 64 == c / 64 { MultipleDifference(c - start, p - start, n); }
    } else if p / 64 == c / 64 {
      MultipleDifference(c % 64, p % 64, n);
    }
  }

  lemma MultipleDifference(x: nat, y: nat, n: nat)
    requires n > 0 && x % n == 0 && y % n == 0 && x <= y
    ensures (y - x) % n == 0
  {
    assert x == x / n * n && y == y / n * n;
    assert y - x == (y / n - x / n) * n;
    Remainder(y - x, y / n - x / n, n, 0);
  }

  lemma LaterCandidate(start: nat, n: nat, c: nat, p: nat)
    requires n > 64 && FirstWord(start) <= c <= p
    requires (c - FirstWord(start)) % Probed(n) == 0 && (p - FirstWord(start)) % Probed(n) == 0
    ensures c % 64 == 0 && (p - c) % Probed(n) == 0
  {
    var first, m := FirstWord(start), n / 64;
    assert Probed(n) == m * 64;
    hide FirstWord;
    hide Probed;
    WholeWords(c - first, m);
    MultipleDifference(c - first, p - first, m * 64);
    AddWords(first, c - first);
  }

  lemma AddWords(x: nat, y: nat)
    requires x % 64 == 0 && y % 64 == 0
    ensures (x + y) % 64 == 0
  {
  }

  lemma WholeWords(x: nat, m: nat)
    requires m > 0 && x % (m * 64) == 0
    ensures x % 64 == 0
  {
    assert x == x / (m * 64) * (m * 64) == (x / (m * 64) * m) * 64;
    Remainder(x, x / (m * 64) * m, 64, 0);
  }

  /** The bound 2w - 1, w being the frames looked at from a word boundary, is the best
      one for every size: a range whose only clear bits are 2w - 2 consecutive ones right
      behind a place the search steps on from by w has no block for it. Every search has
      such places: its start or the next word. */
  lemma BoundIsTight(bitmap: seq<Word64>, start: nat, end: nat, n: nat, c: nat)
    requires AtProbe(n, start) && n >= 2
    requires Candidate(start, n, c) && AtProbe(n, c) && Stride(c, n) == Probed(n)
    requires c + 2 * Probed(n) - 1 <= end <= 64 * |bitmap|
    requires forall q :: start <= q < end ==> (Marked(bitmap, q) <==> !(c + 1 <= q < c + 2 * Probed(n) - 1))
    ensures RunClear(bitmap, c + 1, 2 * Probed(n) - 2) && Search(bitmap, start, end, n) == None
  {
    SearchExact(bitmap, start, end, n);
    var w := Probed(n);
    forall p: nat
      ensures !Hit(bitmap, start, end, n, p)
    {
      if Hit(bitmap, start, end, n, p) {
        assert !Marked(bitmap, p) && !Marked(bitmap, p + w - 1);
        assert c < p < c + w;
        CandidateFrom(start, n, c, p);
        CandidateStep(c, n, p);
        assert false;
      }
    }
  }

  /** Such a place exists: the start, or the first frame of the next word. */
  lemma TightPlace(start: nat, n: nat) returns (c: nat)
    requires AtProbe(n, start)
    ensures Candidate(start, n, c) && AtProbe(n, c) && Stride(c, n) == Probed(n) && c < start + 64
  {
    ModSmall(0, n);
    ModSmall(0, Probed(n));
    NextWord(start);
    c := if Stride(start, n) == Probed(n) then start else (start / 64 + 1) * 64;
  }

  // ---------- the word probes ----------

  lemma ProbeOneWord(bitmap: seq<Word64>, bit: nat, n: nat)
    requires 1 <= n < 64 && bit % 64 + n <= 64 && bit + n <= 64 * |bitmap|
    ensures And(bitmap[bit / 64], Mask(n, bit % 64)) == 0 <==> RunClear(bitmap, bit, n)
  {
    var w, off := bitmap[bit / 64], bit % 64;
    MaskTest(w, n, off);
    WordRange(bitmap, bit, n);
  }

  /** Bits within one word are the bits of that word. */
  lemma WordRange(bitmap: seq<Word64>, bit: nat, n: nat)
    requires 1 <= n && bit % 64 + n <= 64 && bit + n <= 64 * |bitmap|
    ensures NoBits(bitmap[bit / 64], bit % 64, bit % 64 + n) <==> RunClear(bitmap, bit, n)
  {
    var k, off := bit / 64, bit % 64;
    forall i: nat | off <= i < off + n
      ensures Marked(bitmap, 64 * k + i) == Bit(bitmap[k], i)
    {
      assert (64 * k + i) / 64 == k && (64 * k + i) % 64 == i;
    }
    if RunClear(bitmap, bit, n) {
      forall i: nat | off <= i < off + n
        ensures !Bit(bitmap[k], i)
      {
        assert !Marked(bitmap, 64 * k + i);
      }
    }
    if NoBits(bitmap[k], off, off + n) {
      forall q | bit <= q < bit + n
        ensures !Marked(bitmap, q)
      {
        assert !Bit(bitmap[k], q - 64 * k);
      }
    }
  }

  lemma RunSplit(bitmap: seq<Word64>, bit: nat, a: nat, n: nat)
    requires a <= n && bit + n <= 64 * |bitmap|
    ensures RunClear(bitmap, bit, n) <==> RunClear(bitmap, bit, a) && RunClear(bitmap, bit + a, n - a)
  {
    if RunClear(bitmap, bit, a) && RunClear(bitmap, bit + a, n - a) {
      forall q | bit <= q < bit + n
        ensures !Marked(bitmap, q)
      {
        if q < bit + a { assert !Marked(bitmap, q); } else { assert !Marked(bitmap, q); }
      }
    }
  }

  /** A block that crosses into the next word is probed in two parts. */
  lemma ProbeTwoWords(bitmap: seq<Word64>, bit: nat, n: nat)
    requires 0 < bit % 64 && 64 < bit % 64 + n <= 127 && bit + n <= 64 * |bitmap|
    ensures bit / 64 + 1 < |bitmap|
    ensures var rest := 64 - bit % 64;
      (And(bitmap[bit / 64], Mask(rest, bit % 64)) == 0 && And(bitmap[bit / 64 + 1], LowMask(n - rest)) == 0)
      <==> RunClear(bitmap, bit, n)
  {
    var rest, next := 64 - bit % 64, (bit / 64 + 1) * 64;
    ProbeOneWord(bitmap, bit, rest);
    assert next == bit + rest && next / 64 == bit / 64 + 1 && next % 64 == 0;
    ProbeOneWord(bitmap, next, n - rest);
    LowMaskIsMask(n - rest);
    RunSplit(bitmap, bit, rest, n);
  }

  lemma LowMaskIsMask(n: nat)
    requires n < 64
    ensures Mask(n, 0) == LowMask(n)
  {
    assert Pow2(0) == 1;
    Small(LowMask(n));
  }

  /** Whole words are probed one at a time. */
  lemma ProbeNextWord(bitmap: seq<Word64>, bit: nat, j: nat)
    requires bit % 64 == 0 && bit + 64 * j + 64 <= 64 * |bitmap|
    ensures RunClear(bitmap, bit, 64 * j + 64)
       <==> RunClear(bitmap, bit, 64 * j) && bitmap[bit / 64 + j] == 0
  {
    var at := bit + 64 * j;
    assert at / 64 == bit / 64 + j && at % 64 == 0;
    ZeroTest(bitmap[at / 64]);
    WordRange(bitmap, at, 64);
    RunSplit(bitmap, bit, 64 * j, 64 * j + 64);
  }

  // ---------- setting and clearing ----------

  function SetFrame(bitmap: seq<Word64>, p: nat): (r: seq<Word64>)
    requires p < 64 * |bitmap|
  {
    bitmap[p / 64 := SetBit(bitmap[p / 64], p % 64)]
  }

  function ClearFrame(bitmap: seq<Word64>, p: nat): (r: seq<Word64>)
    requires p < 64 * |bitmap|
  {
    bitmap[p / 64 := ClearBit(bitmap[p / 64], p % 64)]
  }

  lemma MarkedAfterSet(bitmap: seq<Word64>, p: nat, q: nat)
    requires p < 64 * |bitmap| && q < 64 * |bitmap|
    ensures Marked(SetFrame(bitmap, p), q) <==> Marked(bitmap, q) || q == p
  {
    if q / 64 == p / 64 {
      BitAfterSet(bitmap[p / 64], p % 64, q % 64);
    }
  }

  lemma MarkedAfterClear(bitmap: seq<Word64>, p: nat, q: nat)
    requires p < 64 * |bitmap| && q < 64 * |bitmap|
    ensures Marked(ClearFrame(bitmap, p), q) <==> Marked(bitmap, q) && q != p
  {
    if q / 64 == p / 64 {
      BitAfterClear(bitmap[p / 64], p % 64, q % 64);
    }
  }

  // ---------- counting clear bits ----------

  function ClearCount(bitmap: seq<Word64>, lo: nat, hi: nat): nat
    requires hi <= 64 * |bitmap|
    decreases hi - lo
  {
    if lo >= hi then 0 else ClearCount(bitmap, lo, hi - 1) + if Marked(bitmap, hi - 1) then 0 else 1
  }

  lemma {:induction false} ClearCountSame(bitmap: seq<Word64>, bitmap': seq<Word64>, lo: nat, hi: nat)
    requires hi <= 64 * |bitmap| && |bitmap'| == |bitmap|
    requires forall q :: lo <= q < hi ==> (Marked(bitmap', q) <==> Marked(bitmap, q))
    ensures ClearCount(bitmap', lo, hi) == ClearCount(bitmap, lo, hi)
    decreases hi - lo
  {
    if lo < hi { ClearCountSame(bitmap, bitmap', lo, hi - 1); }
  }

  /** Setting a clear bit in a range lowers its count by one, elsewhere not. */
  lemma {:induction false} ClearCountSet(bitmap: seq<Word64>, p: nat, lo: nat, hi: nat)
    requires p < 64 * |bitmap| && hi <= 64 * |bitmap| && !Marked(bitmap, p)
    ensures ClearCount(SetFrame(bitmap, p), lo, hi)
         == ClearCount(bitmap, lo, hi) - if lo <= p < hi then 1 else 0
    decreases hi - lo
  {
    if lo < hi {
      ClearCountSet(bitmap, p, lo, hi - 1);
      MarkedAfterSet(bitmap, p, hi - 1);
    }
  }

  lemma {:induction false} ClearCountClear(bitmap: seq<Word64>, p: nat, lo: nat, hi: nat)
    requires p < 64 * |bitmap| && hi <= 64 * |bitmap| && Marked(bitmap, p)
    ensures ClearCount(ClearFrame(bitmap, p), lo, hi)
         == ClearCount(bitmap, lo, hi) + if lo <= p < hi then 1 else 0
    decreases hi - lo
  {
    if lo < hi {
      ClearCountClear(bitmap, p, lo, hi - 1);
      MarkedAfterClear(bitmap, p, hi - 1);
    }
  }
}
