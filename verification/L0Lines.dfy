/** The cache lines of one hart as other harts see them: two arrays, changed line by line. */
module L0Lines {
  import opened Wrappers
  import opened Mmu
  import opened L0Cache
  import opened Powers
  import opened Euclid

  /** Lines whose index agrees with a physical line's in the part below the page number. */
  function Interval(c: Log): (m: nat)
    ensures 1 <= m <= 512
  {
    if c == 12 then 1 else if c == 11 then 2 else if c == 10 then 4 else if c == 9 then 8
    else if c == 8 then 16 else if c == 7 then 32 else if c == 6 then 64 else if c == 5 then 128
    else if c == 4 then 256 else 512
  }

  function Mask(c: Log): Word { (1 << (12 - c)) - 1 }

  function StartIndex(addr: Word, c: Log): (i: nat)
    ensures i < LINES
  {
    Low10(LineOf(addr, c) & Mask(c))
  }

  /** The number of index bits below the page number. */
  function Bits(c: Log): (k: nat)
    ensures k <= 9
  {
    if c == 12 then 0 else if c == 11 then 1 else if c == 10 then 2 else if c == 9 then 3
    else if c == 8 then 4 else if c == 7 then 5 else if c == 6 then 6 else if c == 5 then 7
    else if c == 4 then 8 else 9
  }

  function Ones(k: nat): bv10
    requires k <= 10
  {
    if k == 0 then 0 else (Ones(k - 1) << 1) | 1
  }

  lemma OnesAre()
    ensures Ones(0) == 0 && Ones(1) == 1 && Ones(2) == 3 && Ones(3) == 7 && Ones(4) == 15 && Ones(5) == 31
    ensures Ones(6) == 63 && Ones(7) == 127 && Ones(8) == 255 && Ones(9) == 511
  {
    assert Ones(2) == 3;
    assert Ones(4) == 15;
    assert Ones(6) == 63;
    assert Ones(8) == 255;
  }

  lemma Halves(n: bv10)
    ensures Nat(n) == 2 * Nat(n >> 1) + Nat(n & 1) && Nat(n) / 2 == Nat(n >> 1) && Nat(n) % 2 == Nat(n & 1)
  {
    Digits(n);
    LastDigit(n);
    hide Nat;
  }

  lemma Digits(n: bv10)
    ensures Nat(n) == 2 * Nat(n >> 1) + Nat(n & 1)
  {
  }

  lemma LastDigit(n: bv10)
    ensures Nat(n & 1) <= 1
  {
  }

  lemma NatZero(n: bv10)
    ensures Nat(n & 0) == 0
  {
  }

  lemma MaskHalves(n: bv10, m: bv10)
    requires m < 512
    ensures (n & ((m << 1) | 1)) >> 1 == (n >> 1) & m && (n & ((m << 1) | 1)) & 1 == n & 1
  {
  }

  lemma OnesBelow(k: nat)
    requires k <= 9
    ensures Ones(k) < 512 || k == 9
  {
    OnesAre();
  }

  function Masked(n: bv10, k: nat): bv10
    requires k <= 10
  {
    n & Ones(k)
  }

  function Down(n: bv10): bv10 { n >> 1 }

  lemma MaskStep(n: bv10, k: nat)
    requires 1 <= k <= 9
    ensures Nat(Masked(n, k)) == 2 * Nat(Masked(Down(n), k - 1)) + Nat(n) % 2
    ensures Nat(Down(n)) == Nat(n) / 2
  {
    hide Nat;
    OnesBelow(k - 1);
    MaskHalves(n, Ones(k - 1));
    Halves(n);
    Halves(n & Ones(k));
  }

  /** Masking with `k` ones is reducing modulo the k-th power of two. */
  lemma {:induction false} MaskMod(n: bv10, k: nat)
    requires k <= 9
    ensures Nat(Masked(n, k)) == Nat(n) % Pow2(k)
    decreases k
  {
    if k == 0 {
      NatZero(n);
    } else {
      hide Nat, Masked, Down;
      MaskStep(n, k);
      MaskMod(Down(n), k - 1);
      ModDouble(Nat(n), Pow2(k - 1));
    }
  }

  lemma PowersAre()
    ensures Pow2(0) == 1 && Pow2(1) == 2 && Pow2(2) == 4 && Pow2(3) == 8 && Pow2(4) == 16 && Pow2(5) == 32
    ensures Pow2(6) == 64 && Pow2(7) == 128 && Pow2(8) == 256 && Pow2(9) == 512
  {
    assert Pow2(2) == 4;
    assert Pow2(4) == 16;
    assert Pow2(6) == 64;
    assert Pow2(8) == 256;
  }

  lemma NarrowMask(x: Word, c: Log)
    ensures Narrow(x & Mask(c)) == Masked(Narrow(x), Bits(c)) && Pow2(Bits(c)) == Interval(c)
  {
    OnesAre();
    PowersAre();
    hide Ones, Pow2;
  }

  /** Masking a line number is reducing its index modulo the interval. */
  lemma LowMod(x: Word, c: Log)
    ensures Low10(x & Mask(c)) == Low10(x) % Interval(c)
  {
    NarrowMask(x, c);
    MaskMod(Narrow(x), Bits(c));
    hide Mask, Interval, Bits, Masked, Pow2;
  }

  /** Virtual and physical address share their page offset, so wherever a line of physical
      address `addr` is cached, its index is one that the interval reaches. */
  lemma PhysicalIndex(va: Word, pa: Word, addr: Word, c: Log)
    requires pa & 0xfff == va & 0xfff && LineOf(pa, c) == LineOf(addr, c)
    ensures Index(va, c) % Interval(c) == StartIndex(addr, c)
  {
    SameMasked(va, pa, addr, c);
    LowMod(LineOf(va, c), c);
    hide LineOf, Mask, Interval, Low10;
  }

  lemma SameMasked(va: Word, pa: Word, addr: Word, c: Log)
    requires pa & 0xfff == va & 0xfff && LineOf(pa, c) == LineOf(addr, c)
    ensures LineOf(va, c) & Mask(c) == LineOf(addr, c) & Mask(c)
  {
  }

  lemma NextInInterval(i: nat, j: nat, m: nat)
    requires m > 0 && i < j < i + m
    ensures j % m != i % m
  {
    if j % m == i % m {
      var q := j / m - i / m;
      assert j - i == m * q by {
        assert j == m * (j / m) + j % m && i == m * (i / m) + i % m;
      }
      NoneBetween(m, q);
    }
  }

  predicate Misses(lines: seq<Line>, a: Word, c: Log)
    requires |lines| == LINES
  {
    var l := lines[Index(a, c)];
    !ReadHit(l, a, c) && !WriteHit(l, a, c)
  }

  /** Every hit in the data cache is what a walk in configuration `k` would say. */
  ghost predicate AllOk(k: Config, lines: seq<Line>, c: Log) {
    forall i :: 0 <= i < |lines| ==> DataOk(k, lines[i], c)
  }

  lemma InvalidatedMisses(lines: seq<Line>, addr: Word, a: Word, c: Log)
    requires |lines| == LINES && LineOf(a, c) == LineOf(addr, c)
    ensures Misses(lines[Index(addr, c) := Invalidate(lines[Index(addr, c)])], a, c)
  {
    hide LineOf, ReadHit, WriteHit, Low10;
    InvalidMisses(Invalidate(lines[Index(addr, c)]), a, c);
  }

  lemma InvalidatedOk(lines: seq<Line>, k: Config, i: nat, c: Log)
    requires i < |lines| && AllOk(k, lines, c)
    ensures AllOk(k, lines[i := Invalidate(lines[i])], c)
  {
    hide DataOk;
    InvalidOk(k, Invalidate(lines[i]), c);
  }

  /** The line an insertion leaves serves loads of exactly its own addresses, and their stores if
      it was inserted as writable, each at the place that differs as the address does. */
  lemma InsertedHits(vaddr: Word, paddr: Word, writable: bool, a: Word, c: Log)
    ensures var l := DataLine(vaddr, paddr, writable, c);
      && (ReadHit(l, a, c) <==> LineOf(a, c) == LineOf(vaddr, c))
      && (WriteHit(l, a, c) <==> writable && LineOf(a, c) == LineOf(vaddr, c))
      && Target(l, vaddr) == paddr && Difference(Target(l, a), paddr) == Difference(a, vaddr)
  {
    hide LineOf, Half, DataTag, Difference;
    LineSmall(a, c);
    LineSmall(vaddr, c);
    TagFacts(LineOf(vaddr, c), LineOf(a, c), writable);
    MovedAlike(vaddr, paddr, a);
  }

  lemma MovedAlike(v: Word, p: Word, a: Word)
    ensures Difference(Difference(p, v), v) == p && Difference(Difference(Difference(p, v), a), p) == Difference(a, v)
  {
  }

  lemma InsertedOk(lines: seq<Line>, k: Config, vaddr: Word, writable: bool, c: Log)
    requires |lines| == LINES && AllOk(k, lines, c)
    requires Translate(k, vaddr, if writable then Write else Read).Some?
    ensures var paddr := Translate(k, vaddr, if writable then Write else Read).value;
      AllOk(k, lines[Index(vaddr, c) := DataLine(vaddr, paddr, writable, c)], c)
  {
    hide Translate, DataOk, Index, DataLine;
    FilledOk(k, vaddr, writable, c);
  }

  class SharedContext {
    const log: Log
    const line: array<Line>
    const iLine: array<Line>

    ghost predicate Valid() { line.Length == LINES && iLine.Length == LINES && line != iLine }

    constructor (log: Log)
      ensures Valid() && fresh(line) && fresh(iLine) && this.log == log
      ensures forall i :: 0 <= i < LINES ==> line[i].tag == INVALID && iLine[i].tag == INVALID
    {
      this.log := log;
      line := new Line[LINES](_ => Line(INVALID, 0));
      iLine := new Line[LINES](_ => Line(INVALID, 0));
    }

    method ClearLocalCache()
      requires Valid()
      modifies line
      ensures line[..] == Cleared(old(line[..]))
    {
      for i := 0 to LINES
        invariant forall k :: 0 <= k < LINES ==> line[k] == if k < i then Invalidate(old(line[k])) else old(line[k])
      {
        line[i] := Invalidate(line[i]);
      }
    }

    method ClearLocalICache()
      requires Valid()
      modifies iLine
      ensures iLine[..] == Cleared(old(iLine[..]))
    {
      for i := 0 to LINES
        invariant forall k :: 0 <= k < LINES ==> iLine[k] == if k < i then Invalidate(old(iLine[k])) else old(iLine[k])
      {
        iLine[i] := Invalidate(iLine[i]);
      }
    }

    /** No address of the same virtual line hits afterwards; lines that were right stay right. */
    method InvalidateCacheVirtual(addr: Word)
      requires Valid()
      modifies line
      ensures forall a: Word :: LineOf(a, log) == LineOf(addr, log) ==> Misses(line[..], a, log)
      ensures forall i :: 0 <= i < LINES && i != Index(addr, log) ==> line[i] == old(line[i])
      ensures forall k: Config :: AllOk(k, old(line[..]), log) ==> AllOk(k, line[..], log)
    {
      hide LineOf, Misses, AllOk, Invalidate, Index;
      ghost var before := line[..];
      var i := Index(addr, log);
      line[i] := Invalidate(line[i]);
      assert line[..] == before[i := Invalidate(before[i])];
      forall a: Word | LineOf(a, log) == LineOf(addr, log)
        ensures Misses(line[..], a, log)
      {
        InvalidatedMisses(before, addr, a, log);
      }
      forall k: Config | AllOk(k, before, log)
        ensures AllOk(k, line[..], log)
      {
        InvalidatedOk(before, k, i, log);
      }
    }

    /** No address whose translation is in the physical line of `addr` hits afterwards. */
    method InvalidateCachePhysical(addr: Word)
      requires Valid()
      modifies line
      ensures forall k :: 0 <= k < LINES ==>
        line[k] == if k % Interval(log) == StartIndex(addr, log) then Invalidate(old(line[k])) else old(line[k])
    {
      hide Interval, StartIndex;
      var m := Interval(log);
      StartBelow(addr, log);
      var i := StartIndex(addr, log);
      ghost var start := i;
      assert i % m == start && forall k :: 0 <= k < i ==> k % m != start by { BelowStart(start, m); }
      while i < LINES
        invariant i % m == start
        invariant forall k :: 0 <= k < LINES ==>
          line[k] == if k < i && k % m == start then Invalidate(old(line[k])) else old(line[k])
      {
        line[i] := Invalidate(line[i]);
        forall k | i < k < i + m
          ensures k % m != start
        {
          NextInInterval(i, k, m);
        }
        AddModulus(i, m);
        i := i + m;
      }
    }

    method ProtectCode(page: Word)
      requires Valid()
      modifies line
      ensures line[..] == Protected(old(line[..]), page, log)
    {
      hide Protect;
      for i := 0 to LINES
        invariant forall k :: 0 <= k < LINES ==> line[k] == if k < i then Protect(old(line[k]), page, log) else old(line[k])
      {
        line[i] := Protect(line[i], page, log);
      }
    }

    /** Addresses of the virtual line of `vaddr` hit afterwards, at `paddr` and alongside it; others
        that share its index miss; and if `paddr` is what a walk says, the cache is as right as before. */
    method InsertDataCacheLine(vaddr: Word, paddr: Word, writable: bool)
      requires Valid()
      modifies line
      ensures forall i :: 0 <= i < LINES && i != Index(vaddr, log) ==> line[i] == old(line[i])
      ensures forall a: Word :: Index(a, log) == Index(vaddr, log) ==>
        var l := line[Index(a, log)];
        && (ReadHit(l, a, log) <==> LineOf(a, log) == LineOf(vaddr, log))
        && (WriteHit(l, a, log) <==> writable && LineOf(a, log) == LineOf(vaddr, log))
        && Difference(Target(l, a), paddr) == Difference(a, vaddr)
      ensures Target(line[Index(vaddr, log)], vaddr) == paddr
      ensures forall k: Config ::
        AllOk(k, old(line[..]), log) && Translate(k, vaddr, if writable then Write else Read) == Some(paddr) ==>
        AllOk(k, line[..], log)
    {
      hide Index, LineOf, ReadHit, WriteHit, Target, Difference, Translate, DataLine, AllOk;
      ghost var before := line[..];
      var i := Index(vaddr, log);
      line[i] := DataLine(vaddr, paddr, writable, log);
      assert line[..] == before[i := DataLine(vaddr, paddr, writable, log)];
      InsertedHits(vaddr, paddr, writable, vaddr, log);
      forall a: Word
        ensures var l := line[i];
          && (ReadHit(l, a, log) <==> LineOf(a, log) == LineOf(vaddr, log))
          && (WriteHit(l, a, log) <==> writable && LineOf(a, log) == LineOf(vaddr, log))
          && Difference(Target(l, a), paddr) == Difference(a, vaddr)
      {
        InsertedHits(vaddr, paddr, writable, a, log);
      }
      forall k: Config | AllOk(k, before, log) && Translate(k, vaddr, if writable then Write else Read) == Some(paddr)
        ensures AllOk(k, line[..], log)
      {
        InsertedOk(before, k, vaddr, writable, log);
      }
    }
  }

  lemma StartBelow(addr: Word, c: Log)
    ensures StartIndex(addr, c) < Interval(c)
  {
    LowMod(LineOf(addr, c), c);
  }

  lemma BelowStart(start: nat, m: nat)
    requires start < m
    ensures start % m == start && forall k :: 0 <= k < start ==> k % m == k
  {
  }

  /** Whatever a line cached of the physical line of `addr`, it no longer answers. */
  lemma PhysicalGone(before: seq<Line>, after: seq<Line>, addr: Word, va: Word, c: Log)
    requires |before| == LINES && |after| == LINES
    requires forall k :: 0 <= k < LINES ==>
      after[k] == if k % Interval(c) == StartIndex(addr, c) then Invalidate(before[k]) else before[k]
    requires var pa := Target(before[Index(va, c)], va);
      pa & 0xfff == va & 0xfff && LineOf(pa, c) == LineOf(addr, c)
    ensures var l := after[Index(va, c)]; !ReadHit(l, va, c) && !WriteHit(l, va, c)
  {
    PhysicalIndex(va, Target(before[Index(va, c)], va), addr, c);
    InvalidMisses(after[Index(va, c)], va, c);
    hide Target, LineOf, ReadHit, WriteHit, Interval, StartIndex, Index;
  }
}
