/** The split virtqueue: free-running 16-bit counters over rings of a power-of-two size. */
module VirtioQueue {
  import opened Words
  import opened Euclid
  import B = VirtioBuffer

  datatype Desc = Desc(addr: int, len: nat, next: nat, hasNext: bool, deviceWrites: bool)

  /** `x & (num - 1)` on 16-bit values. */
  function Slot(x: nat, num: nat): nat
    requires 0 < num <= 0x8000 && x < 0x1_0000
  {
    Bitwise(BitAnd, x, num - 1, 0x1_0000)
  }

  lemma {:induction false} MaskIsMod(x: nat, p: nat, m: nat)
    requires IsPow2(p) && IsPow2(m) && p <= m && x < m
    ensures Bitwise(BitAnd, x, p - 1, m) == x % p
    decreases m
  {
    if m > 1 {
      if p == 1 {
        BitwiseUnit(x, m);
      } else {
        assert (p - 1) / 2 == p / 2 - 1 && (p - 1) % 2 == 1;
        HalfLess(p, m);
        MaskIsMod(x / 2, p / 2, m / 2);
        ModDouble(x, p / 2);
      }
    }
  }

  lemma HalfLess(p: nat, m: nat)
    requires p <= m
    ensures p / 2 <= m / 2
  {
  }

  /** Sixteen-bit wrap-around does not disturb the position in the ring. */
  lemma SlotOfCount(k: nat, num: nat)
    requires IsPow2(num) && num <= 0x8000
    ensures Slot(k % 0x1_0000, num) == k % num
  {
    hide Bitwise, IsPow2;
    Pow16();
    MaskIsMod(k % 0x1_0000, num, 0x1_0000);
    DividesPow2(num, 0x1_0000);
    var c := 0x1_0000 / num;
    ModOfMod(k, num, c);
  }

  lemma Pow16()
    ensures IsPow2(0x1_0000)
  {
    assert IsPow2(1);
    Pow2Times16(1);
    Pow2Times16(0x10);
    Pow2Times16(0x100);
    Pow2Times16(0x1000);
  }

  lemma {:induction false} DividesPow2(p: nat, m: nat)
    requires IsPow2(p) && IsPow2(m) && p <= m
    ensures m == p * (m / p)
    decreases p
  {
    if p > 1 {
      HalfLess(p, m);
      DividesPow2(p / 2, m / 2);
      var c := m / 2 / (p / 2);
      assert m == p * c by {
        assert m == 2 * (m / 2) && p == 2 * (p / 2);
        assert 2 * (p / 2 * c) == p * c;
      }
      DivModUnique(m, p, c, 0);
    }
  }

  lemma ModOfMod(k: nat, n: nat, c: nat)
    requires n > 0 && n * c == 0x1_0000
    ensures k % 0x1_0000 % n == k % n
  {
    var q, r := k / 0x1_0000, k % 0x1_0000;
    var q', r' := r / n, r % n;
    assert k == 0x1_0000 * q + r && r == n * q' + r';
    assert 0x1_0000 * q == n * (c * q);
    assert n * (c * q + q') == n * (c * q) + n * q';
    DivModUnique(k, n, c * q + q', r');
  }

  // ---- descriptor chains

  /** The chain from `idx` ends within `steps` descriptors. */
  predicate Ends(table: seq<Desc>, idx: nat, steps: nat)
    requires |table| > 0 && IsPow2(|table|) && |table| <= 0x8000
    decreases steps
  {
    steps > 0 && idx < 0x1_0000 &&
    var d := table[idx % |table|];
    d.hasNext ==> Ends(table, d.next, steps - 1)
  }

  function Chain(table: seq<Desc>, idx: nat, steps: nat): (chain: seq<Desc>)
    requires |table| > 0 && IsPow2(|table|) && |table| <= 0x8000 && Ends(table, idx, steps)
    decreases steps
  {
    var d := table[idx % |table|];
    if d.hasNext then [d] + Chain(table, d.next, steps - 1) else [d]
  }

  /** The descriptors of one direction, in order. */
  function Part(chain: seq<Desc>, deviceWrites: bool): (s: seq<B.Slice>) {
    if chain == [] then []
    else
      var rest := Part(chain[1..], deviceWrites);
      if chain[0].deviceWrites == deviceWrites then [B.Slice(chain[0].addr, chain[0].len)] + rest else rest
  }

  lemma {:induction false} PartAppend(a: seq<Desc>, b: seq<Desc>, w: bool)
    ensures Part(a + b, w) == Part(a, w) + Part(b, w)
    decreases |a|
  {
    if a == [] {
      assert a + b == b;
    } else {
      assert (a + b)[0] == a[0] && (a + b)[1..] == a[1..] + b;
      PartAppend(a[1..], b, w);
    }
  }

  /** Every descriptor lands in exactly one of the two halves, and none of its bytes is lost. */
  lemma {:induction false} PartsCover(chain: seq<Desc>)
    ensures |Part(chain, false)| + |Part(chain, true)| == |chain|
    ensures B.Total(Part(chain, false)) + B.Total(Part(chain, true)) == Lengths(chain)
    decreases |chain|
  {
    if chain != [] {
      PartsCover(chain[1..]);
      var d := chain[0];
      var head := [B.Slice(d.addr, d.len)];
      assert (head + Part(chain[1..], d.deviceWrites))[1..] == Part(chain[1..], d.deviceWrites);
    }
  }

  function Lengths(chain: seq<Desc>): nat {
    if chain == [] then 0 else chain[0].len + Lengths(chain[1..])
  }

  datatype Buffer = Buffer(idx: nat, read: seq<B.Slice>, write: seq<B.Slice>)
  datatype Used = Used(idx: nat, len: nat)
  datatype Taken = NotReady | Empty | Got(buffer: Buffer)

  class QueueInner {
    var ready: bool
    const num: nat
    var lastAvailIdx: nat
    var lastUsedIdx: nat
    /** The used ring and its index in guest memory. */
    var usedRing: seq<Used>
    var usedIdx: nat
    /** How many buffers were taken and put since the queue was set up. */
    ghost var taken: nat
    ghost var put: nat

    ghost predicate Valid()
      reads this
    {
      && IsPow2(num) && 0 < num <= 0x8000 && |usedRing| == num
      && lastAvailIdx == taken % 0x1_0000 && lastUsedIdx == put % 0x1_0000
    }

    constructor (num: nat)
      requires IsPow2(num) && num <= 0x8000
      ensures Valid() && taken == 0 && put == 0 && this.num == num && ready
    {
      ready := true;
      this.num := num;
      lastAvailIdx, lastUsedIdx, usedIdx := 0, 0, 0;
      usedRing := seq(num, _ => Used(0, 0));
      taken, put := 0, 0;
    }

    /** Take the next available buffer, if the guest has published one. The k-th one taken is the
        one in slot k modulo the ring size, however often the counters have wrapped. */
    method TryTake(availIdx: nat, availRing: seq<nat>, table: seq<Desc>, ghost steps: nat) returns (r: Taken)
      requires Valid() && availIdx < 0x1_0000 && |availRing| == num && |table| == num
      requires ready && lastAvailIdx != availIdx ==> Ends(table, availRing[taken % num], steps)
      modifies this`lastAvailIdx, this`taken
      ensures Valid()
      ensures r.NotReady? <==> !ready
      ensures r.Empty? <==> ready && old(lastAvailIdx) == availIdx
      ensures taken == if r.Got? then old(taken) + 1 else old(taken)
      ensures r.Got? ==>
        var head := availRing[old(taken) % num];
        r.buffer == Buffer(head, Part(Chain(table, head, steps), false), Part(Chain(table, head, steps), true))
    {
      hide Slot, IsPow2, Ends, Chain;
      if !ready {
        return NotReady;
      }
      if lastAvailIdx == availIdx {
        return Empty;
      }
      SlotOfCount(taken, num);
      var head := availRing[Slot(lastAvailIdx, num)];
      NextIndex(taken);
      lastAvailIdx := (lastAvailIdx + 1) % 0x1_0000;
      taken := taken + 1;
      var read, write := Collect(table, head, steps);
      r := Got(Buffer(head, read, write));
    }

    /** Give a buffer back: the j-th one goes to slot j modulo the ring size. */
    method Put(idx: nat, bytesWritten: nat)
      requires Valid()
      modifies this`usedRing, this`usedIdx, this`lastUsedIdx, this`put
      ensures Valid()
      ensures !ready ==> put == old(put) && usedRing == old(usedRing) && usedIdx == old(usedIdx)
      ensures ready ==> put == old(put) + 1 && usedIdx == put % 0x1_0000
      ensures ready ==> usedRing == old(usedRing)[old(put) % num := Used(idx, bytesWritten % 0x1_0000_0000)]
    {
      hide Slot, IsPow2;
      if !ready {
        return;
      }
      SlotOfCount(put, num);
      usedRing := usedRing[Slot(lastUsedIdx, num) := Used(idx, bytesWritten % 0x1_0000_0000)];
      NextIndex(put);
      lastUsedIdx := (lastUsedIdx + 1) % 0x1_0000;
      put := put + 1;
      usedIdx := lastUsedIdx;
    }
  }

  lemma NextIndex(k: nat)
    ensures (k % 0x1_0000 + 1) % 0x1_0000 == (k + 1) % 0x1_0000
  {
  }

  /** Follow the chain, sorting its descriptors into what the device reads and what it writes. */
  method Collect(table: seq<Desc>, head: nat, ghost steps: nat) returns (read: seq<B.Slice>, write: seq<B.Slice>)
    requires |table| > 0 && IsPow2(|table|) && |table| <= 0x8000 && Ends(table, head, steps)
    ensures read == Part(Chain(table, head, steps), false) && write == Part(Chain(table, head, steps), true)
  {
    hide Slot, IsPow2;
    read, write := [], [];
    var idx := head;
    ghost var left, done := steps, [];
    var more := true;
    while more
      invariant more ==> Ends(table, idx, left) && Chain(table, head, steps) == done + Chain(table, idx, left)
      invariant !more ==> Chain(table, head, steps) == done
      invariant read == Part(done, false) && write == Part(done, true)
      decreases left, more
    {
      SlotIs(idx, |table|);
      var d := table[Slot(idx, |table|)];
      PartAppend(done, [d], false);
      PartAppend(done, [d], true);
      if !d.deviceWrites {
        read := read + [B.Slice(d.addr, d.len)];
      } else {
        write := write + [B.Slice(d.addr, d.len)];
      }
      One(d);
      done := done + [d];
      more := d.hasNext;
      idx := d.next;
      left := left - 1;
    }
  }

  lemma One(d: Desc)
    ensures Part([d], d.deviceWrites) == [B.Slice(d.addr, d.len)] && Part([d], !d.deviceWrites) == []
  {
    assert [d][1..] == [];
  }

  lemma SlotIs(x: nat, num: nat)
    requires IsPow2(num) && num <= 0x8000 && x < 0x1_0000
    ensures Slot(x, num) == x % num
  {
    hide Slot, IsPow2;
    SlotOfCount(x, num);
  }
}
