/**
 The scatter/gather cursors of a virtio buffer: a chain of descriptors read, written and sought
 as if it were one piece.
 */
module VirtioBuffer {
  type byte = x: int | 0 <= x < 256
  type Memory = int -> byte

  datatype Slice = Slice(addr: int, len: nat)

  function Total(s: seq<Slice>): (n: nat) {
    if s == [] then 0 else s[0].len + Total(s[1..])
  }

  /** The place in memory of position `p` of the chain. */
  function AddrOf(s: seq<Slice>, p: nat): int
    requires p < Total(s)
  {
    if p < s[0].len then s[0].addr + p else AddrOf(s[1..], p - s[0].len)
  }

  /** The chain as one sequence of bytes. */
  function Flat(mem: Memory, s: seq<Slice>): (bytes: seq<byte>)
    ensures |bytes| == Total(s)
    ensures forall p :: 0 <= p < |bytes| ==> bytes[p] == mem(AddrOf(s, p))
  {
    seq(Total(s), p requires 0 <= p < Total(s) => mem(AddrOf(s, p)))
  }

  /** Every descriptor of the chain covers at least one byte. */
  predicate NonEmpty(s: seq<Slice>) { forall i :: 0 <= i < |s| ==> s[i].len > 0 }

  lemma {:induction false} TotalPrefix(s: seq<Slice>, i: nat)
    requires i < |s|
    ensures Total(s[..i]) + s[i].len + Total(s[i + 1..]) == Total(s)
    decreases i
  {
    if i == 0 {
      assert s[..0] == [];
    } else {
      TotalPrefix(s[1..], i - 1);
      assert s[..i][0] == s[0] && s[..i][1..] == s[1..][..i - 1];
      assert s[1..][i..] == s[i + 1..];
    }
  }

  lemma {:induction false} TotalSnoc(s: seq<Slice>, i: nat)
    requires i < |s|
    ensures Total(s[..i + 1]) == Total(s[..i]) + s[i].len
    decreases i
  {
    if i == 0 {
      assert s[..1] == [s[0]] && s[..0] == [];
      assert [s[0]][1..] == [];
    } else {
      TotalSnoc(s[1..], i - 1);
      assert s[..i + 1][1..] == s[1..][..i] && s[..i][1..] == s[1..][..i - 1];
    }
  }

  /** Positions inside the i-th descriptor are consecutive addresses. */
  lemma {:induction false} AddrInSlice(s: seq<Slice>, i: nat, k: nat)
    requires i < |s| && k < s[i].len
    ensures Total(s[..i]) + k < Total(s)
    ensures AddrOf(s, Total(s[..i]) + k) == s[i].addr + k
    decreases i
  {
    TotalPrefix(s, i);
    if i == 0 {
      assert s[..0] == [];
    } else {
      AddrInSlice(s[1..], i - 1, k);
      assert s[..i][0] == s[0] && s[..i][1..] == s[1..][..i - 1];
    }
  }

  /** A cursor: position `pos`, which is `offset` bytes into descriptor `idx`, or past the end. */
  predicate CursorOk(s: seq<Slice>, pos: nat, idx: nat, offset: nat) {
    if idx < |s| then offset < s[idx].len && pos == Total(s[..idx]) + offset
    else pos >= Total(s)
  }

  /** Find the descriptor that holds a position. */
  method SeekSlice(s: seq<Slice>, pos: nat) returns (idx: nat, offset: nat)
    ensures CursorOk(s, pos, idx, offset)
    ensures idx >= |s| ==> idx == |s| + 1 && offset == 0
  {
    offset := pos;
    assert s[..0] == [];
    for i := 0 to |s|
      invariant pos == Total(s[..i]) + offset
    {
      if offset >= s[i].len {
        TotalSnoc(s, i);
        offset := offset - s[i].len;
        continue;
      }
      return i, offset;
    }
    assert s[..|s|] == s;
    return |s| + 1, 0;
  }

  function Min(a: nat, b: nat): nat { if a <= b then a else b }
  function Max(a: nat, b: nat): nat { if a >= b then a else b }

  /** Moving on within the descriptor, or to the start of the next. */
  lemma Advance(s: seq<Slice>, pos: nat, idx: nat, offset: nat, n: nat)
    requires NonEmpty(s) && idx < |s| && CursorOk(s, pos, idx, offset) && n <= s[idx].len - offset
    ensures pos + n <= Total(s)
    ensures n == s[idx].len - offset ==> CursorOk(s, pos + n, idx + 1, 0)
    ensures n < s[idx].len - offset ==> CursorOk(s, pos + n, idx, offset + n)
  {
    TotalPrefix(s, idx);
    TotalSnoc(s, idx);
    if idx + 1 == |s| {
      assert s[..idx + 1] == s;
    }
  }

  class BufferReader {
    const buffer: seq<Slice>
    var pos: nat
    var sliceIdx: nat
    var sliceOffset: nat

    predicate Valid()
      reads this
    {
      NonEmpty(buffer) && CursorOk(buffer, pos, sliceIdx, sliceOffset)
    }

    constructor (buffer: seq<Slice>)
      requires NonEmpty(buffer)
      ensures Valid() && pos == 0 && this.buffer == buffer
    {
      this.buffer := buffer;
      pos, sliceIdx, sliceOffset := 0, 0, 0;
      new;
      assert buffer[..0] == [];
    }

    method Seek(newPos: nat)
      requires Valid()
      modifies this
      ensures Valid() && pos == newPos
    {
      if pos != newPos {
        sliceIdx, sliceOffset := SeekSlice(buffer, newPos);
      }
      pos := newPos;
    }

    /** One call reads from the flat concatenation at the position, up to a descriptor's end;
        it reads nothing only at the end of the chain or into an empty destination. */
    method Read(mem: Memory, want: nat) returns (data: seq<byte>)
      requires Valid()
      modifies this
      ensures Valid() && pos == old(pos) + |data| && |data| <= want
      ensures |data| > 0 ==> pos <= Total(buffer) && data == Flat(mem, buffer)[old(pos)..pos]
      ensures |data| == 0 <==> want == 0 || old(pos) >= Total(buffer)
    {
      if sliceIdx >= |buffer| {
        return [];
      }
      var slice := buffer[sliceIdx];
      var n := Min(want, slice.len - sliceOffset);
      TotalPrefix(buffer, sliceIdx);
      Advance(buffer, pos, sliceIdx, sliceOffset, n);
      var start := slice.addr + sliceOffset;
      data := seq(n, k requires 0 <= k < n => mem(start + k));
      ghost var flat, from := Flat(mem, buffer), pos;
      forall k | 0 <= k < n
        ensures data[k] == flat[from..from + n][k]
      {
        AddrInSlice(buffer, sliceIdx, sliceOffset + k);
      }
      if want >= slice.len - sliceOffset {
        sliceIdx, sliceOffset := sliceIdx + 1, 0;
      } else {
        sliceOffset := sliceOffset + want;
      }
      pos := pos + n;
    }

    /** Any number of calls reads on as from one piece. */
    method ReadExact(mem: Memory, want: nat) returns (data: seq<byte>)
      requires Valid() && pos + want <= Total(buffer)
      modifies this
      ensures Valid() && pos == old(pos) + want
      ensures data == Flat(mem, buffer)[old(pos)..pos]
    {
      data := [];
      while |data| < want
        invariant Valid() && |data| <= want && pos == old(pos) + |data|
        invariant data == Flat(mem, buffer)[old(pos)..pos]
        decreases want - |data|
      {
        var more := Read(mem, want - |data|);
        data := data + more;
      }
    }
  }

  /** Memory after `data` is written from `addr` on. */
  function Write(mem: Memory, addr: int, data: seq<byte>): Memory {
    (a: int) => if addr <= a < addr + |data| then data[a - addr] else mem(a)
  }

  /** Address `a` is that of one of the `n` positions from `pos` on. */
  ghost predicate Covered(s: seq<Slice>, pos: nat, n: nat, a: int) {
    exists p: nat :: pos <= p < pos + n && p < Total(s) && AddrOf(s, p) == a
  }

  /** Exactly the positions from `pos` on have been given the bytes of `data`. */
  ghost predicate Written(s: seq<Slice>, before: Memory, after: Memory, pos: nat, data: seq<byte>) {
    && (forall p: nat {:trigger AddrOf(s, p)} :: pos <= p < pos + |data| && p < Total(s) ==> after(AddrOf(s, p)) == data[p - pos])
    && (forall a: int :: !Covered(s, pos, |data|, a) ==> after(a) == before(a))
  }

  lemma NothingWritten(s: seq<Slice>, mem: Memory, pos: nat)
    ensures Written(s, mem, mem, pos, [])
  {
  }

  lemma SliceWritten(s: seq<Slice>, i: nat, offset: nat, before: Memory, data: seq<byte>)
    requires i < |s| && offset + |data| <= s[i].len
    ensures Written(s, before, Write(before, s[i].addr + offset, data), Total(s[..i]) + offset, data)
  {
    var pos, start := Total(s[..i]) + offset, s[i].addr + offset;
    var after := Write(before, start, data);
    forall p: nat | pos <= p < pos + |data| && p < Total(s)
      ensures AddrOf(s, p) == start + (p - pos)
    {
      AddrInSlice(s, i, p - Total(s[..i]));
    }
    forall a: int | start <= a < start + |data|
      ensures Covered(s, pos, |data|, a)
    {
      AddrInSlice(s, i, offset + (a - start));
      assert AddrOf(s, pos + (a - start)) == a;
    }
  }

  class BufferWriter {
    const buffer: seq<Slice>
    var bytesWritten: nat
    var pos: nat
    var sliceIdx: nat
    var sliceOffset: nat
    var mem: Memory

    predicate Valid()
      reads this
    {
      NonEmpty(buffer) && CursorOk(buffer, pos, sliceIdx, sliceOffset)
    }

    constructor (buffer: seq<Slice>, mem: Memory)
      requires NonEmpty(buffer)
      ensures Valid() && pos == 0 && bytesWritten == 0 && this.buffer == buffer && this.mem == mem
    {
      this.buffer, this.mem := buffer, mem;
      pos, sliceIdx, sliceOffset, bytesWritten := 0, 0, 0, 0;
      new;
      assert buffer[..0] == [];
    }

    method Seek(newPos: nat)
      requires Valid()
      modifies this`pos, this`sliceIdx, this`sliceOffset
      ensures Valid() && pos == newPos
    {
      if pos != newPos {
        sliceIdx, sliceOffset := SeekSlice(buffer, newPos);
      }
      pos := newPos;
    }

    /** One call writes at the flat position, up to a descriptor's end, and nowhere else. */
    method WriteSome(data: seq<byte>) returns (n: nat)
      requires Valid()
      modifies this
      ensures Valid() && n <= |data| && pos == old(pos) + n
      ensures n == 0 <==> data == [] || old(pos) >= Total(buffer)
      ensures n > 0 ==> pos <= Total(buffer)
      ensures Written(buffer, old(mem), mem, old(pos), data[..n])
      ensures bytesWritten == if old(sliceIdx) < |buffer| then Max(old(bytesWritten), pos) else old(bytesWritten)
    {
      hide Written, Write;
      NothingWritten(buffer, mem, pos);
      if sliceIdx >= |buffer| {
        assert data[..0] == [];
        return 0;
      }
      var slice := buffer[sliceIdx];
      n := Min(|data|, slice.len - sliceOffset);
      TotalPrefix(buffer, sliceIdx);
      Advance(buffer, pos, sliceIdx, sliceOffset, n);
      SliceWritten(buffer, sliceIdx, sliceOffset, mem, data[..n]);
      mem := Write(mem, slice.addr + sliceOffset, data[..n]);
      if |data| >= slice.len - sliceOffset {
        sliceIdx, sliceOffset := sliceIdx + 1, 0;
      } else {
        sliceOffset := sliceOffset + |data|;
      }
      pos := pos + n;
      bytesWritten := Max(pos, bytesWritten);
    }
  }

  /** No two positions of the chain share an address. */
  predicate Disjoint(s: seq<Slice>) {
    forall p: nat, q: nat :: p < Total(s) && q < Total(s) && p != q ==> AddrOf(s, p) != AddrOf(s, q)
  }

  /** On a chain without overlaps, a write replaces exactly that part of the flat contents. */
  lemma WriteSplices(s: seq<Slice>, before: Memory, after: Memory, pos: nat, data: seq<byte>)
    requires Disjoint(s) && pos + |data| <= Total(s)
    requires Written(s, before, after, pos, data)
    ensures var f := Flat(before, s); Flat(after, s) == f[..pos] + data + f[pos + |data|..]
  {
    var f, g := Flat(before, s), Flat(after, s);
    var h := f[..pos] + data + f[pos + |data|..];
    assert |g| == |h|;
    forall p | 0 <= p < |g|
      ensures g[p] == h[p]
    {
      if pos <= p < pos + |data| {
        assert after(AddrOf(s, p)) == data[p - pos];
      } else {
        assert !Covered(s, pos, |data|, AddrOf(s, p));
      }
    }
  }
}
