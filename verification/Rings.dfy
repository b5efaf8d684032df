/**
 The ring buffer used by one thread: free-running 32-bit indices over a power-of-two array. It is
 proved to be a queue holding at most size - 1 bytes, across every wrap of the indices.
 */
module Rings {
  import opened Telnet
  import opened Bits

  const DEFAULT_SIZE: nat := 4096

  /** The slot of the byte `i` places after index `base`. */
  function Slot(base: nat, i: nat, size: nat): nat
    requires size > 0
  {
    (base + i) % size
  }

  /** The masked, wrapped index of the code is that slot. */
  lemma MaskedSlot(base: u32, i: nat, k: nat)
    requires k <= 32
    ensures And(Add32(base, i), Pow2(k) - 1) == Slot(base, i, Pow2(k))
  {
    AndMask(Add32(base, i), k);
    WrapKeepsSlot(base + i, k);
  }

  /** Counting from an index that is `l` ahead is counting `l` further. */
  lemma SlotFromTail(head: u32, tail: u32, i: nat, k: nat)
    requires k <= 32
    ensures Slot(tail, i, Pow2(k)) == Slot(head, Sub32(tail, head) + i, Pow2(k))
  {
    var l := Sub32(tail, head);
    WrapKeepsSlot(tail, k);
    WrapKeepsSlot(head + l, k);
    AddBack(head, tail);
    ModCongruent(tail, head + l, i, Pow2(k));
  }

  lemma AddBack(head: u32, tail: u32)
    ensures (head + Sub32(tail, head)) % WRAP == tail
    ensures Sub32(tail, head) == if tail >= head then tail - head else tail - head + WRAP
  {
  }

  lemma HeadAdvance(tail: u32, head: u32, n: nat)
    requires n <= Sub32(tail, head)
    ensures Sub32(tail, Add32(head, n)) == Sub32(tail, head) - n
  {
  }

  lemma ModCongruent(a: nat, b: nat, i: nat, m: nat)
    requires m > 0 && a % m == b % m
    ensures (a + i) % m == (b + i) % m
  {
    ModAdd(a % m + i, m, a / m);
    ModAdd(b % m + i, m, b / m);
    assert a + i == a % m + i + (a / m) * m && b + i == b % m + i + (b / m) * m;
  }

  /** Starting at index `base`, the slots hold the bytes of `s` in order. */
  ghost predicate Holds(slots: seq<byte>, base: nat, s: seq<byte>) {
    |slots| > 0 && forall t: nat :: t < |s| ==> slots[Slot(base, t, |slots|)] == s[t]
  }

  /** Storing a byte just past a window that does not fill the array extends the window. */
  lemma HoldsPut(slots: seq<byte>, base: nat, s: seq<byte>, b: byte)
    requires Holds(slots, base, s) && |s| < |slots|
    ensures Holds(slots[Slot(base, |s|, |slots|) := b], base, s + [b])
  {
    var slots' := slots[Slot(base, |s|, |slots|) := b];
    forall t: nat | t < |s + [b]|
      ensures slots'[Slot(base, t, |slots'|)] == (s + [b])[t]
    {
      if t < |s| {
        SlotsDiffer(base + t, base + |s|, |slots|);
      }
    }
  }

  /** Moving the base forward drops bytes from the front. */
  lemma HoldsDrop(slots: seq<byte>, base: nat, s: seq<byte>, n: nat)
    requires Holds(slots, base, s) && n <= |s|
    ensures Holds(slots, base + n, s[n..])
  {
    forall t: nat | t < |s[n..]|
      ensures slots[Slot(base + n, t, |slots|)] == s[n..][t]
    {
      assert Slot(base + n, t, |slots|) == Slot(base, n + t, |slots|);
    }
  }

  /** Up to the end of the array the window is an ordinary slice. */
  lemma ContiguousPart(slots: seq<byte>, base: nat, s: seq<byte>, n: nat)
    requires Holds(slots, base, s) && n <= |s| && base % |slots| + n <= |slots|
    ensures slots[base % |slots|..base % |slots| + n] == s[..n]
  {
    forall i: nat | i < n
      ensures slots[base % |slots| + i] == s[i]
    {
      ModUnique(base + i, |slots|, base / |slots|, base % |slots| + i);
      assert slots[Slot(base, i, |slots|)] == s[i];
    }
  }

  /** Wrapping the base at 32 bits makes no difference. */
  lemma HoldsWrapped(slots: seq<byte>, base: nat, s: seq<byte>, k: nat)
    requires k <= 32 && |slots| == Pow2(k)
    ensures Holds(slots, base % WRAP, s) <==> Holds(slots, base, s)
  {
    forall t: nat
      ensures Slot(base % WRAP, t, |slots|) == Slot(base, t, |slots|)
    {
      WrapKeepsSlot(base, k);
      ModCongruent(base % WRAP, base, t, |slots|);
    }
  }

  /** Where a slice of `m` bytes from `start` ends, in 32-bit arithmetic, cut at the array's end. */
  function PeekEnd(start: nat, m: int, size: nat): nat {
    var end := (start + m) % WRAP;
    if end <= size % WRAP then end else size % WRAP
  }

  /** Within 2^31 bytes the 32-bit bounds are the true ones. */
  lemma PeekEndIs(start: nat, m: nat, size: nat)
    requires start < size <= 0x8000_0000 && m <= size
    ensures PeekEnd(start, m, size) == if start + m <= size then start + m else size
  {
  }

  class Ring {
    const buf: array<byte>
    const mask: u32
    ghost const bits: nat
    var rhead: u32
    var wtail: u32
    ghost var contents: seq<byte>  // the bytes waiting to be read, oldest first

    ghost predicate Valid()
      reads this, buf
    {
      && bits <= 32
      && mask == Pow2(bits) - 1
      && buf.Length == Pow2(bits)
      && Sub32(wtail, rhead) == |contents| <= mask
      && Holds(buf[..], rhead, contents)
    }

    constructor (size: int)
      requires size <= 0x1_0000_0000
      ensures Valid() && contents == [] && fresh(buf)
      ensures LeastPowerAtLeast(mask + 1, if size <= 0 then 4096 else size)
    {
      var wanted := if size <= 0 then DEFAULT_SIZE else size;
      var n := RoundUp(wanted);
      ghost var k :| k <= 32 && n == Pow2(k);
      WrapIsPow2();
      Pow2Monotone(k, 32);
      buf := new byte[n](_ => 0);
      mask := n - 1;
      bits := k;
      rhead, wtail, contents := 0, 0, [];
    }

    method Len() returns (n: nat)
      requires Valid()
      ensures n == |contents|
    {
      n := Sub32(wtail, rhead);
    }

    method Cap() returns (n: nat)
      ensures n == mask
    {
      n := mask;
    }

    /** Where the next byte goes: the slot just past the window. */
    lemma TailSlot(i: nat)
      requires bits <= 32 && mask == Pow2(bits) - 1 && buf.Length == Pow2(bits) && Sub32(wtail, rhead) == |contents|
      ensures And(Add32(wtail, i), mask) == Slot(rhead, |contents| + i, buf.Length) < buf.Length
    {
      MaskedSlot(wtail, i, bits);
      SlotFromTail(rhead, wtail, i, bits);
    }

    /** The tail index after `n` more bytes. */
    lemma TailAfter(n: nat)
      requires Sub32(wtail, rhead) == |contents| && |contents| + n <= mask
      ensures Sub32(Add32(wtail, n), rhead) == |contents| + n
    {
    }

    /** Stores `b` in the slot `i` places after the tail, extending the window `s` seen from the head. */
    method Put(i: nat, b: byte, ghost s: seq<byte>)
      requires bits <= 32 && mask == Pow2(bits) - 1 && buf.Length == Pow2(bits) && Sub32(wtail, rhead) == |contents|
      requires Holds(buf[..], rhead, s) && |s| == |contents| + i < buf.Length
      modifies buf
      ensures Holds(buf[..], rhead, s + [b])
    {
      TailSlot(i);
      HoldsPut(buf[..], rhead, s, b);
      buf[And(Add32(wtail, i), mask)] := b;
    }

    /** Loads the byte `i` places after the head. */
    method Get(i: nat) returns (b: byte)
      requires Valid() && i < |contents|
      ensures b == contents[i]
    {
      HeadSlot(i);
      b := buf[And(Add32(rhead, i), mask)];
    }

    /** Stores as much of `p` as fits; the flag says that the buffer was too full for all of it. */
    method Write(p: seq<byte>) returns (n: nat, full: bool)
      requires Valid()
      modifies this, buf
      ensures Valid() && rhead == old(rhead)
      ensures contents == First(old(contents) + p, mask)
      ensures n == |contents| - |old(contents)|
      ensures full <==> |old(contents)| == mask || |old(contents)| + |p| > mask
    {
      var avail := mask - Sub32(wtail, rhead);
      if avail <= 0 {
        return 0, true;
      }
      full := |p| > avail;
      n := if full then avail else |p|;
      ghost var slots := buf[..];
      for i := 0 to n
        modifies buf
        invariant Holds(buf[..], rhead, contents + p[..i])
      {
        Put(i, p[i], contents + p[..i]);
        assert contents + p[..i] + [p[i]] == contents + p[..i + 1];
      }
      TailAfter(n);
      wtail := Add32(wtail, n);
      contents := contents + p[..n];
    }

    /** The slot a reader looks at for the byte `i` places into the window. */
    lemma HeadSlot(i: nat)
      requires Valid() && i < |contents|
      ensures And(Add32(rhead, i), mask) < buf.Length && buf[And(Add32(rhead, i), mask)] == contents[i]
    {
      MaskedSlot(rhead, i, bits);
      assert buf[..][Slot(rhead, i, |buf[..]|)] == contents[i];
    }

    /** The state after the reader's index has moved past the first `n` bytes. */
    lemma HeadAfter(n: nat)
      requires Valid() && n <= |contents|
      ensures Sub32(wtail, Add32(rhead, n)) == |contents[n..]|
      ensures Holds(buf[..], Add32(rhead, n), contents[n..])
    {
      HeadAdvance(wtail, rhead, n);
      assert Holds(buf[..], rhead + n, contents[n..]) by {
        HoldsDrop(buf[..], rhead, contents, n);
      }
      assert Holds(buf[..], (rhead + n) % WRAP, contents[n..]) by {
        HoldsWrapped(buf[..], rhead + n, contents[n..], bits);
      }
    }

    /** Releases the first `n` bytes to the writer. */
    method Advance(n: nat)
      requires Valid() && n <= |contents|
      modifies `rhead, `contents
      ensures Valid() && contents == old(contents)[n..]
    {
      HeadAfter(n);
      rhead := Add32(rhead, n);
      contents := contents[n..];
    }

    /** The copy loop shared by Read and Bytes. */
    method CopyOut(p: array<byte>, n: nat)
      requires Valid() && p != buf && n <= p.Length && n <= |contents|
      modifies p
      ensures p[..] == contents[..n] + old(p[n..])
    {
      for i := 0 to n
        invariant p[..i] == contents[..i]
        invariant p[i..] == old(p[i..])
      {
        var b := Get(i);
        p[i] := b;
        assert p[..i + 1] == p[..i] + [contents[i]];
      }
    }

    /** Moves up to `p.Length` bytes into `p`; the flag says that there were none. */
    method Read(p: array<byte>) returns (n: nat, empty: bool)
      requires Valid() && p != buf
      modifies this, p
      ensures Valid() && wtail == old(wtail)
      ensures empty <==> old(contents) == []
      ensures n == if p.Length <= |old(contents)| then p.Length else |old(contents)|
      ensures p[..] == old(contents)[..n] + old(p[n..]) && contents == old(contents)[n..]
    {
      var avail := Sub32(wtail, rhead);
      if avail == 0 {
        return 0, true;
      }
      n := if p.Length > avail then avail else p.Length;
      empty := false;
      CopyOut(p, n);
      Advance(n);
    }

    method WriteByte(c: byte) returns (ok: bool)
      requires Valid()
      modifies this, buf
      ensures Valid() && rhead == old(rhead)
      ensures ok <==> |old(contents)| < mask
      ensures contents == if ok then old(contents) + [c] else old(contents)
    {
      if Sub32(wtail, rhead) >= mask {
        return false;
      }
      Put(0, c, contents);
      TailAfter(1);
      wtail := Add32(wtail, 1);
      contents := contents + [c];
      return true;
    }

    method ReadByte() returns (b: byte, ok: bool)
      requires Valid()
      modifies this
      ensures Valid() && wtail == old(wtail)
      ensures ok <==> old(contents) != []
      ensures if ok then old(contents) == [b] + contents else contents == old(contents)
    {
      if wtail == rhead {
        return 0, false;
      }
      b := Get(0);
      Advance(1);
      return b, true;
    }

    /**
     Up to `n` bytes without consuming them, as the range `start..end` of the array; fewer when the
     bytes run past the array's end, where only the contiguous part is given. A negative `n`, or an array
     of 2^32 bytes, can give the slice expression wrong bounds.
     */
    method Peek(n: int) returns (panics: bool, start: nat, end: nat)
      requires Valid()
      ensures var m := if n > |contents| then |contents| else n;
              if m == 0 then !panics && start == end == 0
              else start == rhead % buf.Length && end == PeekEnd(start, m, buf.Length) && (panics <==> end < start)
      ensures n >= 0 && bits < 32 ==>
                && !panics && start <= end <= buf.Length
                && end - start <= n && end - start <= |contents| && buf[start..end] == contents[..end - start]
                && (end - start == n || end - start == |contents| || end == buf.Length)
    {
      var avail := Sub32(wtail, rhead);
      var m := if n > avail then avail else n;
      if m == 0 {
        return false, 0, 0;
      }
      start, end := PeekBounds(m);
      panics := end < start;
      if n >= 0 && bits < 32 {
        PeekIsContiguous(m);
      }
    }

    /** The slice's bounds, computed in 32 bits. */
    method PeekBounds(m: int) returns (start: nat, end: nat)
      requires Valid()
      ensures start == rhead % buf.Length && end == PeekEnd(start, m, buf.Length)
    {
      start := HeadIndex();
      end := (start + m) % WRAP;
      if end > buf.Length % WRAP {
        end := buf.Length % WRAP;
      }
    }

    lemma PeekIsContiguous(m: nat)
      requires Valid() && bits < 32 && m <= |contents|
      ensures var start := rhead % buf.Length;
              var end := PeekEnd(start, m, buf.Length);
              && end == (if start + m <= buf.Length then start + m else buf.Length)
              && start <= end <= buf.Length && end - start <= m && buf[start..end] == contents[..end - start]
    {
      var start := rhead % buf.Length;
      var end := PeekEnd(start, m, buf.Length);
      assert end == (if start + m <= buf.Length then start + m else buf.Length) && start <= end by {
        WrapIsPow2();
        Pow2Monotone(bits, 31);
        PeekEndIs(start, m, buf.Length);
      }
      ContiguousPart(buf[..], rhead, contents, end - start);
      assert buf[start..end] == buf[..][start..end];
    }

    /** The array position of the head. */
    method HeadIndex() returns (start: nat)
      requires Valid()
      ensures start == rhead % buf.Length
    {
      AndMask(rhead, bits);
      start := And(rhead, mask);
    }

    method Discard(n: int)
      requires Valid()
      modifies this
      ensures Valid() && wtail == old(wtail)
      ensures contents == if n <= 0 then old(contents) else if n >= |old(contents)| then [] else old(contents)[n..]
    {
      if n <= 0 {
        return;
      }
      var avail := Sub32(wtail, rhead);
      var m := if n > avail then avail else n;
      Advance(m);
    }

    method Reset()
      requires Valid()
      modifies this
      ensures Valid() && contents == []
    {
      rhead, wtail, contents := 0, 0, [];
    }

    method Bytes() returns (p: array<byte>)
      requires Valid()
      ensures fresh(p) && p[..] == contents
    {
      var l := Sub32(wtail, rhead);
      p := new byte[l](_ => 0);
      CopyOut(p, l);
    }
  }
}
