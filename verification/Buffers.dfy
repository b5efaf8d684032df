/** StaticBuffer: a byte buffer that never grows beyond the storage it was made with. */
module Buffers {
  import opened Telnet

  class StaticBuffer {
    const store: array<byte>
    const limit: nat
    var len: nat

    ghost predicate Valid()
      reads this
    {
      limit <= store.Length && len <= Capacity()
    }

    /** A limit of zero stands for the whole storage. */
    function Capacity(): nat {
      if limit == 0 then store.Length else limit
    }

    ghost function Contents(): seq<byte>
      reads this, store
      requires Valid()
    {
      store[..len]
    }

    constructor (size: nat, limit: nat)
      requires limit <= size
      ensures Valid() && Contents() == [] && fresh(store)
      ensures store.Length == size && this.limit == limit
    {
      store := new byte[size](_ => 0);
      this.limit := limit;
      len := 0;
    }

    /** Appends as much of `p` as fits and reports how much that was. */
    method Write(p: seq<byte>) returns (n: nat)
      requires Valid()
      modifies this, store
      ensures Valid()
      ensures Contents() == First(old(Contents()) + p, Capacity())
      ensures n == |Contents()| - |old(Contents())|
      ensures store[..] == Overlay(old(store[..]), Contents())
    {
      var avail := Capacity() - len;
      n := if |p| > avail then avail else |p|;
      ghost var before := store[..];
      for i := 0 to n
        modifies store
        invariant store[..len + i] == before[..len] + p[..i]
        invariant store[len + i..] == before[len + i..]
      {
        store[len + i] := p[i];
        assert store[..len + i + 1] == store[..len + i] + [p[i]];
      }
      len := len + n;
      assert before == before[..old(len)] + before[old(len)..];
      assert store[..] == store[..len] + store[len..];
    }

    /** Appends one byte, or reports failure and changes nothing when the buffer is full. */
    method WriteByte(c: byte) returns (ok: bool)
      requires Valid()
      modifies this, store
      ensures Valid()
      ensures ok <==> old(len) < Capacity()
      ensures Contents() == First(old(Contents()) + [c], Capacity())
      ensures store[..] == Overlay(old(store[..]), Contents())
    {
      if len >= Capacity() {
        return false;
      }
      store[len] := c;
      len := len + 1;
      return true;
    }

    method Reset()
      requires Valid()
      modifies this
      ensures Valid() && Contents() == []
    {
      len := 0;
    }

    /** Drops the first `n` bytes, moving the rest to the front in place; a negative `n` panics. */
    method Advance(n: int) returns (panics: bool)
      requires Valid()
      modifies this, store
      ensures Valid() && (panics <==> n < 0)
      ensures Contents() == if panics then old(Contents()) else if n >= old(len) then [] else old(Contents())[n..]
    {
      if n >= len {
        len := 0;
        return false;
      }
      if n < 0 {
        return true;  // the slice expression's bounds are wrong
      }
      ghost var before := store[..];
      for i := 0 to len - n
        modifies store
        invariant store[..i] == before[n..n + i]
        invariant store[i..] == before[i..]
      {
        assert store[n + i] == store[i..][n] == before[i..][n] == before[n + i];
        store[i] := store[n + i];
        assert store[..i + 1] == store[..i] + [before[n + i]];
      }
      len := len - n;
      panics := false;
      assert store[..len] == before[n..n + len] == before[..len + n][n..];
    }
  }
}
