/** The growable byte buffer of mongoose (struct mbuf). */
module MemoryBuffer {
  import opened Bytes

  /** The capacity after growth: 1.5 times the bytes needed (MBUF_SIZE_MULTIPLIER). */
  function GrownSize(needed: nat): (r: nat)
    ensures r >= needed
  {
    needed * 3 / 2
  }

  /** `buf.Length` is the C field `size`; the bytes in use are buf[..len]. */
  class Mbuf {
    var buf: array<byte>
    var len: nat

    ghost predicate Valid()
      reads this
    {
      len <= buf.Length
    }

    ghost function Contents(): bytes
      requires Valid()
      reads this, buf
    {
      buf[..len]
    }

    /** mbuf_init */
    constructor (initialSize: nat)
      ensures Valid() && fresh(buf) && Contents() == [] && buf.Length == initialSize
    {
      buf := new byte[initialSize];
      len := 0;
    }

    /** mbuf_resize: a size below `len` is refused; `granted` is the allocator's answer. */
    method Resize(newSize: nat, granted: bool)
      requires Valid()
      modifies this
      ensures Valid() && Contents() == old(Contents())
      ensures buf == old(buf) || fresh(buf)
      ensures buf.Length == if granted && newSize >= len then newSize else old(buf.Length)
    {
      if newSize > buf.Length || (newSize < buf.Length && newSize >= len) {
        if !granted {
          return;
        }
        var bigger := new byte[newSize];
        CopyAll(buf[..len], bigger);
        buf := bigger;
      }
    }

    /** mbuf_trim */
    method Trim(granted: bool)
      requires Valid()
      modifies this
      ensures Valid() && Contents() == old(Contents())
      ensures buf == old(buf) || fresh(buf)
      ensures granted ==> buf.Length == len
    {
      Resize(len, granted);
    }

    /** mbuf_insert with a non-NULL `data`: how many bytes were stored, all of them or none. */
    method Insert(off: nat, data: bytes, granted: bool) returns (stored: nat)
      requires Valid() && off <= len
      modifies this, buf
      ensures Valid() && (buf == old(buf) || fresh(buf))
      ensures stored == if old(len) + |data| <= old(buf.Length) || granted then |data| else 0
      ensures stored == |data| ==> Contents() == old(Contents())[..off] + data + old(Contents())[off..]
      ensures stored != |data| ==> Contents() == old(Contents())
      ensures buf.Length == if old(len) + |data| <= old(buf.Length) || !granted then old(buf.Length)
                            else (old(len) + |data|) * 3 / 2
    {
      ghost var was := Contents();
      if len + |data| <= buf.Length {
        assert was[..off] == buf[..off] && was[off..] == buf[off..len];
        InsertInPlace(buf, off, len, data);
        len := len + |data|;
        stored := |data|;
      } else if granted {
        var bigger := new byte[GrownSize(len + |data|)];
        CopyAll(buf[..off] + data + buf[off..len], bigger);
        buf := bigger;
        len := len + |data|;
        stored := |data|;
        assert buf[..len] == was[..off] + data + was[off..];
      } else {
        stored := 0;
      }
    }

    /** mbuf_append */
    method Append(data: bytes, granted: bool) returns (stored: nat)
      requires Valid()
      modifies this, buf
      ensures Valid() && (buf == old(buf) || fresh(buf))
      ensures stored == if old(len) + |data| <= old(buf.Length) || granted then |data| else 0
      ensures stored == |data| ==> Contents() == old(Contents()) + data
      ensures stored != |data| ==> Contents() == old(Contents())
    {
      ghost var was := Contents();
      stored := Insert(len, data, granted);
      assert was[..|was|] + data + was[|was|..] == was + data;
    }

    /** mbuf_append with a NULL source: `n` bytes of room, whose values are whatever memory held. */
    method Reserve(n: nat, granted: bool) returns (stored: nat)
      requires Valid()
      modifies this, buf
      ensures Valid() && (buf == old(buf) || fresh(buf))
      ensures stored == if old(len) + n <= old(buf.Length) || granted then n else 0
      ensures len == old(len) + stored
      ensures Contents()[..old(len)] == old(Contents())
      ensures buf.Length == if old(len) + n <= old(buf.Length) || !granted then old(buf.Length)
                            else (old(len) + n) * 3 / 2
    {
      if len + n <= buf.Length {
        len := len + n;
        stored := n;
      } else if granted {
        var bigger := new byte[GrownSize(len + n)];
        CopyAll(buf[..len], bigger);
        buf := bigger;
        len := len + n;
        stored := n;
      } else {
        stored := 0;
      }
    }

    /** mbuf_remove: `n` bytes off the front; more than there are is ignored. */
    method Remove(n: nat)
      requires Valid()
      modifies this, buf
      ensures Valid() && buf == old(buf)
      ensures Contents() == if n <= old(len) then old(Contents())[n..] else old(Contents())
    {
      if n > 0 && n <= len {
        assert old(Contents())[n..] == buf[n..len];
        MoveDown(buf, 0, n, len - n);
        len := len - n;
      }
    }

    static method CopyAll(data: bytes, into: array<byte>)
      requires |data| <= into.Length
      modifies into
      ensures into[..|data|] == data
    {
      CopyBytes(into, 0, data);
    }

    /** The memmove and the memcpy of mbuf_insert when the buffer is large enough. */
    static method InsertInPlace(a: array<byte>, off: nat, len: nat, data: bytes)
      requires off <= len && len + |data| <= a.Length
      modifies a
      ensures a[..len + |data|] == old(a[..off]) + data + old(a[off..len])
    {
      forall i | off + |data| <= i < len + |data| {
        a[i] := a[i - |data|];
      }
      forall i | off <= i < off + |data| {
        a[i] := data[i - off];
      }
      assert a[off + |data|..len + |data|] == old(a[off..len]);
      assert a[..off] == old(a[..off]);
      assert a[off..off + |data|] == data;
    }
  }
}
