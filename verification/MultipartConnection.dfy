/** mongoose's streaming multipart machine on the receive buffer, inside one part. */
module MultipartConnection {
  import opened Bytes
  import opened MemoryBuffer
  import opened MultipartPart

  /** MPS_WAITING_FOR_CHUNK, MPS_GOT_CHUNK, MPS_WAITING_FOR_BOUNDARY */
  datatype StreamState = WaitingForChunk | GotChunk | WaitingForBoundary

  /** c_strnstr(a, x, n): the index found, or -1 for NULL. */
  method StrNStr(a: array<byte>, n: nat, x: Boundary) returns (r: int)
    requires n <= a.Length
    ensures r == FirstIndex(a[..n], x)
  {
    var i := 0;
    while i < n
      invariant i <= n
      invariant forall j :: 0 <= j < i ==> !OccursAt(a[..n], x, j)
    {
      if i + |x| > n {
        FirstIndexUnique(a[..n], x, -1);
        return -1;
      }
      PrefixSlices(a[..], n, i, i + |x|);
      if a[i..i + |x|] == x {
        FirstIndexUnique(a[..n], x, i);
        return i;
      }
      i := i + 1;
    }
    FirstIndexUnique(a[..n], x, -1);
    return -1;
  }

  class Connection {
    const recv: Mbuf
    const boundary: Boundary
    var state: StreamState
    /** mp_stream.prev_io_len */
    var prevIoLen: nat
    /** What MG_EV_HTTP_PART_DATA was raised with. */
    var announced: seq<PartData>

    ghost predicate Valid()
      reads this, recv
    {
      recv.Valid() && prevIoLen <= recv.len
    }

    /** The connection between two arrivals. */
    ghost function View(): PartState
      requires Valid()
      reads this, recv, recv.buf
    {
      PartState(recv.Contents(), prevIoLen, announced, state == WaitingForBoundary)
    }

    constructor (recv: Mbuf, boundary: Boundary)
      requires recv.Valid() && recv.len == 0
      ensures Valid() && this.recv == recv && this.boundary == boundary
      ensures View() == Start && state == WaitingForChunk
    {
      this.recv, this.boundary := recv, boundary;
      state, prevIoLen, announced := WaitingForChunk, 0, [];
    }

    /** mg_http_multipart_call_handler with MG_EV_HTTP_PART_DATA */
    method CallHandler(n: int)
      requires Valid() && n <= recv.len
      modifies `announced
      ensures announced == old(announced) + [Announce(recv.Contents(), n)]
    {
      if n >= 0 {
        PrefixSlices(recv.buf[..], recv.len, n, n);
        announced := announced + [PartData(n, recv.buf[..n])];
      } else {
        announced := announced + [PartData(n, [])];
      }
    }

    /** mg_http_multipart_got_chunk */
    method GotChunkStep() returns (more: bool)
      requires Valid() && state == GotChunk
      modifies this, recv, recv.buf
      ensures Valid() && recv.buf == old(recv.buf) && !more
      ensures View() == old(PartState(recv.Contents()[prevIoLen..], 0,
                                      announced + [Announce(recv.Contents(), prevIoLen)], false))
      ensures state == WaitingForChunk
    {
      CallHandler(prevIoLen);
      recv.Remove(prevIoLen);
      prevIoLen := 0;
      state := WaitingForChunk;
      return false;
    }

    /** The boundary is at `at`: what the C code takes for the data before its delimiter is sent and removed. */
    method EndPart(at: nat)
      requires Valid() && at <= recv.len
      modifies this, recv, recv.buf
      ensures Valid() && recv.buf == old(recv.buf)
      ensures View() == old(PartState(recv.Contents()[at..], 0,
                                      announced + [Announce(recv.Contents(), at - 4)], true))
    {
      CallHandler(at - 4);
      recv.Remove(at);
      prevIoLen := 0;
      state := WaitingForBoundary;
    }

    /** mg_http_multipart_continue_wait_for_chunk */
    method WaitForChunkStep() returns (more: bool)
      requires Valid() && state == WaitingForChunk
      modifies this, recv, recv.buf
      ensures Valid() && recv.buf == old(recv.buf)
      ensures more == (state != WaitingForChunk)
      ensures state == GotChunk ==> recv.Contents() == old(recv.Contents()) && prevIoLen == old(prevIoLen)
                                    && announced == old(announced)
      ensures var s := Continue(old(View()), boundary);
              if state == GotChunk
              then s == PartState(recv.Contents()[prevIoLen..], 0,
                                  announced + [Announce(recv.Contents(), prevIoLen)], false)
              else View() == s
    {
      hide FirstIndex, Announce;
      if recv.len < |boundary| + 6 {
        return false;
      }
      var at := StrNStr(recv.buf, recv.len, boundary);
      if at == -1 && prevIoLen == 0 {
        prevIoLen := recv.len;
        return false;
      } else if at == -1 && recv.len > prevIoLen + |boundary| + 4 {
        state := GotChunk;
        return true;
      } else if at != -1 {
        FirstIndexBounds(recv.Contents(), boundary);
        EndPart(at);
        return true;
      } else {
        return false;
      }
    }

    /** mg_http_multipart_continue, as long as the machine is inside the part. */
    method ContinuePart()
      requires Valid() && state == WaitingForChunk
      modifies this, recv, recv.buf
      ensures Valid() && recv.buf == old(recv.buf)
      ensures View() == Continue(old(View()), boundary) && state != GotChunk
    {
      hide Continue;
      var more := WaitForChunkStep();
      if more && state == GotChunk {
        more := GotChunkStep();
      }
    }

    /** Bytes arrive; the machine runs if it is still inside the part. */
    method OnReceive(piece: bytes)
      requires Valid() && state != GotChunk
      modifies this, recv, recv.buf
      ensures Valid() && (recv.buf == old(recv.buf) || fresh(recv.buf)) && state != GotChunk
      ensures var s := old(View()).(io := old(recv.Contents()) + piece);
              View() == if s.found then s else Continue(s, boundary)
    {
      hide Continue;
      var stored := recv.Append(piece, true);
      if state == WaitingForChunk {
        ContinuePart();
      }
    }
  }

  /** A whole run from MPS_WAITING_FOR_CHUNK. */
  method ReceiveAll(nc: Connection, pieces: seq<bytes>)
    requires nc.Valid() && nc.state != GotChunk
    modifies nc, nc.recv, nc.recv.buf
    ensures nc.Valid() && nc.state != GotChunk
    ensures nc.View() == Arrive(old(nc.View()), pieces, nc.boundary)
    decreases |pieces|
  {
    hide Continue;
    if pieces != [] {
      nc.OnReceive(pieces[0]);
      ReceiveAll(nc, pieces[1..]);
    }
  }
}
