/** The data of one part of a streamed multipart body (section 5.1.1 of RFC 2046): the states
    MPS_WAITING_FOR_CHUNK and MPS_GOT_CHUNK of mongoose's machine, as a function of the bytes. */
module MultipartPart {
  import opened Bytes

  /** CR LF - - : what stands between the data and the boundary string. */
  const DELIMITER: bytes := [13, 10, 45, 45]

  type Boundary = x: bytes | x != [] witness [45]

  predicate OccursAt(b: bytes, x: Boundary, i: int) {
    0 <= i && i + |x| <= |b| && b[i..i + |x|] == x
  }

  /** c_strnstr: where `x` first occurs in `b`, or -1. */
  function FirstIndex(b: bytes, x: Boundary): (r: int)
    ensures r == -1 || OccursAt(b, x, r)
    ensures forall i :: 0 <= i && (r == -1 || i < r) ==> !OccursAt(b, x, i)
    decreases |b|
  {
    if |b| < |x| then -1
    else if b[..|x|] == x then 0
    else
      var r := FirstIndex(b[1..], x);
      assert forall i :: OccursAt(b, x, i) && i > 0 ==> OccursAt(b[1..], x, i - 1) by {
        forall i | OccursAt(b, x, i) && i > 0
          ensures OccursAt(b[1..], x, i - 1)
        {
          assert b[1..][i - 1..i - 1 + |x|] == b[i..i + |x|];
        }
      }
      if r == -1 then -1
      else
        assert b[1..][r..r + |x|] == b[r + 1..r + 1 + |x|];
        r + 1
  }

  lemma FirstIndexBounds(b: bytes, x: Boundary)
    ensures -1 <= FirstIndex(b, x) <= |b|
  {
    var r := FirstIndex(b, x);
    assert r == -1 || OccursAt(b, x, r);
  }

  lemma FirstIndexUnique(b: bytes, x: Boundary, k: int)
    requires k == -1 || OccursAt(b, x, k)
    requires forall i :: 0 <= i && (k == -1 || i < k) ==> !OccursAt(b, x, i)
    ensures FirstIndex(b, x) == k
  {
    var r := FirstIndex(b, x);
    assert r >= 0 ==> OccursAt(b, x, r);
    assert k >= 0 ==> OccursAt(b, x, k);
  }

  /** One MG_EV_HTTP_PART_DATA: the size as the C code computes it, an int that may be negative, and the bytes it
      counts. The handler's `data.len` is the size as a size_t. */
  datatype PartData = PartData(size: int, data: bytes) {
    function Length(): nat { size % TWO_64 }
  }

  /** The first `size` bytes of the buffer are announced. */
  function Announce(io: bytes, size: int): PartData
    requires size <= |io|
  {
    PartData(size, if size < 0 then [] else io[..size])
  }

  /** Every size announced is that of its data. */
  predicate Real(announced: seq<PartData>) {
    forall i :: 0 <= i < |announced| ==> announced[i].size == |announced[i].data|
  }

  /** The data announced, joined. */
  function Sent(announced: seq<PartData>): bytes {
    if announced == [] then [] else announced[0].data + Sent(announced[1..])
  }

  lemma {:induction false} SentSnoc(announced: seq<PartData>, a: PartData)
    ensures Sent(announced + [a]) == Sent(announced) + a.data
  {
    if announced == [] {
      assert announced + [a] == [a] && [a][1..] == [];
    } else {
      SentSnoc(announced[1..], a);
      ConcatCut(announced, [a], 1);
      ConcatAssoc(announced[0].data, Sent(announced[1..]), a.data);
    }
  }

  /** The receive buffer, `mp_stream.prev_io_len`, the PART_DATA announcements so far; `found` once the
      machine waits for the boundary line. */
  datatype PartState = PartState(io: bytes, prev: nat, announced: seq<PartData>, found: bool)

  /** mg_http_multipart_continue, from MPS_WAITING_FOR_CHUNK until it returns or leaves the part. */
  function Continue(s: PartState, x: Boundary): PartState {
    var at := FirstIndex(s.io, x);
    FirstIndexBounds(s.io, x);
    if |s.io| < |x| + 6 then s
    else if at == -1 && s.prev == 0 then s.(prev := |s.io|)
    else if at == -1 && |s.io| > s.prev + |x| + 4 then
      PartState(s.io[s.prev..], 0, s.announced + [Announce(s.io, s.prev)], false)
    else if at == -1 then s
    else PartState(s.io[at..], 0, s.announced + [Announce(s.io, at - 4)], true)
  }

  /** Pieces arrive; once the part has ended, what comes later only joins the buffer. */
  function Arrive(s: PartState, pieces: seq<bytes>, x: Boundary): PartState
    decreases |pieces|
  {
    if pieces == [] then s
    else
      var s1 := s.(io := s.io + pieces[0]);
      Arrive(if s.found then s1 else Continue(s1, x), pieces[1..], x)
  }

  const Start := PartState([], 0, [], false)

  // ---------- What every step keeps ----------

  /** What is announced in all for a boundary at `d`: the bytes before the delimiter at `d - 4`, or, when there is
      no room for one, a negative size. */
  ghost predicate Announced(announced: seq<PartData>, seen: bytes, d: nat)
    requires d <= |seen|
  {
    if d < 4 then announced == [PartData(d - 4, [])]
    else Real(announced) && Sent(announced) == seen[..d - 4]
  }

  /** The announced data and the buffer make up the bytes so far; no data reaches the delimiter; and while the part
      goes on, the buffer holds no boundary that could already be seen. */
  ghost predicate Holds(s: PartState, seen: bytes, x: Boundary, d: nat) {
    var out := Sent(s.announced);
    if s.found then d <= |seen| && Announced(s.announced, seen, d) && s.io == seen[d..]
    else
      && Real(s.announced)
      && out + s.io == seen
      && (s.announced == [] || |out| + 4 <= d)
      && (|s.io| < |x| + 6 || FirstIndex(s.io, x) == -1)
  }

  lemma WindowOccurs(stream: bytes, x: Boundary, out: bytes, io: bytes, future: bytes, i: int)
    requires stream == out + (io + future)
    requires 0 <= i && i + |x| <= |io|
    ensures OccursAt(io, x, i) <==> OccursAt(stream, x, |out| + i)
  {
    ConcatParts(stream, out, io, future);
    SliceOfSlice(stream, |out|, |io|, i, i + |x|);
  }

  /** Where the first boundary of a stream shows in a window of it. */
  lemma WindowIndex(stream: bytes, x: Boundary, d: nat, out: bytes, io: bytes, future: bytes)
    requires stream == out + (io + future) && FirstIndex(stream, x) == d
    requires |out| <= d
    ensures FirstIndex(io, x) == if d + |x| <= |out| + |io| then d - |out| else -1
  {
    var e := |out|;
    var k := if d + |x| <= e + |io| then d - e else -1;
    forall i | 0 <= i && (k == -1 || i < k)
      ensures !OccursAt(io, x, i)
    {
      if i + |x| <= |io| {
        WindowOccurs(stream, x, out, io, future, i);
      }
    }
    if k >= 0 {
      WindowOccurs(stream, x, out, io, future, k);
    }
    FirstIndexUnique(io, x, k);
  }

  lemma CutAcross<T>(a: seq<T>, b: seq<T>, k: nat)
    requires k <= |b|
    ensures (a + b)[..|a| + k] == a + b[..k]
    ensures (a + b)[|a| + k..] == b[k..]
  {
  }

  lemma NothingSent()
    ensures Real([]) && Sent([]) == []
  {
  }

  lemma RealSnoc(announced: seq<PartData>, a: PartData)
    requires Real(announced) && a.size == |a.data|
    ensures Real(announced + [a])
  {
  }

  /** MPS_GOT_CHUNK: what is sent ends before any boundary that may still come. */
  lemma GotChunkKeeps(s: PartState, stream: bytes, seen: bytes, x: Boundary, d: nat, future: bytes)
    requires FirstIndex(stream, x) == d && stream == seen + future
    requires Sent(s.announced) + s.io == seen && |Sent(s.announced)| <= d && !s.found && Real(s.announced)
    requires FirstIndex(s.io, x) == -1 && s.prev > 0 && |s.io| > s.prev + |x| + 4
    ensures Holds(PartState(s.io[s.prev..], 0, s.announced + [Announce(s.io, s.prev)], false), seen, x, d)
  {
    hide Real, Sent;
    var out := Sent(s.announced);
    var sent, kept := s.io[..s.prev], s.io[s.prev..];
    SentSnoc(s.announced, Announce(s.io, s.prev));
    RealSnoc(s.announced, Announce(s.io, s.prev));
    ConcatAssoc(out, s.io, future);
    WindowIndex(stream, x, d, out, s.io, future);
    assert s.io == sent + kept;
    ConcatAssoc(out, sent, kept);
    ConcatAssoc(out + sent, kept, future);
    WindowIndex(stream, x, d, out + sent, kept, future);
  }

  /** The boundary is there: the bytes before the delimiter are sent and the part is over. */
  lemma FoundKeeps(s: PartState, stream: bytes, seen: bytes, x: Boundary, d: nat, future: bytes)
    requires FirstIndex(stream, x) == d && stream == seen + future
    requires Sent(s.announced) + s.io == seen && Real(s.announced) && !s.found
    requires s.announced == [] || |Sent(s.announced)| + 4 <= d
    requires FirstIndex(s.io, x) == d - |Sent(s.announced)| >= 0
    ensures var at := FirstIndex(s.io, x);
            && at <= |s.io|
            && Holds(PartState(s.io[at..], 0, s.announced + [Announce(s.io, at - 4)], true), seen, x, d)
  {
    var out, at := Sent(s.announced), FirstIndex(s.io, x);
    FirstIndexBounds(s.io, x);
    hide FirstIndex, Real, Sent;
    NothingSent();
    if d < 4 {
      assert s.announced == [] && seen == s.io by { assert [] + s.io == s.io; }
      assert [] + [Announce(s.io, d - 4)] == [PartData(d - 4, [])];
    } else {
      DataSent(s.announced, s.io, at);
    }
  }

  lemma DataSent(announced: seq<PartData>, io: bytes, at: nat)
    requires at <= |io| && Real(announced) && at >= 4
    ensures var seen := Sent(announced) + io; var d := |Sent(announced)| + at;
            && Real(announced + [Announce(io, at - 4)])
            && Sent(announced + [Announce(io, at - 4)]) == seen[..d - 4]
            && io[at..] == seen[d..]
  {
    hide Real, Sent;
    SentSnoc(announced, Announce(io, at - 4));
    RealSnoc(announced, Announce(io, at - 4));
    CutAcross(Sent(announced), io, at);
    CutAcross(Sent(announced), io, at - 4);
  }

  lemma ContinueKeeps(s: PartState, stream: bytes, seen: bytes, x: Boundary, d: nat, piece: bytes, future: bytes)
    requires FirstIndex(stream, x) == d && stream == seen + piece + future
    requires Holds(s, seen, x, d) && !s.found
    ensures Holds(Continue(s.(io := s.io + piece), x), seen + piece, x, d)
    ensures var now := Continue(s.(io := s.io + piece), x);
            !now.found && now.announced != s.announced ==>
              |s.io + piece| >= s.prev && now.announced == s.announced + [PartData(s.prev, (s.io + piece)[..s.prev])]
              && now.io == (s.io + piece)[s.prev..] && now.prev == 0
  {
    hide Real, Sent;
    var s1 := s.(io := s.io + piece);
    var out, at := Sent(s.announced), FirstIndex(s1.io, x);
    NothingSent();
    ConcatAssoc(out, s.io, piece);
    ConcatAssoc(out, s1.io, future);
    WindowIndex(stream, x, d, out, s1.io, future);
    if |s1.io| >= |x| + 6 {
      if at == -1 && s1.prev > 0 && |s1.io| > s1.prev + |x| + 4 {
        GotChunkKeeps(s1, stream, seen + piece, x, d, future);
      } else if at >= 0 {
        FoundKeeps(s1, stream, seen + piece, x, d, future);
      }
    }
  }

  lemma EndedKeeps(s: PartState, seen: bytes, x: Boundary, d: nat, piece: bytes)
    requires Holds(s, seen, x, d) && s.found
    ensures Holds(s.(io := s.io + piece), seen + piece, x, d)
  {
    hide Real, Sent;
    ConcatCut(seen, piece, d);
    if d >= 4 {
      ConcatCut(seen, piece, d - 4);
    }
  }

  lemma {:induction false} ArriveKeeps(s: PartState, stream: bytes, seen: bytes, pieces: seq<bytes>, x: Boundary,
                                       d: nat)
    requires FirstIndex(stream, x) == d && stream == seen + Flatten(pieces)
    requires Holds(s, seen, x, d)
    ensures Holds(Arrive(s, pieces, x), stream, x, d)
    decreases |pieces|
  {
    hide Holds, Continue;
    if pieces == [] {
      assert seen + [] == seen;
    } else {
      var s1 := s.(io := s.io + pieces[0]);
      ConcatAssoc(seen, pieces[0], Flatten(pieces[1..]));
      if s.found {
        EndedKeeps(s, seen, x, d, pieces[0]);
        ArriveKeeps(s1, stream, seen + pieces[0], pieces[1..], x, d);
      } else {
        ContinueKeeps(s, stream, seen, x, d, pieces[0], Flatten(pieces[1..]));
        ArriveKeeps(Continue(s1, x), stream, seen + pieces[0], pieces[1..], x, d);
      }
    }
  }

  /** With enough bytes the machine cannot still be waiting: two behind the boundary, and six besides it in all. */
  lemma EndIsSeen(s: PartState, stream: bytes, x: Boundary, d: nat)
    requires FirstIndex(stream, x) == d && d + |x| + 2 <= |stream| && |x| + 6 <= |stream|
    requires Holds(s, stream, x, d)
    ensures s.found
  {
    hide FirstIndex;
    if !s.found {
      var out := Sent(s.announced);
      assert s.io + [] == s.io;
      WindowIndex(stream, x, d, out, s.io, []);
    }
  }

  /** Whatever the stream and however it arrives, the part ends at the first boundary: the buffer begins with it,
      and the data announced joins to exactly the bytes before its delimiter. With fewer than four bytes before the
      boundary there is one announcement, of a negative size, and no data. Two bytes must follow the boundary. */
  lemma DataBeforeFirstBoundary(stream: bytes, x: Boundary, d: nat, pieces: seq<bytes>)
    requires FirstIndex(stream, x) == d && d + |x| + 2 <= |stream| && |x| + 6 <= |stream|
    requires Flatten(pieces) == stream
    ensures var s := Arrive(Start, pieces, x);
            && s.found && s.io == stream[d..]
            && if d < 4 then s.announced == [PartData(d - 4, [])]
               else Real(s.announced) && Sent(s.announced) == stream[..d - 4]
  {
    hide Arrive, FirstIndex, Real;
    assert [] + stream == stream;
    NothingSent();
    assert Holds(Start, [], x, d);
    ArriveKeeps(Start, stream, [], pieces, x, d);
    EndIsSeen(Arrive(Start, pieces, x), stream, x, d);
  }

  /** The part always ends where the boundary first occurs. What is announced is the part's body, with nothing
      lost, repeated or taken from the delimiter and no size but that of the data, exactly when that is behind the
      body's own delimiter. */
  lemma PayloadsAreBody(body: bytes, x: Boundary, tail: bytes, pieces: seq<bytes>)
    requires |tail| >= 2 && Flatten(pieces) == body + [13, 10, 45, 45] + x + tail
    ensures var s := Arrive(Start, pieces, x); var d := FirstIndex(body + [13, 10, 45, 45] + x + tail, x);
            && 0 <= d <= |body| + 4
            && s.found && s.io == (body + [13, 10, 45, 45] + x + tail)[d..]
            && (Real(s.announced) && Sent(s.announced) == body <==> d == |body| + 4)
  {
    hide Arrive;
    var stream := body + DELIMITER + x + tail;
    var front := body + DELIMITER;
    ConcatAssoc(front, x, tail);
    ConcatParts(stream, front, x, tail);
    assert OccursAt(stream, x, |body| + 4);
    var d := FirstIndex(stream, x);
    assert d == -1 || OccursAt(stream, x, d);
    hide FirstIndex, OccursAt, Real;
    DataBeforeFirstBoundary(stream, x, d, pieces);
    if d == |body| + 4 {
      ConcatCut(front, x + tail, |body|);
      ConcatCut(body, DELIMITER, |body|);
      assert body[|body|..] == [] && body[..|body|] == body;
    } else if d < 4 {
      NotReal(Arrive(Start, pieces, x).announced);
    }
  }

  lemma NotReal(announced: seq<PartData>)
    requires announced != [] && announced[0].size < 0
    ensures !Real(announced)
  {
    assert announced[0].size != |announced[0].data|;
  }

  /** The boundary in front of everything: the handler is told of 2^64 - 4 bytes. */
  lemma BoundaryInFront(x: Boundary, tail: bytes, pieces: seq<bytes>)
    requires |tail| >= 6 && Flatten(pieces) == x + tail
    ensures var s := Arrive(Start, pieces, x);
            && s.found && s.io == x + tail && s.announced == [PartData(-4, [])]
            && s.announced[0].Length() == TWO_64 - 4
  {
    var stream := x + tail;
    assert OccursAt(stream, x, 0);
    assert FirstIndex(stream, x) == 0;
    DataBeforeFirstBoundary(stream, x, 0, pieces);
  }

  /** A boundary string the delimiter itself contains: the hyphen of an empty part. */
  lemma HyphenBoundary(tail: bytes, pieces: seq<bytes>)
    requires |tail| >= 2 && Flatten(pieces) == [] + [13, 10, 45, 45] + [45] + tail
    ensures Arrive(Start, pieces, [45]).announced == [PartData(-2, [])]
  {
    var x: Boundary := [45];
    var stream := [] + DELIMITER + x + tail;
    assert stream[0] == 13 && stream[1] == 10 && stream[2] == 45;
    forall i | 0 <= i < 2
      ensures !OccursAt(stream, x, i)
    {
      assert stream[i..i + 1][0] == stream[i];
    }
    assert OccursAt(stream, x, 2) by { assert stream[2..3] == [45]; }
    FirstIndexUnique(stream, x, 2);
    DataBeforeFirstBoundary(stream, x, 2, pieces);
  }
}
