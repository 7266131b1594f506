/** In-place removal of "." and ".." segments from a URI path
    (mg_normalize_uri_path), proved equal to the algorithm of section 5.2.4 of RFC 3986. */
module UriPath {
  import opened Bytes

  const DOT: byte := 46

  /** Where the first '/' of `s` is, or |s|. */
  function SlashIndex(s: bytes): (k: nat)
    ensures k <= |s|
    ensures forall i :: 0 <= i < k ==> s[i] != SLASH
    ensures k < |s| ==> s[k] == SLASH
  {
    if s == [] || s[0] == SLASH then 0 else 1 + SlashIndex(s[1..])
  }

  lemma {:induction false} SlashIndexUnique(s: bytes, k: nat)
    requires k <= |s|
    requires forall i :: 0 <= i < k ==> s[i] != SLASH
    requires k < |s| ==> s[k] == SLASH
    ensures SlashIndex(s) == k
  {
    if 0 < k {
      SlashIndexUnique(s[1..], k - 1);
    }
  }

  // ---------- The algorithm of RFC 3986, section 5.2.4 ----------

  function LastSlash(s: bytes): (k: int)
    ensures -1 <= k < |s|
    ensures forall i :: k < i < |s| ==> s[i] != SLASH
    ensures 0 <= k ==> s[k] == SLASH
  {
    if s == [] then -1
    else if s[|s| - 1] == SLASH then |s| - 1
    else LastSlash(s[..|s| - 1])
  }

  /** The output buffer without its last segment and the '/' before it, if any. */
  function DropLastSegment(output: bytes): bytes {
    if LastSlash(output) < 0 then [] else output[..LastSlash(output)]
  }

  /** Steps 2A to 2E, applied until the input buffer is empty. */
  function RemoveDotSegments(input: bytes, output: bytes): bytes
    decreases |input|
  {
    if input == [] then output
    else if input == [DOT] || input == [DOT, DOT] then output                            // 2D
    else if |input| >= 3 && input[0] == DOT && input[1] == DOT && input[2] == SLASH then
      RemoveDotSegments(input[3..], output)                                             // 2A
    else if |input| >= 2 && input[0] == DOT && input[1] == SLASH then
      RemoveDotSegments(input[2..], output)                                             // 2A
    else if |input| >= 3 && input[0] == SLASH && input[1] == DOT && input[2] == SLASH then
      RemoveDotSegments(input[2..], output)                                             // 2B
    else if input == [SLASH, DOT] then
      RemoveDotSegments([SLASH], output)                                                // 2B
    else if |input| >= 4 && input[0] == SLASH && input[1] == DOT && input[2] == DOT && input[3] == SLASH then
      RemoveDotSegments(input[3..], DropLastSegment(output))                            // 2C
    else if input == [SLASH, DOT, DOT] then
      RemoveDotSegments([SLASH], DropLastSegment(output))                               // 2C
    else
      var k := 1 + SlashIndex(input[1..]);
      RemoveDotSegments(input[k..], output + input[..k])                                // 2E
  }

  /** The two examples of section 5.2.4 of RFC 3986: /a/b/c/./../../g and mid/content=5/../6. */
  lemma RfcExamples()
    ensures RemoveDotSegments([47, 97] + ([47, 98] + ([47, 99] + ([47, 46] + ([47, 46, 46] + ([47, 46, 46]
                              + [47, 103]))))), []) == [47, 97] + [47, 103]
    ensures RemoveDotSegments([109, 105, 100] + ([47, 99, 111, 110, 116, 101, 110, 116, 61, 53] + ([47, 46, 46]
                              + [47, 54])), []) == [109, 105, 100] + [47, 54]
  {
    hide RemoveDotSegments;
    var a, b, c, g := [47, 97], [47, 98], [47, 99], [47, 103];
    var rest := [47, 46] + ([47, 46, 46] + ([47, 46, 46] + g));
    OneSegment(a, b + (c + rest), []);
    OneSegment(b, c + rest, [] + a);
    OneSegment(c, rest, [] + a + b);
    SingleDot([47, 46, 46] + ([47, 46, 46] + g), [] + a + b + c);
    assert [] + a == a;
    DoubleDot([47, 46, 46] + g, a + b, c);
    DoubleDot(g, a, b);
    LastOne(g, a);

    var mid, content, six := [109, 105, 100], [47, 99, 111, 110, 116, 101, 110, 116, 61, 53], [47, 54];
    OneSegment(mid, content + ([47, 46, 46] + six), []);
    OneSegment(content, [47, 46, 46] + six, [] + mid);
    assert [] + mid == mid;
    DoubleDot(six, mid, content);
    LastOne(six, mid);
  }

  lemma LastOne(segment: bytes, output: bytes)
    requires |segment| >= 2 && segment[0] != 46 && segment[1] != 46
    requires forall i :: 1 <= i < |segment| ==> segment[i] != 47
    ensures RemoveDotSegments(segment, output) == output + segment
  {
    OneSegment(segment, [], output);
    assert segment + [] == segment;
  }

  /** A segment without a slash inside, in front of the next one, goes to the output. */
  lemma OneSegment(segment: bytes, rest: bytes, output: bytes)
    requires |segment| >= 2 && segment[0] != 46 && segment[1] != 46
    requires forall i :: 1 <= i < |segment| ==> segment[i] != 47
    requires rest == [] || rest[0] == 47
    ensures RemoveDotSegments(segment + rest, output) == RemoveDotSegments(rest, output + segment)
  {
    var input := segment + rest;
    assert input[1..] == segment[1..] + rest;
    SlashIndexUnique(input[1..], |segment| - 1);
    assert input[|segment|..] == rest && input[..|segment|] == segment;
  }

  lemma SingleDot(rest: bytes, output: bytes)
    requires rest != [] && rest[0] == 47
    ensures RemoveDotSegments([47, 46] + rest, output) == RemoveDotSegments(rest, output)
  {
    assert ([47, 46] + rest)[2..] == rest;
  }

  lemma DoubleDot(rest: bytes, output: bytes, last: bytes)
    requires rest != [] && rest[0] == 47
    requires last != [] && last[0] == 47 && forall i :: 1 <= i < |last| ==> last[i] != 47
    ensures RemoveDotSegments([47, 46, 46] + rest, output + last) == RemoveDotSegments(rest, output)
  {
    assert ([47, 46, 46] + rest)[3..] == rest;
    var all := output + last;
    assert LastSlash(all) == |output| by {
      assert all[|output|] == 47;
      forall i | |output| < i < |all|
        ensures all[i] != 47
      {
        assert all[i] == last[i - |output|];
      }
    }
  }

  // ---------- What one pass of the C loop does ----------

  predicate IsDot(c: bytes) { c == [DOT] }

  predicate IsDotDot(c: bytes) { c == [DOT, DOT] }

  /** The write cursor moved back to just after the previous slash. */
  function Backtrack(out: bytes): (r: bytes)
    ensures |r| <= |out| && r == out[..|r|]
  {
    BackToSlash(if |out| > 1 && out[|out| - 1] == SLASH then out[..|out| - 1] else out)
  }

  function BackToSlash(out: bytes): (r: bytes)
    ensures |r| <= |out| && r == out[..|r|]
  {
    if out != [] && out[|out| - 1] != SLASH then BackToSlash(out[..|out| - 1]) else out
  }

  function NextIndex(rest: bytes): (k: nat)
    ensures k <= |rest|
    ensures rest != [] ==> k > 0
  {
    if SlashIndex(rest) < |rest| then SlashIndex(rest) + 1 else |rest|
  }

  /** The output after the first component of `rest` has been looked at. */
  function StepOut(rest: bytes, out: bytes): bytes {
    var comp := rest[..SlashIndex(rest)];
    if IsDot(comp) then out
    else if IsDotDot(comp) then Backtrack(out)
    else out + rest[..NextIndex(rest)]
  }

  /** The output after the remaining input has been walked component by component. */
  function Walk(rest: bytes, out: bytes): bytes
    decreases |rest|
  {
    if rest == [] then out else Walk(rest[NextIndex(rest)..], StepOut(rest, out))
  }

  // ---------- The C pass computes the RFC result ----------

  lemma {:induction false} BackToSlashCut(out: bytes)
    ensures BackToSlash(out) == out[..LastSlash(out) + 1]
    decreases |out|
  {
    if out != [] && out[|out| - 1] != SLASH {
      BackToSlashCut(out[..|out| - 1]);
      assert out[..|out| - 1][..LastSlash(out) + 1] == out[..LastSlash(out) + 1];
    }
  }

  lemma BacktrackDropsSegment(o: bytes)
    requires o == [] || o[0] == SLASH
    ensures Backtrack(o + [SLASH]) == DropLastSegment(o) + [SLASH]
    ensures DropLastSegment(o) == [] || DropLastSegment(o)[0] == SLASH
  {
    var out := o + [SLASH];
    if o == [] {
      assert BackToSlash(out) == out;
    } else {
      assert out[..|out| - 1] == o;
      BackToSlashCut(o);
      var k := LastSlash(o);
      assert o[..k + 1] == o[..k] + [SLASH];
    }
  }

  /** When the first component is "." or "..", in terms of the bytes in front. */
  lemma DotComponents(rest: bytes)
    ensures var c := rest[..SlashIndex(rest)];
            && (IsDot(c) <==> |rest| >= 1 && rest[0] == DOT && (|rest| == 1 || rest[1] == SLASH))
            && (IsDotDot(c) <==> |rest| >= 2 && rest[0] == DOT && rest[1] == DOT && (|rest| == 2 || rest[2] == SLASH))
            && (IsDot(c) ==> SlashIndex(rest) == 1)
            && (IsDotDot(c) ==> SlashIndex(rest) == 2)
  {
    if |rest| >= 1 && rest[0] == DOT && (|rest| == 1 || rest[1] == SLASH) {
      SlashIndexUnique(rest, 1);
    } else if |rest| >= 2 && rest[0] == DOT && rest[1] == DOT && (|rest| == 2 || rest[2] == SLASH) {
      SlashIndexUnique(rest, 2);
    } else {
      var c := rest[..SlashIndex(rest)];
      assert forall i :: 0 <= i < |c| ==> c[i] == rest[i];
    }
  }

  lemma RfcDot(rest: bytes, o: bytes)
    requires IsDot(rest[..SlashIndex(rest)])
    ensures RemoveDotSegments([SLASH] + rest, o) == RemoveDotSegments([SLASH] + rest[NextIndex(rest)..], o)
  {
    DotComponents(rest);
    var input := [SLASH] + rest;
    if |rest| == 1 {
      assert input == [SLASH, DOT] && [SLASH] + rest[NextIndex(rest)..] == [SLASH];
    } else {
      assert input[2..] == [SLASH] + rest[NextIndex(rest)..];
    }
  }

  lemma RfcDotDot(rest: bytes, o: bytes)
    requires IsDotDot(rest[..SlashIndex(rest)])
    ensures RemoveDotSegments([SLASH] + rest, o)
         == RemoveDotSegments([SLASH] + rest[NextIndex(rest)..], DropLastSegment(o))
  {
    DotComponents(rest);
    var input := [SLASH] + rest;
    if |rest| == 2 {
      assert input == [SLASH, DOT, DOT] && [SLASH] + rest[NextIndex(rest)..] == [SLASH];
    } else {
      assert input[3..] == [SLASH] + rest[NextIndex(rest)..];
    }
  }

  lemma RfcOrdinary(rest: bytes, o: bytes)
    requires rest != []
    requires !IsDot(rest[..SlashIndex(rest)]) && !IsDotDot(rest[..SlashIndex(rest)])
    ensures var k := SlashIndex(rest);
            RemoveDotSegments([SLASH] + rest, o)
            == RemoveDotSegments(rest[k..], o + ([SLASH] + rest[..k]))
  {
    DotComponents(rest);
    var input := [SLASH] + rest;
    var k := SlashIndex(rest);
    assert input[1..] == rest;
    assert forall i :: 0 <= i < |rest| ==> input[i + 1] == rest[i];
    assert input[..1 + k] == [SLASH] + rest[..k] && input[1 + k..] == rest[k..];
  }

  lemma RfcLone(o: bytes)
    ensures RemoveDotSegments([SLASH], o) == o + [SLASH]
  {
    assert [SLASH][1..] == [] && [SLASH][..1] == [SLASH];
  }

  lemma RfcEmpty(o: bytes)
    ensures RemoveDotSegments([], o) == o
  {
  }

  lemma SegmentAt(rest: bytes, o: bytes, k: nat)
    requires k < |rest| && rest[k] == SLASH
    ensures rest[k..] == [SLASH] + rest[k + 1..]
    ensures (o + [SLASH]) + rest[..k + 1] == (o + ([SLASH] + rest[..k])) + [SLASH]
  {
    assert rest[k..k + 1] == [SLASH];
    CutTwice(rest, k, k + 1);
    ConcatRegroup(o, [SLASH], rest[..k], [SLASH]);
  }

  /** With `o` written and a '/' after it, walking `rest` is running the RFC loop on "/rest". */
  lemma {:induction false} WalkIsRfc(rest: bytes, o: bytes)
    requires o == [] || o[0] == SLASH
    ensures Walk(rest, o + [SLASH]) == RemoveDotSegments([SLASH] + rest, o)
    decreases |rest|
  {
    hide RemoveDotSegments, DropLastSegment, Backtrack, SlashIndex;
    if rest == [] {
      RfcLone(o);
      assert [SLASH] + rest == [SLASH];
    } else {
      var k, next := SlashIndex(rest), NextIndex(rest);
      if IsDot(rest[..k]) {
        RfcDot(rest, o);
        WalkIsRfc(rest[next..], o);
      } else if IsDotDot(rest[..k]) {
        RfcDotDot(rest, o);
        BacktrackDropsSegment(o);
        WalkIsRfc(rest[next..], DropLastSegment(o));
      } else {
        var o' := o + ([SLASH] + rest[..k]);
        RfcOrdinary(rest, o);
        if k < |rest| {
          SegmentAt(rest, o, k);
          WalkIsRfc(rest[next..], o');
        } else {
          assert rest[next..] == [] == rest[k..] && rest[..next] == rest[..k];
          RfcEmpty(o');
          ConcatAssoc(o, [SLASH], rest[..next]);
        }
      }
    }
  }

  /** The normalised form of a path that starts with '/'. */
  lemma WalkNormalizes(path: bytes)
    requires path != [] && path[0] == SLASH
    ensures Walk(path, []) == RemoveDotSegments(path, [])
  {
    assert SlashIndex(path) == 0;
    assert path[..1] == [SLASH] && [] + path[..1] == [] + [SLASH];
    assert path == [SLASH] + path[1..];
    WalkIsRfc(path[1..], []);
  }

  // ---------- A second pass changes nothing ----------

  /** No component of `s` is "." or "..". */
  predicate NoDots(s: bytes)
    decreases |s|
  {
    s == [] ||
    (!IsDot(s[..SlashIndex(s)]) && !IsDotDot(s[..SlashIndex(s)]) && NoDots(s[NextIndex(s)..]))
  }

  predicate EndsWithSlash(s: bytes) { s != [] && s[|s| - 1] == SLASH }

  lemma SlashIndexConcat(a: bytes, b: bytes)
    requires EndsWithSlash(a)
    ensures SlashIndex(a + b) == SlashIndex(a) < |a|
    ensures NextIndex(a + b) == NextIndex(a)
  {
    SlashIndexUnique(a + b, SlashIndex(a));
  }

  lemma {:induction false} NoDotsConcat(a: bytes, b: bytes)
    requires a == [] || EndsWithSlash(a)
    ensures NoDots(a + b) <==> NoDots(a) && NoDots(b)
    decreases |a|
  {
    if a == [] {
      assert a + b == b;
    } else {
      SlashIndexConcat(a, b);
      var k, n := SlashIndex(a), NextIndex(a);
      assert (a + b)[..k] == a[..k];
      assert (a + b)[n..] == a[n..] + b;
      NoDotsConcat(a[n..], b);
    }
  }

  lemma {:induction false} NoDotsUnchanged(s: bytes, out: bytes)
    requires NoDots(s)
    ensures Walk(s, out) == out + s
    decreases |s|
  {
    if s != [] {
      var n := NextIndex(s);
      NoDotsUnchanged(s[n..], out + s[..n]);
      assert out + s[..n] + s[n..] == out + s;
    }
  }

  lemma BacktrackClean(out: bytes)
    requires EndsWithSlash(out) && out[0] == SLASH && NoDots(out)
    ensures EndsWithSlash(Backtrack(out)) && Backtrack(out)[0] == SLASH && NoDots(Backtrack(out))
  {
    var o := out[..|out| - 1];
    assert out == o + [SLASH];
    BacktrackDropsSegment(o);
    var r := Backtrack(out);
    assert out == r + out[|r|..];
    NoDotsConcat(r, out[|r|..]);
  }

  lemma {:induction false} WalkClean(rest: bytes, out: bytes)
    requires EndsWithSlash(out) && out[0] == SLASH && NoDots(out)
    ensures NoDots(Walk(rest, out)) && Walk(rest, out) != [] && Walk(rest, out)[0] == SLASH
    decreases |rest|
  {
    if rest != [] {
      var k, n := SlashIndex(rest), NextIndex(rest);
      if IsDot(rest[..k]) {
        WalkClean(rest[n..], out);
      } else if IsDotDot(rest[..k]) {
        BacktrackClean(out);
        WalkClean(rest[n..], Backtrack(out));
      } else {
        SlashIndexUnique(rest[..n], k);
        assert rest[..n][..k] == rest[..k];
        assert rest[..n][n..] == [];
        assert NoDots(rest[..n]);
        NoDotsConcat(out, rest[..n]);
        if k < |rest| {
          WalkClean(rest[n..], out + rest[..n]);
        } else {
          assert rest[n..] == [];
        }
      }
    }
  }

  /** A normalised path is left as it is by a second normalisation. */
  lemma NormalizeTwice(path: bytes)
    requires path != [] && path[0] == SLASH
    ensures var once := RemoveDotSegments(path, []);
            once != [] && once[0] == SLASH && RemoveDotSegments(once, []) == once
  {
    WalkNormalizes(path);
    assert SlashIndex(path) == 0;
    assert [] + path[..1] == [SLASH];
    assert NoDots([SLASH]) by {
      assert SlashIndex([SLASH]) == 0 && [SLASH][1..] == [];
    }
    WalkClean(path[1..], [SLASH]);
    var once := Walk(path, []);
    NoDotsUnchanged(once, []);
    assert [] + once == once;
    WalkNormalizes(once);
  }

  // ---------- The C code, output aliasing input ----------

  /** parse_uri_component with separator '/': the component is buf[p..p + compLen]. */
  method ParseComponent(buf: array<byte>, p: nat, end: nat) returns (next: nat, compLen: nat)
    requires p <= end <= buf.Length
    ensures compLen == SlashIndex(buf[p..end])
    ensures next == p + NextIndex(buf[p..end])
  {
    next := p;
    while next < end
      invariant p <= next <= end
      invariant forall i :: p <= i < next ==> buf[i] != SLASH
    {
      if buf[next] == SLASH {
        break;
      }
      next := next + 1;
    }
    compLen := next - p;
    SlashIndexUnique(buf[p..end], compLen);
    if next < end {
      next := next + 1;
    }
  }

  /** How mg_vcmp tells "." and ".." from other components. */
  lemma ComponentKind(rest: bytes)
    ensures var k := SlashIndex(rest);
            && (IsDot(rest[..k]) <==> k == 1 && rest[0] == DOT)
            && (IsDotDot(rest[..k]) <==> k == 2 && rest[0] == DOT && rest[1] == DOT)
  {
    var k := SlashIndex(rest);
    assert forall i :: 0 <= i < k ==> rest[..k][i] == rest[i];
  }

  /** The body of the loop: the component at the read cursor is copied down, skipped or undone. */
  method StepInPlace(buf: array<byte>, len: nat, s: nat, d: nat) returns (s': nat, d': nat)
    requires d <= s < len <= buf.Length
    requires s == 0 ==> buf[0] == SLASH
    requires s > 0 ==> d > 0 && buf[0] == SLASH
    modifies buf
    ensures d' <= s' <= len && s' > 0 && d' > 0 && buf[0] == SLASH
    ensures s' == s + NextIndex(old(buf[s..len]))
    ensures buf[s'..] == old(buf[s'..])
    ensures buf[..d'] == StepOut(old(buf[s..len]), old(buf[..d]))
  {
    hide SlashIndex, IsDot, IsDotDot, Backtrack, StepOut, NextIndex;
    ghost var out, rest := buf[..d], buf[s..len];
    var next, compLen := ParseComponent(buf, s, len);
    NextBounds(rest);
    StepKinds(rest, out);
    assert s == 0 ==> rest[0] == SLASH;
    if compLen == 1 && buf[s] == DOT {
      return next, d;
    } else if compLen == 2 && buf[s] == DOT && buf[s + 1] == DOT {
      d' := BacktrackCursor(buf, d);
      return next, d';
    } else {
      CopyComponent(buf, s, d, next - s, len);
      return next, d + (next - s);
    }
  }

  lemma NextBounds(rest: bytes)
    requires rest != []
    ensures 0 < NextIndex(rest) <= |rest|
  {
  }

  lemma StepKinds(rest: bytes, out: bytes)
    ensures var k := SlashIndex(rest);
            StepOut(rest, out) ==
            if k == 1 && rest[0] == DOT then out
            else if k == 2 && rest[0] == DOT && rest[1] == DOT then Backtrack(out)
            else out + rest[..NextIndex(rest)]
  {
    hide Backtrack, SlashIndex, NextIndex, IsDot, IsDotDot;
    ComponentKind(rest);
  }

  /** An ordinary component moves to the write cursor. */
  method CopyComponent(buf: array<byte>, s: nat, d: nat, n: nat, len: nat)
    requires d <= s && s + n <= len <= buf.Length && n > 0
    requires if d == 0 then buf[s] == SLASH else buf[0] == SLASH
    modifies buf
    ensures buf[..d + n] == old(buf[..d]) + old(buf[s..len])[..n] && buf[0] == SLASH
    ensures buf[s + n..] == old(buf[s + n..])
  {
    SliceOfSlice(buf[..], s, len - s, 0, n);
    ghost var was := buf[..];
    MoveDown(buf, d, s, n);
    FirstByte(buf[..], was, s, d, n);
  }

  lemma FirstByte(now: bytes, was: bytes, s: nat, d: nat, n: nat)
    requires d <= s && s + n <= |was| == |now| && n > 0 && now[..d + n] == was[..d] + was[s..s + n]
    ensures now[0] == if d == 0 then was[s] else was[0]
  {
    assert now[0] == now[..d + n][0];
  }

  /** mg_normalize_uri_path with `out->p == in->p`: the path buf[..len] is rewritten in place.
      `ok` is the C result; on `ok` the first `outLen` bytes are the RFC 3986 result. */
  method NormalizeInPlace(buf: array<byte>, len: nat) returns (ok: bool, outLen: nat)
    requires len <= buf.Length
    modifies buf
    ensures ok <==> len > 0 && old(buf[0]) == SLASH
    ensures !ok ==> outLen == 0 && buf[..] == old(buf[..])
    ensures ok ==> outLen <= len && buf[..outLen] == RemoveDotSegments(old(buf[..len]), [])
    ensures buf[len..] == old(buf[len..])
  {
    if len == 0 || buf[0] != SLASH {
      return false, 0;
    }
    hide RemoveDotSegments, Walk;
    ghost var path := buf[..len];
    outLen := WalkInPlace(buf, len);
    WalkNormalizes(path);
    if outLen == 0 {
      // The code adds a '/' here; the output is never empty, since the first byte written is a '/'.
      assert false;
    }
    ok := true;
  }

  /** The loop: the write cursor never overtakes the read cursor. */
  method WalkInPlace(buf: array<byte>, len: nat) returns (d: nat)
    requires 0 < len <= buf.Length && buf[0] == SLASH
    modifies buf
    ensures 0 < d <= len && buf[..d] == Walk(old(buf[..len]), [])
    ensures buf[len..] == old(buf[len..])
  {
    hide Walk, StepOut, NextIndex;
    ghost var was, path := buf[..], buf[..len];
    var s := 0;
    d := 0;
    while s < len
      invariant 0 <= d <= s <= len && (s > 0 ==> d > 0) && buf[0] == SLASH
      invariant buf[s..] == was[s..]
      invariant Walk(path, []) == Walk(path[s..], buf[..d])
    {
      ghost var out, rest, at := buf[..d], path[s..], s;
      UnreadPart(buf[..], was, s, len);
      s, d := StepInPlace(buf, len, s, d);
      WalkStep(rest, out);
      LaterPart(buf[..], was, at, s, len);
    }
    WalkEnd(path[len..], buf[..d]);
  }

  lemma LaterPart(now: bytes, was: bytes, at: nat, s: nat, len: nat)
    requires |now| == |was| && at <= s <= len <= |was|
    ensures was[..len][at..][s - at..] == was[..len][s..]
    ensures was[at..][s - at..] == was[s..]
  {
    CutTwice(was[..len], at, s);
    CutTwice(was, at, s);
  }

  /** What lies behind the read cursor is as it was. */
  lemma UnreadPart(now: bytes, was: bytes, s: nat, len: nat)
    requires |now| == |was| && s <= len <= |was| && now[s..] == was[s..]
    ensures now[s..len] == was[..len][s..]
  {
    PrefixSlices(was, len, s, len);
    SliceOfDrop(now, s, 0, len - s);
    SliceOfDrop(was, s, 0, len - s);
  }

  lemma WalkEnd(rest: bytes, out: bytes)
    requires rest == []
    ensures Walk(rest, out) == out
  {
  }

  lemma WalkStep(rest: bytes, out: bytes)
    requires rest != []
    ensures Walk(rest, out) == Walk(rest[NextIndex(rest)..], StepOut(rest, out))
  {
  }

  /** "Backtrack to previous slash": the two cursor adjustments for a ".." component. */
  method BacktrackCursor(buf: array<byte>, d0: nat) returns (d: nat)
    requires d0 <= buf.Length
    ensures d <= d0 && buf[..d] == Backtrack(buf[..d0])
    ensures d0 > 0 && buf[0] == SLASH ==> d > 0
  {
    d := d0;
    if d > 1 && buf[d - 1] == SLASH {
      d := d - 1;
      assert buf[..d0][..d0 - 1] == buf[..d];
    }
    while d > 0 && buf[d - 1] != SLASH
      invariant d <= d0 && (d0 > 0 && buf[0] == SLASH ==> d > 0)
      invariant Backtrack(buf[..d0]) == BackToSlash(buf[..d])
    {
      assert buf[..d][..d - 1] == buf[..d - 1];
      d := d - 1;
    }
  }
}
