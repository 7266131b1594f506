/** Bytes, the moves C code makes inside a byte array, and concatenation of pieces. */
module Bytes {
  type byte = b: int | 0 <= b < 256 witness 0

  type bytes = seq<byte>

  const TWO_32: nat := 0x1_0000_0000
  const TWO_64: nat := 0x1_0000_0000_0000_0000

  const COMMA: byte := 44
  const SLASH: byte := 47

  predicate Distinct<T(==)>(items: seq<T>) { forall i, j :: 0 <= i < j < |items| ==> items[i] != items[j] }

  /** A literal as bytes: each character of the C literal is one byte. */
  function Lit(s: string): (r: bytes)
    requires forall i :: 0 <= i < |s| ==> s[i] < 256 as char
    ensures |r| == |s|
    ensures forall i :: 0 <= i < |s| ==> r[i] == s[i] as int
  {
    if s == "" then [] else
      var b: byte := s[0] as int;
      [b] + Lit(s[1..])
  }

  /** The same byte, or the same letter in the other case. */
  predicate SameLetter(a: byte, b: byte) { a == b || (65 <= a <= 90 && b == a + 32) || (65 <= b <= 90 && a == b + 32) }

  /** Equal up to the case of letters. */
  predicate SameLetters(a: bytes, b: bytes) { |a| == |b| && forall i :: 0 <= i < |a| ==> SameLetter(a[i], b[i]) }

  function Zeros(n: nat): (r: bytes)
    ensures |r| == n && forall i :: 0 <= i < n ==> r[i] == 0
  {
    seq(n, _ => 0)
  }

  /** `memmove(a + dst, a + src, n)`: the two ranges may overlap. */
  method MoveBytes(a: array<byte>, dst: nat, src: nat, n: nat)
    requires dst + n <= a.Length && src + n <= a.Length
    modifies a
    ensures a[dst..dst + n] == old(a[src..src + n])
    ensures a[..dst] == old(a[..dst])
    ensures a[dst + n..] == old(a[dst + n..])
  {
    forall i | dst <= i < dst + n {
      a[i] := a[i - dst + src];
    }
  }

  /** `memmove` towards the front: what lies behind the moved range stays. */
  method MoveDown(a: array<byte>, dst: nat, src: nat, n: nat)
    requires dst <= src && src + n <= a.Length
    modifies a
    ensures a[..dst + n] == old(a[..dst]) + old(a[src..src + n])
    ensures a[src + n..] == old(a[src + n..])
  {
    forall i | dst <= i < dst + n {
      a[i] := a[i - dst + src];
    }
  }

  /** `memcpy(a + dst, data, |data|)` from outside the array. */
  method CopyBytes(a: array<byte>, dst: nat, data: bytes)
    requires dst + |data| <= a.Length
    modifies a
    ensures a[dst..dst + |data|] == data
    ensures a[..dst] == old(a[..dst])
    ensures a[dst + |data|..] == old(a[dst + |data|..])
  {
    forall i | dst <= i < dst + |data| {
      a[i] := data[i - dst];
    }
  }

  /** `memset(a + dst, v, n)`. */
  method FillBytes(a: array<byte>, dst: nat, n: nat, v: byte)
    requires dst + n <= a.Length
    modifies a
    ensures forall i :: dst <= i < dst + n ==> a[i] == v
    ensures a[..dst] == old(a[..dst])
    ensures a[dst + n..] == old(a[dst + n..])
  {
    forall i | dst <= i < dst + n {
      a[i] := v;
    }
  }

  /** The pieces of a stream, joined in order of arrival. */
  function Flatten(pieces: seq<bytes>): bytes {
    if pieces == [] then [] else pieces[0] + Flatten(pieces[1..])
  }

  lemma ConcatAssoc<T>(a: seq<T>, b: seq<T>, c: seq<T>)
    ensures (a + b) + c == a + (b + c)
  {
  }

  lemma ConcatRegroup<T>(a: seq<T>, b: seq<T>, c: seq<T>, d: seq<T>)
    ensures (a + b) + (c + d) == (a + (b + c)) + d
  {
    ConcatAssoc(a, b, c + d);
    ConcatAssoc(b, c, d);
    ConcatAssoc(a, b + c, d);
  }

  /** Splitting one sequence at two cuts. */
  lemma CutTwice<T>(s: seq<T>, i: nat, j: nat)
    requires i <= j <= |s|
    ensures s[..j] == s[..i] + s[i..j]
    ensures s[i..] == s[i..j] + s[j..]
    ensures s[i..][j - i..] == s[j..]
    ensures s[i..][..j - i] == s[i..j]
    ensures s[..j][i..] == s[i..j]
    ensures s[..j][..i] == s[..i]
  {
  }

  lemma Cut<T>(s: seq<T>, k: nat)
    requires k <= |s|
    ensures s == s[..k] + s[k..]
  {
  }

  lemma CutInThree<T>(s: seq<T>, i: nat, j: nat)
    requires i <= j <= |s|
    ensures s == s[..i] + (s[i..j] + s[j..])
  {
  }

  /** The three parts of a concatenation, found again by position. */
  lemma ConcatParts<T>(b: seq<T>, front: seq<T>, w: seq<T>, rest: seq<T>)
    requires b == front + (w + rest)
    ensures |b| == |front| + |w| + |rest|
    ensures b[..|front|] == front
    ensures b[|front|..|front| + |w|] == w
    ensures b[|front| + |w|..] == rest
    ensures b[|front|..] == w + rest
  {
  }

  lemma SliceOfDrop<T>(s: seq<T>, i: nat, j: nat, k: nat)
    requires i <= |s| && j <= k <= |s| - i
    ensures s[i..][j..k] == s[i + j..i + k]
  {
  }

  lemma SliceOfSlice<T>(s: seq<T>, i: nat, n: nat, j: nat, k: nat)
    requires i + n <= |s| && j <= k <= n
    ensures s[i..i + n][j..k] == s[i + j..i + k]
  {
    var whole := s[i..i + n];
    forall t | 0 <= t < k - j
      ensures whole[j..k][t] == s[i + j..i + k][t]
    {
      assert whole[j + t] == s[i + j + t];
    }
  }

  lemma DropOfSlice<T>(s: seq<T>, i: nat, j: nat, k: nat)
    requires i + k <= j <= |s|
    ensures s[i..j][k..] == s[i + k..j]
  {
  }

  /** Slices of the part of a buffer that is in use. */
  lemma PrefixSlices<T>(s: seq<T>, len: nat, i: nat, j: nat)
    requires i <= j <= len <= |s|
    ensures s[..len][i..j] == s[i..j]
    ensures s[..len][..i] == s[..i]
    ensures s[..len][j..] == s[j..len]
  {
  }

  /** Cutting `a + b` inside or at the end of `a`. */
  lemma ConcatCut<T>(a: seq<T>, b: seq<T>, k: nat)
    requires k <= |a|
    ensures (a + b)[..k] == a[..k]
    ensures (a + b)[k..] == a[k..] + b
  {
  }

  lemma ConcatSlice<T>(a: seq<T>, b: seq<T>, i: nat, j: nat)
    requires i <= j <= |a|
    ensures (a + b)[i..j] == a[i..j]
  {
  }

  lemma {:induction false} FlattenAppend(a: seq<bytes>, b: seq<bytes>)
    ensures Flatten(a + b) == Flatten(a) + Flatten(b)
  {
    if a == [] {
      assert a + b == b;
    } else {
      FlattenAppend(a[1..], b);
      ConcatCut(a, b, 1);
      ConcatAssoc(a[0], Flatten(a[1..]), Flatten(b));
    }
  }

  lemma FlattenOne(x: bytes)
    ensures Flatten([x]) == x
  {
    assert [x][1..] == [];
  }

  lemma FlattenSnoc(a: seq<bytes>, x: bytes)
    ensures Flatten(a + [x]) == Flatten(a) + x
  {
    FlattenAppend(a, [x]);
    FlattenOne(x);
  }
}
