/** Json::Value as a datatype: objects are std::map members, in the order of their keys. */
module JsonValue {
  import opened Bytes
  import opened JsonNumbers
  import opened JsonStrings

  datatype Json =
    | Null
    | Bool(b: bool)
    | Int(n: int)
    | UInt(n: int)
    | Str(s: bytes)
    | Arr(elements: seq<Json>)
    | Obj(members: seq<Member>)
    | Real(text: bytes) // a number the reader leaves to decodeDouble

  datatype Member = Member(key: bytes, value: Json)

  // ---------- The order of keys ----------

  /** CZString::operator<: memcmp of the common length, then the length. */
  predicate Less(a: bytes, b: bytes) {
    b != [] && (a == [] || a[0] < b[0] || (a[0] == b[0] && Less(a[1..], b[1..])))
  }

  lemma {:induction false} LessAsymmetric(a: bytes, b: bytes)
    ensures !(Less(a, b) && (a == b || Less(b, a)))
  {
    if a != [] && b != [] {
      LessAsymmetric(a[1..], b[1..]);
    }
  }

  lemma {:induction false} LessTotal(a: bytes, b: bytes)
    ensures Less(a, b) || a == b || Less(b, a)
  {
    if a != [] && b != [] && a[0] == b[0] {
      LessTotal(a[1..], b[1..]);
      assert a == [a[0]] + a[1..] && b == [b[0]] + b[1..];
    }
  }

  lemma {:induction false} LessTransitive(a: bytes, b: bytes, c: bytes)
    requires Less(a, b) && Less(b, c)
    ensures Less(a, c)
  {
    if a != [] && a[0] == b[0] == c[0] {
      LessTransitive(a[1..], b[1..], c[1..]);
    }
  }

  /** The order by the first byte in which two keys differ; a key in front of its extensions. */
  lemma {:induction false} LessAt(a: bytes, b: bytes, k: nat)
    requires k <= |a| && k <= |b| && a[..k] == b[..k]
    requires k < |a| && k < |b| ==> a[k] != b[k]
    ensures Less(a, b) <==> k < |b| && (k == |a| || a[k] < b[k])
  {
    if k > 0 {
      assert a[0] == a[..k][0] && b[0] == b[..k][0];
      assert a[1..][..k - 1] == a[..k][1..] && b[1..][..k - 1] == b[..k][1..];
      if k < |a| {
        assert a[1..][k - 1] == a[k];
      }
      if k < |b| {
        assert b[1..][k - 1] == b[k];
      }
      LessAt(a[1..], b[1..], k - 1);
    }
  }

  predicate Ascending(members: seq<Member>) {
    forall i, j :: 0 <= i < j < |members| ==> Less(members[i].key, members[j].key)
  }

  /** currentValue()[name] = value: a new member at its place, or the old one replaced. */
  function Insert(members: seq<Member>, m: Member): seq<Member> {
    if members == [] then [m]
    else if members[0].key == m.key then [m] + members[1..]
    else if Less(m.key, members[0].key) then [m] + members
    else [members[0]] + Insert(members[1..], m)
  }

  function InsertAll(members: seq<Member>, more: seq<Member>): seq<Member>
    decreases |more|
  {
    if more == [] then members else InsertAll(Insert(members, more[0]), more[1..])
  }

  lemma {:induction false} InsertLast(members: seq<Member>, m: Member)
    requires forall i :: 0 <= i < |members| ==> Less(members[i].key, m.key)
    ensures Insert(members, m) == members + [m]
  {
    if members != [] {
      assert Less(members[0].key, m.key);
      LessAsymmetric(members[0].key, m.key);
      InsertLast(members[1..], m);
      assert [members[0]] + (members[1..] + [m]) == members + [m];
    }
  }

  /** Members that come in order end up as they are. */
  lemma {:induction false} InsertAllAscending(members: seq<Member>, more: seq<Member>)
    requires Ascending(members + more)
    ensures InsertAll(members, more) == members + more
    decreases |more|
  {
    if more == [] {
      assert members + [] == members;
    } else {
      var all := members + more;
      forall i | 0 <= i < |members|
        ensures Less(members[i].key, more[0].key)
      {
        assert Less(all[i].key, all[|members|].key);
      }
      InsertLast(members, more[0]);
      assert (members + [more[0]]) + more[1..] == all;
      InsertAllAscending(members + [more[0]], more[1..]);
    }
  }

  /** Insertion keeps the order, whatever the key. */
  lemma {:induction false} InsertAscending(members: seq<Member>, m: Member)
    requires Ascending(members)
    ensures Ascending(Insert(members, m))
    ensures forall x <- Insert(members, m) :: x in members || x == m
  {
    if members != [] {
      var first, rest := members[0], members[1..];
      forall i | 0 <= i < |rest|
        ensures Less(first.key, rest[i].key)
        ensures Less(m.key, first.key) ==> Less(m.key, rest[i].key)
      {
        assert rest[i] == members[i + 1];
        if Less(m.key, first.key) {
          LessTransitive(m.key, first.key, rest[i].key);
        }
      }
      LessTotal(first.key, m.key);
      InsertAscending(rest, m);
      var all := Insert(members, m);
      forall i, j | 0 <= i < j < |all|
        ensures Less(all[i].key, all[j].key)
      {
        if first.key != m.key && !Less(m.key, first.key) {
          assert all[j] == Insert(rest, m)[j - 1];
          assert all[j] in Insert(rest, m);
        }
      }
    }
  }

  /** A member put into a map: it is there, and of the others exactly those that have another key. */
  lemma {:induction false} InsertHolds(members: seq<Member>, m: Member, x: Member)
    requires Ascending(members)
    ensures x in Insert(members, m) <==> x == m || (x in members && x.key != m.key)
  {
    if members != [] {
      var first, rest := members[0], members[1..];
      assert x in members <==> x == first || x in rest;
      assert forall y <- rest :: Less(first.key, y.key);
      LessAsymmetric(first.key, x.key);
      LessAsymmetric(m.key, x.key);
      LessAsymmetric(m.key, first.key);
      if Less(m.key, first.key) && x in rest {
        LessTransitive(m.key, first.key, x.key);
      }
      InsertHolds(rest, m, x);
    }
  }

  predicate Named(members: seq<Member>, key: bytes) { exists m :: m in members && m.key == key }

  /** No later member has the key of this one. */
  predicate IsLast(members: seq<Member>, i: int) {
    0 <= i < |members| && forall j :: i < j < |members| ==> members[j].key != members[i].key
  }

  /** Among the members of its key, `x` is the last one. */
  ghost predicate Stays(members: seq<Member>, x: Member) { exists i :: IsLast(members, i) && members[i] == x }

  /** Members put in one after the other: of several with one key the last one stays. */
  lemma {:induction false} InsertAllHolds(members: seq<Member>, more: seq<Member>, x: Member)
    requires Ascending(members)
    ensures Ascending(InsertAll(members, more))
    ensures x in InsertAll(members, more) <==> Stays(more, x) || (x in members && !Named(more, x.key))
    decreases |more|
  {
    hide Stays, Insert, Ascending;
    if more == [] {
      assert !Stays(more, x) && !Named(more, x.key) by { StaysHolds(more, x); }
    } else {
      var first, rest := more[0], more[1..];
      InsertAscending(members, first);
      InsertHolds(members, first, x);
      InsertAllHolds(Insert(members, first), rest, x);
      NamedOfRest(more, x.key);
      StaysOfRest(more, x);
      if Stays(rest, x) {
        StaysHolds(rest, x);
      }
    }
  }

  lemma StaysHolds(members: seq<Member>, x: Member)
    ensures Stays(members, x) ==> x in members && Named(members, x.key)
  {
  }

  lemma NamedOfRest(members: seq<Member>, key: bytes)
    requires members != []
    ensures Named(members, key) <==> members[0].key == key || Named(members[1..], key)
  {
    assert forall m :: m in members <==> m == members[0] || m in members[1..];
  }

  lemma IsLastOfRest(members: seq<Member>, i: int)
    requires 0 < i < |members|
    ensures IsLast(members, i) <==> IsLast(members[1..], i - 1)
  {
    var rest := members[1..];
    assert forall j :: 0 < j < |members| ==> members[j] == rest[j - 1];
    if IsLast(rest, i - 1) {
      forall j | i < j < |members|
        ensures members[j].key != members[i].key
      {
        assert rest[j - 1].key != rest[i - 1].key;
      }
    }
  }

  lemma FirstIsLast(members: seq<Member>)
    requires members != []
    ensures IsLast(members, 0) <==> !Named(members[1..], members[0].key)
  {
    var rest := members[1..];
    if IsLast(members, 0) {
      forall m | m in rest
        ensures m.key != members[0].key
      {
        var j :| 0 <= j < |rest| && rest[j] == m;
        assert members[j + 1] == m;
      }
    } else {
      var j :| 0 < j < |members| && members[j].key == members[0].key;
      assert members[j] == rest[j - 1];
    }
  }

  lemma StaysOfRest(members: seq<Member>, x: Member)
    requires members != []
    ensures Stays(members, x) <==>
            Stays(members[1..], x) || (x == members[0] && !Named(members[1..], x.key))
  {
    hide Named;
    var rest := members[1..];
    FirstIsLast(members);
    if Stays(members, x) {
      var i :| IsLast(members, i) && members[i] == x;
      if i > 0 {
        IsLastOfRest(members, i);
        assert rest[i - 1] == x;
      }
    }
    if Stays(rest, x) {
      var i :| IsLast(rest, i) && rest[i] == x;
      IsLastOfRest(members, i + 1);
      assert members[i + 1] == x;
    }
  }

  // ---------- Values ----------

  /** Integers in the range of their type, objects as maps, no doubles. */
  predicate WellFormed(v: Json) {
    match v
    case Int(n) => -TWO_63 <= n < TWO_63
    case UInt(n) => 0 <= n < TWO_64
    case Arr(elements) => forall x <- elements :: WellFormed(x)
    case Obj(members) => Ascending(members) && forall m <- members :: WellFormed(m.value)
    case Real(_) => false
    case _ => true
  }

  /** How many calls of readValue deep a value is. */
  function Depth(v: Json): (d: nat)
    ensures d >= 1
    decreases v, 0
  {
    match v
    case Arr(elements) => 1 + DepthAll(elements)
    case Obj(members) => 1 + DepthMembers(members)
    case _ => 1
  }

  function DepthAll(elements: seq<Json>): nat {
    if elements == [] then 0 else Max(Depth(elements[0]), DepthAll(elements[1..]))
  }

  function DepthMembers(members: seq<Member>): nat {
    if members == [] then 0 else Max(Depth(members[0].value), DepthMembers(members[1..]))
  }

  function Max(a: nat, b: nat): nat { if a < b then b else a }

  function NumberValue(d: DecodedNumber): Json {
    match d
    case SignedInt(n) => Int(n)
    case UnsignedInt(n) => UInt(n)
    case Double(text) => Real(text)
  }

  /** The value the reader builds from the text of `v`: integers tagged by their size, members inserted one
      after the other. */
  function Reread(v: Json): Json
    decreases v, 0
  {
    match v
    case Int(n) => NumberValue(Tagged(n))
    case UInt(n) => NumberValue(Tagged(n))
    case Arr(elements) => Arr(RereadAll(elements))
    case Obj(members) => Obj(InsertAll([], RereadMembers(members)))
    case _ => v
  }

  function RereadAll(elements: seq<Json>): (r: seq<Json>)
    ensures |r| == |elements|
  {
    if elements == [] then [] else [Reread(elements[0])] + RereadAll(elements[1..])
  }

  function RereadMembers(members: seq<Member>): (r: seq<Member>)
    ensures |r| == |members|
  {
    if members == [] then []
    else [Member(members[0].key, Reread(members[0].value))] + RereadMembers(members[1..])
  }

  /** The same value, up to the int/uint tag. */
  predicate SameUpToTag(a: Json, b: Json)
    decreases a
  {
    match a
    case Int(n) => (b.Int? || b.UInt?) && b.n == n
    case UInt(n) => (b.Int? || b.UInt?) && b.n == n
    case Arr(xs) =>
      b.Arr? && |xs| == |b.elements| && forall i :: 0 <= i < |xs| ==> SameUpToTag(xs[i], b.elements[i])
    case Obj(ms) =>
      b.Obj? && |ms| == |b.members| && forall i :: 0 <= i < |ms| ==>
        ms[i].key == b.members[i].key && SameUpToTag(ms[i].value, b.members[i].value)
    case _ => a == b
  }

  lemma {:induction false} RereadSame(v: Json)
    requires WellFormed(v)
    ensures SameUpToTag(v, Reread(v))
    decreases v, 0
  {
    match v
    case Arr(elements) => RereadAllSame(elements);
    case Obj(members) =>
      RereadMembersSame(members);
      var r := RereadMembers(members);
      assert Ascending(r) by {
        forall i, j | 0 <= i < j < |r|
          ensures Less(r[i].key, r[j].key)
        {
          assert Less(members[i].key, members[j].key);
        }
      }
      assert [] + r == r;
      InsertAllAscending([], r);
    case _ =>
  }

  lemma {:induction false} RereadAllSame(elements: seq<Json>)
    requires forall x <- elements :: WellFormed(x)
    ensures forall i :: 0 <= i < |elements| ==> SameUpToTag(elements[i], RereadAll(elements)[i])
  {
    if elements != [] {
      RereadSame(elements[0]);
      RereadAllSame(elements[1..]);
      forall i | 0 <= i < |elements|
        ensures SameUpToTag(elements[i], RereadAll(elements)[i])
      {
        if i > 0 {
          assert elements[i] == elements[1..][i - 1] && RereadAll(elements)[i] == RereadAll(elements[1..])[i - 1];
        }
      }
    }
  }

  lemma {:induction false} RereadMembersSame(members: seq<Member>)
    requires forall m <- members :: WellFormed(m.value)
    ensures forall i :: 0 <= i < |members| ==>
              && members[i].key == RereadMembers(members)[i].key
              && SameUpToTag(members[i].value, RereadMembers(members)[i].value)
  {
    if members != [] {
      var rest := members[1..];
      RereadSame(members[0].value);
      RereadMembersSame(rest);
      forall i | 0 <= i < |members|
        ensures members[i].key == RereadMembers(members)[i].key
        ensures SameUpToTag(members[i].value, RereadMembers(members)[i].value)
      {
        if i > 0 {
          assert members[i] == rest[i - 1] && RereadMembers(members)[i] == RereadMembers(rest)[i - 1];
        }
      }
    }
  }

  // ---------- Keys cut at their first NUL ----------

  function CutKeys(v: Json): Json
    decreases v, 0
  {
    match v
    case Arr(elements) => Arr(CutKeysAll(elements))
    case Obj(members) => Obj(CutKeysMembers(members))
    case _ => v
  }

  function CutKeysAll(elements: seq<Json>): (r: seq<Json>)
    ensures |r| == |elements|
  {
    if elements == [] then [] else [CutKeys(elements[0])] + CutKeysAll(elements[1..])
  }

  function CutKeysMembers(members: seq<Member>): (r: seq<Member>)
    ensures |r| == |members|
  {
    if members == [] then []
    else [Member(UpToNul(members[0].key), CutKeys(members[0].value))] + CutKeysMembers(members[1..])
  }

  predicate NoNulKeys(v: Json)
    decreases v
  {
    match v
    case Arr(elements) => forall x <- elements :: NoNulKeys(x)
    case Obj(members) => forall m <- members :: 0 !in m.key && NoNulKeys(m.value)
    case _ => true
  }
}
