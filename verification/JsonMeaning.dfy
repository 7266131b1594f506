/** What a document means, said without the way the reader builds it. */
module JsonMeaning {
  import opened Bytes
  import opened Wrappers
  import opened JsonNumbers
  import opened JsonStrings
  import opened JsonValue
  import opened JsonReader
  import opened JsonTokens
  import opened JsonText
  import opened JsonRoundTrip

  /** `r` is what a text that spells `v` stands for. An integer of 2^31 or more has the unsigned tag. An object has
      the keys that are spelled, each once and in ascending order, with the value spelled last for it. */
  ghost predicate Means(v: Json, r: Json)
    decreases v
  {
    match v
    case Int(n) => r == if n < 0x8000_0000 then Int(n) else UInt(n)
    case UInt(n) => r == if n < 0x8000_0000 then Int(n) else UInt(n)
    case Arr(xs) =>
      r.Arr? && |r.elements| == |xs| && forall i :: 0 <= i < |xs| ==> Means(xs[i], r.elements[i])
    case Obj(ms) =>
      && r.Obj? && Ascending(r.members)
      && (forall m <- ms :: Named(r.members, m.key))
      && (forall x <- r.members :: exists i :: IsLast(ms, i) && ms[i].key == x.key && Means(ms[i].value, x.value))
    case _ => r == v
  }

  lemma {:induction false} RereadMeans(v: Json)
    requires Writable(v)
    ensures Means(v, Reread(v))
    decreases v, 0
  {
    match v
    case Arr(elements) => RereadAllMeans(elements);
    case Obj(members) =>
      var r := RereadMembers(members);
      RereadMembersMean(members);
      KeysKept(members, r);
      forall x <- InsertAll([], r)
        ensures exists i :: IsLast(members, i) && members[i].key == x.key && Means(members[i].value, x.value)
      {
        InsertAllHolds([], r, x);
        var i :| IsLast(r, i) && r[i] == x;
        LastKept(members, r, i);
        assert members[i].key == x.key && Means(members[i].value, x.value);
      }
    case _ =>
  }

  lemma {:induction false} RereadAllMeans(elements: seq<Json>)
    requires forall x <- elements :: Writable(x)
    ensures forall i :: 0 <= i < |elements| ==> Means(elements[i], RereadAll(elements)[i])
    decreases elements
  {
    if elements != [] {
      RereadMeans(elements[0]);
      RereadAllMeans(elements[1..]);
      forall i | 0 <= i < |elements|
        ensures Means(elements[i], RereadAll(elements)[i])
      {
        if i > 0 {
          assert elements[i] == elements[1..][i - 1] && RereadAll(elements)[i] == RereadAll(elements[1..])[i - 1];
        }
      }
    }
  }

  lemma {:induction false} RereadMembersMean(members: seq<Member>)
    requires forall m <- members :: Writable(m.value)
    ensures forall i :: 0 <= i < |members| ==>
              && RereadMembers(members)[i].key == members[i].key
              && Means(members[i].value, RereadMembers(members)[i].value)
    decreases members
  {
    if members != [] {
      var rest := members[1..];
      RereadMeans(members[0].value);
      RereadMembersMean(rest);
      forall i | 0 <= i < |members|
        ensures RereadMembers(members)[i].key == members[i].key
        ensures Means(members[i].value, RereadMembers(members)[i].value)
      {
        if i > 0 {
          assert members[i] == rest[i - 1] && RereadMembers(members)[i] == RereadMembers(rest)[i - 1];
        }
      }
    }
  }

  lemma LastKept(members: seq<Member>, r: seq<Member>, i: int)
    requires |r| == |members| && forall j :: 0 <= j < |members| ==> r[j].key == members[j].key
    requires IsLast(r, i)
    ensures IsLast(members, i)
  {
  }

  /** Every key that is spelled has a last member, and that one is put in. */
  lemma KeysKept(members: seq<Member>, r: seq<Member>)
    requires |r| == |members| && forall j :: 0 <= j < |members| ==> r[j].key == members[j].key
    ensures Ascending(InsertAll([], r)) && forall m <- members :: Named(InsertAll([], r), m.key)
  {
    forall m <- members
      ensures Ascending(InsertAll([], r)) && Named(InsertAll([], r), m.key)
    {
      var j :| 0 <= j < |members| && members[j] == m;
      var i := LastWithKey(r, j);
      InsertAllHolds([], r, r[i]);
    }
    if members == [] {
      assert r == [];
    } else {
      assert members[0] in members;
    }
  }

  lemma {:induction false} LastWithKey(members: seq<Member>, j: int) returns (i: int)
    requires 0 <= j < |members|
    ensures IsLast(members, i) && members[i].key == members[j].key
    decreases |members| - j
  {
    if IsLast(members, j) {
      i := j;
    } else {
      var k :| j < k < |members| && members[k].key == members[j].key;
      i := LastWithKey(members, k);
    }
  }

  /** A text that spells a value, its members in any order and with any repetitions, and blanks anywhere between the
      tokens: it is read as what it means if it is nested at most 1000 deep, and meets the stack limit if not. */
  lemma ParsedMeans(text: bytes, v: Json, tail: bytes, isDouble: bytes -> bool)
    requires Writable(v) && Spells(text, Tokens(v), tail) && Stops(tail)
    ensures var p := Parse(text + tail, isDouble);
            if Depth(v) <= 1000 then p.Parsed? && Means(v, p.value) else p.StackLimit?
  {
    hide Parse, Reread, Means, Spells, Tokens, Stops, Writable, Depth;
    ParseSpelled(text, v, tail, isDouble);
    RereadMeans(v);
  }
}
