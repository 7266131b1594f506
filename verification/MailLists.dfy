/** The comma-separated lists of mails that the skill index stores. */
module MailLists {
  import opened Bytes

  predicate CommaFree(s: bytes) { COMMA !in s }

  /** What std::getline takes off the front, up to the first delimiter. */
  function Item(s: bytes, delim: byte): (r: bytes)
    ensures |r| <= |s| && delim !in r && r == s[..|r|] && (|r| < |s| ==> s[|r|] == delim)
  {
    if s == [] || s[0] == delim then [] else [s[0]] + Item(s[1..], delim)
  }

  /** split(s, ','): getline until the stream is at its end, so a last comma adds no empty item. */
  function Split(s: bytes): seq<bytes>
    decreases |s|
  {
    if s == [] then []
    else if |Item(s, COMMA)| == |s| then [s]
    else [Item(s, COMMA)] + Split(s[|Item(s, COMMA)| + 1..])
  }

  function Join(items: seq<bytes>): bytes {
    if items == [] then []
    else if |items| == 1 then items[0]
    else items[0] + [COMMA] + Join(items[1..])
  }

  predicate ItemsOk(items: seq<bytes>) { forall x <- items :: x != [] && CommaFree(x) }

  /** A stored list: no item of it is empty, and none is lost by splitting and joining. */
  predicate IsList(t: bytes) { t != [] && ItemsOk(Split(t)) && Join(Split(t)) == t }

  lemma {:induction false} ItemOf(x: bytes, rest: bytes, delim: byte)
    requires delim !in x && (rest == [] || rest[0] == delim)
    ensures Item(x + rest, delim) == x
  {
    if x == [] {
      assert x + rest == rest;
    } else {
      ConcatCut(x, rest, 1);
      ItemOf(x[1..], rest, delim);
    }
  }

  /** The text of a list, by its commas: one behind every mail but the last. */
  lemma JoinTwo(a: bytes, b: bytes, more: seq<bytes>)
    ensures Join([a]) == a && Join([a, b] + more) == a + ([44] + Join([b] + more))
  {
    assert ([a, b] + more)[1..] == [b] + more;
    ConcatAssoc(a, [COMMA], Join([b] + more));
  }

  /** Joining and splitting again, for items a list can hold. */
  lemma {:induction false} SplitJoin(items: seq<bytes>)
    requires ItemsOk(items)
    ensures Split(Join(items)) == items && (items != [] ==> Join(items) != [])
  {
    assert items != [] ==> items[0] in items;
    if |items| == 1 {
      ItemOf(items[0], [], COMMA);
      assert items[0] + [] == items[0];
    } else if items != [] {
      var x, rest := items[0], Join(items[1..]);
      SplitJoin(items[1..]);
      ItemOf(x, [COMMA] + rest, COMMA);
      ConcatAssoc(x, [COMMA], rest);
      assert Join(items)[|x| + 1..] == rest;
    }
  }

  lemma {:induction false} JoinSnoc(items: seq<bytes>, x: bytes)
    requires items != []
    ensures Join(items + [x]) == Join(items) + [COMMA] + x
  {
    if |items| == 1 {
      assert (items + [x])[1..] == [x];
    } else {
      JoinSnoc(items[1..], x);
      ConcatCut(items, [x], 1);
      assert items[0] + [COMMA] + (Join(items[1..]) + [COMMA] + x)
          == items[0] + [COMMA] + Join(items[1..]) + [COMMA] + x;
    }
  }

  /** saveSkill's text with one more mail. */
  lemma Appended(t: bytes, mail: bytes)
    requires IsList(t) && mail != [] && CommaFree(mail)
    ensures IsList(t + [COMMA] + mail) && Split(t + [COMMA] + mail) == Split(t) + [mail]
  {
    JoinSnoc(Split(t), mail);
    SplitJoin(Split(t) + [mail]);
  }

  lemma Single(mail: bytes)
    requires mail != [] && CommaFree(mail)
    ensures IsList(mail) && Split(mail) == [mail]
  {
    SplitJoin([mail]);
  }

  /** Whether a comma is due shows in the text joined so far. */
  lemma JoinMore(items: seq<bytes>, x: bytes)
    requires ItemsOk(items)
    ensures Join(items + [x]) == if Join(items) == [] then x else Join(items) + [COMMA] + x
  {
    SplitJoin(items);
    if items != [] {
      JoinSnoc(items, x);
    }
  }

  function Without(items: seq<bytes>, mail: bytes): (r: seq<bytes>)
    ensures forall x :: x in r <==> x in items && x != mail
  {
    if items == [] then [] else (if items[0] == mail then [] else [items[0]]) + Without(items[1..], mail)
  }

  lemma {:induction false} WithoutSnoc(items: seq<bytes>, x: bytes, mail: bytes)
    ensures Without(items + [x], mail) == Without(items, mail) + (if x == mail then [] else [x])
  {
    if items == [] {
      assert [x][1..] == [];
    } else {
      ConcatCut(items, [x], 1);
      WithoutSnoc(items[1..], x, mail);
    }
  }

  lemma {:induction false} WithoutDistinct(items: seq<bytes>, mail: bytes)
    requires Distinct(items)
    ensures Distinct(Without(items, mail))
  {
    if items != [] {
      var rest := Without(items[1..], mail);
      WithoutDistinct(items[1..], mail);
      if items[0] != mail {
        forall j | 0 <= j < |rest|
          ensures rest[j] != items[0]
        {
          assert rest[j] in rest && rest[j] in items[1..];
          var k :| 0 <= k < |items[1..]| && items[1..][k] == rest[j];
          assert items[k + 1] == rest[j];
        }
      }
    }
  }

  lemma {:induction false} WithoutTwice(items: seq<bytes>, mail: bytes)
    ensures Without(Without(items, mail), mail) == Without(items, mail)
  {
    if items != [] {
      WithoutTwice(items[1..], mail);
      var rest := Without(items[1..], mail);
      if items[0] != mail {
        assert ([items[0]] + rest)[1..] == rest;
      } else {
        assert [] + rest == rest;
      }
    }
  }

  /** The accumulation loop of deleteUserFromSkill: a comma is put in front when something has been collected. */
  function Rejoined(items: seq<bytes>, mail: bytes): bytes {
    if items == [] then []
    else
      var before, x := Rejoined(items[..|items| - 1], mail), items[|items| - 1];
      if x == mail then before else if before == [] then x else before + [COMMA] + x
  }

  /** For items a list can hold, the other mails joined. */
  lemma {:induction false} RejoinedJoins(items: seq<bytes>, mail: bytes)
    requires ItemsOk(items)
    ensures Rejoined(items, mail) == Join(Without(items, mail))
    decreases |items|
  {
    hide Join, Without;
    if items == [] {
      NothingJoined(mail);
    } else {
      var front, x := items[..|items| - 1], items[|items| - 1];
      assert forall y <- front :: y in items;
      RejoinedJoins(front, mail);
      assert items == front + [x];
      WithoutSnoc(front, x, mail);
      var kept := Without(front, mail);
      JoinMore(kept, x);
      assert kept + [] == kept;
    }
  }

  lemma NothingJoined(mail: bytes)
    ensures Join(Without([], mail)) == []
  {
  }

  /** split and split2 */
  method SplitText(s: bytes) returns (elems: seq<bytes>)
    ensures elems == Split(s)
  {
    elems := [];
    var rest := s;
    while rest != []
      invariant elems + Split(rest) == Split(s)
      decreases |rest|
    {
      var item := Item(rest, COMMA);
      if |item| == |rest| {
        assert item == rest;
        ConcatAssoc(elems, [rest], []);
        rest := [];
      } else {
        ConcatAssoc(elems, [item], Split(rest[|item| + 1..]));
        rest := rest[|item| + 1..];
      }
      elems := elems + [item];
    }
  }

  /** The accumulation loop of deleteUserFromSkill */
  method RejoinWithout(items: seq<bytes>, mail: bytes) returns (newUsers: bytes)
    ensures newUsers == Rejoined(items, mail)
    ensures ItemsOk(items) ==> newUsers == Join(Without(items, mail))
  {
    hide Join, Without;
    newUsers := [];
    for i := 0 to |items|
      invariant newUsers == Rejoined(items[..i], mail)
    {
      assert items[..i + 1][..i] == items[..i];
      if mail != items[i] {
        if newUsers == [] {
          newUsers := newUsers + items[i];
        } else {
          newUsers := newUsers + [COMMA];
          newUsers := newUsers + items[i];
        }
      }
    }
    assert items[..|items|] == items;
    if ItemsOk(items) {
      RejoinedJoins(items, mail);
    }
  }
}
