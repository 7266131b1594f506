/** What the reader makes of the writers' documents. */
module JsonRoundTrip {
  import opened Bytes
  import opened JsonStrings
  import opened JsonValue
  import opened JsonReader
  import opened JsonTokens
  import opened JsonText
  import opened JsonStyled

  lemma {:induction false} WellFormedWritable(v: Json)
    requires WellFormed(v)
    ensures Writable(v)
    decreases v
  {
    match v
    case Arr(elements) =>
      forall x <- elements
        ensures Writable(x)
      {
        WellFormedWritable(x);
      }
    case Obj(members) =>
      forall m <- members
        ensures Writable(m.value)
      {
        WellFormedWritable(m.value);
      }
    case _ =>
  }

  lemma ParseSpelled(text: bytes, v: Json, tail: bytes, isDouble: bytes -> bool)
    requires Writable(v) && Spells(text, Tokens(v), tail) && Stops(tail)
    ensures Parse(text + tail, isDouble) == if Depth(v) <= STACK_LIMIT then Parsed(Reread(v)) else StackLimit
  {
    hide Tokens, Writable, Reread, Consume, Stops, ReadValue;
    ReadsValue(text + tail, v, tail, 0, isDouble);
  }

  /** FastWriter's document, whatever stands behind it, is read as the value up to the int/uint tag exactly when
      the value is nested at most 1000 deep; if it is not, the reader throws at its stack limit. */
  lemma FastRoundTrip(v: Json, o: FastOptions, behind: bytes, isDouble: bytes -> bool)
    requires WellFormed(v) && !o.dropNull
    requires o.omitLineFeed ==> Stops(behind)
    ensures Parse(FastDocument(v, o) + behind, isDouble)
         == if Depth(v) <= STACK_LIMIT then Parsed(Reread(v)) else StackLimit
    ensures SameUpToTag(v, Reread(v))
  {
    hide FastText, Parse, Tokens, Spells;
    WellFormedWritable(v);
    RereadSame(v);
    var tail := (if o.omitLineFeed then [] else [10]) + behind;
    assert o.omitLineFeed ==> tail == behind;
    ConcatAssoc(FastText(v, o), if o.omitLineFeed then [] else [10], behind);
    FastSpells(v, o, tail);
    ParseSpelled(FastText(v, o), v, tail, isDouble);
  }

  // ---------- Cutting keys ----------

  lemma {:induction false} CutKeysWritable(v: Json)
    requires Writable(v)
    ensures Writable(CutKeys(v)) && Depth(CutKeys(v)) == Depth(v)
    decreases v, 0
  {
    match v
    case Arr(elements) => CutKeysAllWritable(elements);
    case Obj(members) => CutKeysMembersWritable(members);
    case _ =>
  }

  lemma {:induction false} CutKeysAllWritable(elements: seq<Json>)
    requires forall x <- elements :: Writable(x)
    ensures forall x <- CutKeysAll(elements) :: Writable(x)
    ensures DepthAll(CutKeysAll(elements)) == DepthAll(elements)
    decreases elements
  {
    if elements != [] {
      CutKeysWritable(elements[0]);
      CutKeysAllWritable(elements[1..]);
    }
  }

  lemma {:induction false} CutKeysMembersWritable(members: seq<Member>)
    requires forall m <- members :: Writable(m.value)
    ensures forall m <- CutKeysMembers(members) :: Writable(m.value)
    ensures DepthMembers(CutKeysMembers(members)) == DepthMembers(members)
    decreases members
  {
    if members != [] {
      CutKeysWritable(members[0].value);
      CutKeysMembersWritable(members[1..]);
    }
  }

  lemma {:induction false} UpToNulSame(s: bytes)
    requires 0 !in s
    ensures UpToNul(s) == s
  {
    if s != [] {
      assert s[0] in s && forall c <- s[1..] :: c in s;
      UpToNulSame(s[1..]);
    }
  }

  lemma {:induction false} CutKeysSame(v: Json)
    requires NoNulKeys(v)
    ensures CutKeys(v) == v
    decreases v, 0
  {
    match v
    case Arr(elements) => CutKeysAllSame(elements);
    case Obj(members) => CutKeysMembersSame(members);
    case _ =>
  }

  lemma {:induction false} CutKeysAllSame(elements: seq<Json>)
    requires forall x <- elements :: NoNulKeys(x)
    ensures CutKeysAll(elements) == elements
    decreases elements
  {
    if elements != [] {
      CutKeysSame(elements[0]);
      CutKeysAllSame(elements[1..]);
    }
  }

  lemma {:induction false} CutKeysMembersSame(members: seq<Member>)
    requires forall m <- members :: 0 !in m.key && NoNulKeys(m.value)
    ensures CutKeysMembers(members) == members
    decreases members
  {
    if members != [] {
      UpToNulSame(members[0].key);
      CutKeysSame(members[0].value);
      CutKeysMembersSame(members[1..]);
    }
  }

  lemma {:induction false} InsertKeepsNoNul(members: seq<Member>, m: Member)
    requires 0 !in m.key && NoNulKeys(m.value) && forall x <- members :: 0 !in x.key && NoNulKeys(x.value)
    ensures forall x <- Insert(members, m) :: 0 !in x.key && NoNulKeys(x.value)
  {
    if members != [] {
      InsertKeepsNoNul(members[1..], m);
    }
  }

  lemma {:induction false} InsertAllKeepsNoNul(members: seq<Member>, more: seq<Member>)
    requires forall x <- members :: 0 !in x.key && NoNulKeys(x.value)
    requires forall x <- more :: 0 !in x.key && NoNulKeys(x.value)
    ensures forall x <- InsertAll(members, more) :: 0 !in x.key && NoNulKeys(x.value)
    decreases |more|
  {
    if more != [] {
      InsertKeepsNoNul(members, more[0]);
      InsertAllKeepsNoNul(Insert(members, more[0]), more[1..]);
    }
  }

  /** A value read back from cut keys has no NUL in a key. */
  lemma {:induction false} CutKeysNoNul(v: Json)
    ensures NoNulKeys(Reread(CutKeys(v)))
    decreases v, 0
  {
    match v
    case Arr(elements) => CutKeysAllNoNul(elements);
    case Obj(members) =>
      CutKeysMembersNoNul(members);
      InsertAllKeepsNoNul([], RereadMembers(CutKeysMembers(members)));
    case _ =>
  }

  lemma {:induction false} CutKeysAllNoNul(elements: seq<Json>)
    ensures forall x <- RereadAll(CutKeysAll(elements)) :: NoNulKeys(x)
    decreases elements
  {
    if elements != [] {
      CutKeysNoNul(elements[0]);
      CutKeysAllNoNul(elements[1..]);
    }
  }

  lemma {:induction false} CutKeysMembersNoNul(members: seq<Member>)
    ensures forall m <- RereadMembers(CutKeysMembers(members)) :: 0 !in m.key && NoNulKeys(m.value)
    decreases members
  {
    if members != [] {
      CutKeysNoNul(members[0].value);
      CutKeysMembersNoNul(members[1..]);
    }
  }

  lemma {:induction false} SameNoNul(a: Json, b: Json)
    requires SameUpToTag(a, b) && NoNulKeys(b)
    ensures NoNulKeys(a)
    decreases a
  {
    match a
    case Arr(elements) =>
      forall i | 0 <= i < |elements|
        ensures NoNulKeys(elements[i])
      {
        SameNoNul(elements[i], b.elements[i]);
      }
    case Obj(members) =>
      forall i | 0 <= i < |members|
        ensures 0 !in members[i].key && NoNulKeys(members[i].value)
      {
        SameNoNul(members[i].value, b.members[i].value);
      }
    case _ =>
  }

  // ---------- StyledWriter ----------

  /** StyledWriter's document is read as the value with every key cut at its first NUL. */
  lemma StyledRoundTrip(v: Json, behind: bytes, isDouble: bytes -> bool)
    requires WellFormed(v)
    ensures Parse(StyledDocument(v) + behind, isDouble)
         == if Depth(v) <= STACK_LIMIT then Parsed(Reread(CutKeys(v))) else StackLimit
  {
    hide Styled, Parse, Tokens, Spells, CutKeys, Depth;
    WellFormedWritable(v);
    CutKeysWritable(v);
    StyledGrows(v, [], [], [10] + behind);
    var text := Styled(v, [], []);
    assert text[0..] == text;
    ConcatAssoc(text, [10], behind);
    ParseSpelled(text, CutKeys(v), [10] + behind, isDouble);
  }

  /** The two writers' documents are read as the same value exactly when no key holds a NUL. */
  lemma StyledAgreesWithFast(v: Json, o: FastOptions, isDouble: bytes -> bool)
    requires WellFormed(v) && !o.dropNull && Depth(v) <= STACK_LIMIT
    ensures Parse(StyledDocument(v), isDouble) == Parse(FastDocument(v, o), isDouble) <==> NoNulKeys(v)
  {
    hide StyledDocument, FastDocument, Parse, CutKeys, Reread, NoNulKeys, SameUpToTag, Depth;
    StyledRoundTrip(v, [], isDouble);
    FastRoundTrip(v, o, [], isDouble);
    assert StyledDocument(v) + [] == StyledDocument(v);
    assert FastDocument(v, o) + [] == FastDocument(v, o);
    if NoNulKeys(v) {
      CutKeysSame(v);
    } else if Reread(CutKeys(v)) == Reread(v) {
      CutKeysNoNul(v);
      SameNoNul(v, Reread(v));
    }
  }
}
