/** The layout StyledWriter chooses, as a function of the value, the document so far and the indentation: the
    cached child strings of the writer leave no trace in it. */
module JsonStyled {
  import opened Bytes
  import opened Wrappers
  import opened JsonNumbers
  import opened JsonStrings
  import opened JsonValue
  import opened JsonReader
  import opened JsonTokens
  import opened JsonText

  const RIGHT_MARGIN: nat := 74
  const INDENT: bytes := [32, 32, 32]
  const SPACE: bytes := [32]

  // ---------- The layout ----------

  /** Scalars and empty containers go through pushValue. */
  predicate Flat(v: Json) { (v.Arr? ==> v.elements == []) && (v.Obj? ==> v.members == []) }

  function FlatText(v: Json): bytes {
    if v.Arr? then LEFT_BRACKET + RIGHT_BRACKET
    else if v.Obj? then LEFT_BRACE + RIGHT_BRACE
    else ScalarText(v)
  }

  function TextLengths(elements: seq<Json>): nat {
    if elements == [] then 0 else |FlatText(elements[0])| + TextLengths(elements[1..])
  }

  /** isMultineArray */
  predicate MultiLine(elements: seq<Json>) {
    || |elements| * 3 >= RIGHT_MARGIN
    || (exists x <- elements :: !Flat(x))
    || 4 + (|elements| - 1) * 2 + TextLengths(elements) >= RIGHT_MARGIN
  }

  function Joined(elements: seq<Json>): bytes {
    if elements == [] then []
    else FlatText(elements[0]) + (if |elements| == 1 then [] else COMMA_TOKEN + (SPACE + Joined(elements[1..])))
  }

  /** writeIndent: nothing behind a blank, else a new line if need be and the indentation. */
  function IndentBlank(doc: bytes, indent: bytes): bytes {
    if doc != [] && doc[|doc| - 1] == 32 then []
    else if doc != [] && doc[|doc| - 1] != 10 then [10] + indent
    else indent
  }

  function Indented(doc: bytes, indent: bytes): bytes { doc + IndentBlank(doc, indent) }

  function WithIndent(doc: bytes, indent: bytes, text: bytes): bytes { Indented(doc, indent) + text }

  /** The document after writeValue. */
  function Styled(v: Json, doc: bytes, indent: bytes): bytes
    decreases v, 0
  {
    if Flat(v) then doc + FlatText(v)
    else if v.Obj? then
      var inside := StyledMembers(v.members, WithIndent(doc, indent, LEFT_BRACE), indent + INDENT);
      WithIndent(inside, indent, RIGHT_BRACE)
    else if MultiLine(v.elements) then
      var inside := StyledElements(v.elements, WithIndent(doc, indent, LEFT_BRACKET), indent + INDENT);
      WithIndent(inside, indent, RIGHT_BRACKET)
    else doc + (LEFT_BRACKET + (SPACE + Joined(v.elements)) + (SPACE + RIGHT_BRACKET))
  }

  function StyledElements(elements: seq<Json>, doc: bytes, indent: bytes): bytes {
    if elements == [] then doc
    else
      var first := Styled(elements[0], Indented(doc, indent), indent);
      if |elements| == 1 then first else StyledElements(elements[1..], first + COMMA_TOKEN, indent)
  }

  function KeyText(doc: bytes, indent: bytes, key: bytes): bytes {
    WithIndent(doc, indent, Quoted(UpToNul(key))) + (SPACE + COLON_TOKEN + SPACE)
  }

  function StyledMembers(members: seq<Member>, doc: bytes, indent: bytes): bytes {
    if members == [] then doc
    else
      var first := Styled(members[0].value, KeyText(doc, indent, members[0].key), indent);
      if |members| == 1 then first else StyledMembers(members[1..], first + COMMA_TOKEN, indent)
  }

  function StyledDocument(v: Json): bytes { Styled(v, [], []) + [10] }

  // ---------- It spells the tokens of the value with cut keys ----------

  /** `doc` has grown to `now` by a text that spells the tokens. */
  predicate Grows(doc: bytes, now: bytes, tokens: seq<bytes>, tail: bytes) {
    doc <= now && Spells(now[|doc|..], tokens, tail)
  }

  lemma GrowsTwice(doc: bytes, mid: bytes, now: bytes, s: seq<bytes>, t: seq<bytes>, tail: bytes)
    requires mid <= now && Grows(doc, mid, s, now[|mid|..] + tail) && Grows(mid, now, t, tail)
    ensures Grows(doc, now, s + t, tail)
  {
    hide Spells;
    SpellsConcat(mid[|doc|..], now[|mid|..], s, t, tail);
    assert now[|doc|..] == mid[|doc|..] + now[|mid|..];
  }

  lemma GrowsBy(doc: bytes, text: bytes, tokens: seq<bytes>, tail: bytes)
    requires Spells(text, tokens, tail)
    ensures Grows(doc, doc + text, tokens, tail)
  {
    hide Spells;
    assert (doc + text)[|doc|..] == text;
  }

  lemma GrowsBlank(doc: bytes, blank: bytes, now: bytes, tokens: seq<bytes>, tail: bytes)
    requires Blank(blank) && tokens != [] && Grows(doc + blank, now, tokens, tail)
    ensures Grows(doc, now, tokens, tail)
  {
    hide Spells;
    SpellsBlank(blank, now[|doc + blank|..], tokens, tail);
    assert now[|doc|..] == blank + now[|doc + blank|..];
  }

  /** Indentation and one token. */
  lemma GrowsToken(doc: bytes, indent: bytes, token: bytes, tail: bytes)
    requires Blank(indent) && token != [] && !IsSpace(token[0])
    ensures Grows(doc, WithIndent(doc, indent, token), [token], tail)
  {
    hide Spells, Grows;
    SpellsToken(token, tail);
    GrowsBy(Indented(doc, indent), token, [token], tail);
    GrowsBlank(doc, IndentBlank(doc, indent), WithIndent(doc, indent, token), [token], tail);
  }

  lemma FlatSpells(v: Json, tail: bytes)
    requires Flat(v) && Writable(v)
    ensures Spells(FlatText(v), Tokens(CutKeys(v)), tail)
  {
    hide Spells;
    if v.Arr? {
      SpellsToken(RIGHT_BRACKET, tail);
      SpellsToken(LEFT_BRACKET, RIGHT_BRACKET + tail);
      SpellsConcat(LEFT_BRACKET, RIGHT_BRACKET, [LEFT_BRACKET], [RIGHT_BRACKET], tail);
      assert [] + [RIGHT_BRACKET] == [RIGHT_BRACKET];
    } else if v.Obj? {
      SpellsToken(RIGHT_BRACE, tail);
      SpellsToken(LEFT_BRACE, RIGHT_BRACE + tail);
      SpellsConcat(LEFT_BRACE, RIGHT_BRACE, [LEFT_BRACE], [RIGHT_BRACE], tail);
      assert [] + [RIGHT_BRACE] == [RIGHT_BRACE];
    } else {
      ScalarSpells(v, tail);
    }
  }

  lemma {:induction false} JoinedSpells(elements: seq<Json>, tail: bytes)
    requires forall x <- elements :: Flat(x) && Writable(x)
    ensures Spells(Joined(elements), ElementTokens(CutKeysAll(elements)), tail)
  {
    hide Spells, FlatText, Flat, CutKeys, Tokens;
    if elements == [] {
      SpellsNothing(tail);
    } else {
      var first, last := elements[0], |elements| == 1;
      var more := Joined(elements[1..]);
      FlatSpells(first, (if last then [] else COMMA_TOKEN + (SPACE + more)) + tail);
      JoinedSpells(elements[1..], tail);
      SpellsItem(FlatText(first), Tokens(CutKeys(first)), last, SPACE, more,
                 ElementTokens(CutKeysAll(elements[1..])), tail);
      CutKeysAllFirst(elements);
    }
  }

  lemma CutKeysAllFirst(elements: seq<Json>)
    requires elements != []
    ensures ElementTokens(CutKeysAll(elements)) ==
            Tokens(CutKeys(elements[0]))
            + (if |elements| == 1 then [] else [COMMA_TOKEN] + ElementTokens(CutKeysAll(elements[1..])))
    ensures |elements| > 1 ==> ElementTokens(CutKeysAll(elements[1..])) != []
  {
    var cut := CutKeysAll(elements);
    assert cut[0] == CutKeys(elements[0]) && cut[1..] == CutKeysAll(elements[1..]);
  }

  lemma CutKeysMembersFirst(members: seq<Member>)
    requires members != []
    ensures MemberTokens(CutKeysMembers(members)) ==
            [Quoted(UpToNul(members[0].key)), COLON_TOKEN] + (Tokens(CutKeys(members[0].value))
            + (if |members| == 1 then [] else [COMMA_TOKEN] + MemberTokens(CutKeysMembers(members[1..]))))
    ensures |members| > 1 ==> MemberTokens(CutKeysMembers(members[1..])) != []
  {
    hide Quoted;
    var cut := CutKeysMembers(members);
    assert cut[0] == Member(UpToNul(members[0].key), CutKeys(members[0].value));
    assert cut[1..] == CutKeysMembers(members[1..]);
    ConcatAssoc([Quoted(cut[0].key), COLON_TOKEN], Tokens(cut[0].value),
                if |members| == 1 then [] else [COMMA_TOKEN] + MemberTokens(cut[1..]));
  }

  /** Whichever layout is chosen, the text spells the tokens of the value with its keys cut. */
  lemma {:induction false} StyledGrows(v: Json, doc: bytes, indent: bytes, tail: bytes)
    requires Writable(v) && Blank(indent)
    ensures Grows(doc, Styled(v, doc, indent), Tokens(CutKeys(v)), tail)
    decreases v, 0
  {
    hide Spells, Grows, FlatText, MultiLine, Joined, WithIndent, ElementTokens, MemberTokens, StyledElements,
         StyledMembers, CutKeysAll, CutKeysMembers;
    if Flat(v) {
      FlatSpells(v, tail);
      GrowsBy(doc, FlatText(v), Tokens(CutKeys(v)), tail);
    } else if v.Obj? {
      var open := WithIndent(doc, indent, LEFT_BRACE);
      var inside := StyledMembers(v.members, open, indent + INDENT);
      var now := WithIndent(inside, indent, RIGHT_BRACE);
      GrowsToken(inside, indent, RIGHT_BRACE, tail);
      GrowsForward(inside, now, [RIGHT_BRACE], tail);
      var tail1 := now[|inside|..] + tail;
      StyledMembersGrow(v.members, open, indent + INDENT, tail1);
      GrowsForward(open, inside, MemberTokens(CutKeysMembers(v.members)), tail1);
      GrowsToken(doc, indent, LEFT_BRACE, inside[|open|..] + tail1);
      GrowsTwice(doc, open, inside, [LEFT_BRACE], MemberTokens(CutKeysMembers(v.members)), tail1);
      GrowsTwice(doc, inside, now, [LEFT_BRACE] + MemberTokens(CutKeysMembers(v.members)), [RIGHT_BRACE], tail);
      ConcatAssoc([LEFT_BRACE], MemberTokens(CutKeysMembers(v.members)), [RIGHT_BRACE]);
    } else if MultiLine(v.elements) {
      var open := WithIndent(doc, indent, LEFT_BRACKET);
      var inside := StyledElements(v.elements, open, indent + INDENT);
      var now := WithIndent(inside, indent, RIGHT_BRACKET);
      GrowsToken(inside, indent, RIGHT_BRACKET, tail);
      GrowsForward(inside, now, [RIGHT_BRACKET], tail);
      var tail1 := now[|inside|..] + tail;
      StyledElementsGrow(v.elements, open, indent + INDENT, tail1);
      GrowsForward(open, inside, ElementTokens(CutKeysAll(v.elements)), tail1);
      GrowsToken(doc, indent, LEFT_BRACKET, inside[|open|..] + tail1);
      GrowsTwice(doc, open, inside, [LEFT_BRACKET], ElementTokens(CutKeysAll(v.elements)), tail1);
      GrowsTwice(doc, inside, now, [LEFT_BRACKET] + ElementTokens(CutKeysAll(v.elements)), [RIGHT_BRACKET], tail);
      ConcatAssoc([LEFT_BRACKET], ElementTokens(CutKeysAll(v.elements)), [RIGHT_BRACKET]);
    } else {
      SingleLineGrows(v, doc, tail);
    }
  }

  lemma GrowsForward(doc: bytes, now: bytes, tokens: seq<bytes>, tail: bytes)
    requires Grows(doc, now, tokens, tail)
    ensures doc <= now
  {
  }

  lemma SingleLineGrows(v: Json, doc: bytes, tail: bytes)
    requires v.Arr? && v.elements != [] && !MultiLine(v.elements) && Writable(v)
    ensures Grows(doc, doc + (LEFT_BRACKET + (SPACE + Joined(v.elements)) + (SPACE + RIGHT_BRACKET)),
                  Tokens(CutKeys(v)), tail)
  {
    hide Spells, Grows, Joined, ElementTokens, Flat;
    var tokens := ElementTokens(CutKeysAll(v.elements));
    JoinedSpells(v.elements, (SPACE + RIGHT_BRACKET) + tail);
    CutKeysAllFirst(v.elements);
    SpellsBlank(SPACE, Joined(v.elements), tokens, (SPACE + RIGHT_BRACKET) + tail);
    SpellsBracketed(LEFT_BRACKET, SPACE + Joined(v.elements), SPACE, RIGHT_BRACKET, tokens, tail);
    GrowsBy(doc, LEFT_BRACKET + (SPACE + Joined(v.elements)) + (SPACE + RIGHT_BRACKET), Tokens(CutKeys(v)), tail);
  }

  /** An item, a comma and the items behind it. */
  lemma GrowsItem(doc: bytes, first: bytes, now: bytes, tokens: seq<bytes>, moreTokens: seq<bytes>, tail: bytes)
    requires first + COMMA_TOKEN <= now
    requires Grows(doc, first, tokens, COMMA_TOKEN + now[|first + COMMA_TOKEN|..] + tail)
    requires Grows(first + COMMA_TOKEN, now, moreTokens, tail)
    ensures Grows(doc, now, tokens + ([COMMA_TOKEN] + moreTokens), tail)
  {
    hide Spells, Grows;
    var tail1 := now[|first + COMMA_TOKEN|..] + tail;
    SpellsToken(COMMA_TOKEN, tail1);
    GrowsBy(first, COMMA_TOKEN, [COMMA_TOKEN], tail1);
    GrowsTwice(first, first + COMMA_TOKEN, now, [COMMA_TOKEN], moreTokens, tail);
    assert now[|first|..] == COMMA_TOKEN + now[|first + COMMA_TOKEN|..];
    GrowsTwice(doc, first, now, tokens, [COMMA_TOKEN] + moreTokens, tail);
  }

  lemma {:induction false} StyledElementsGrow(elements: seq<Json>, doc: bytes, indent: bytes, tail: bytes)
    requires elements != [] && Blank(indent) && forall x <- elements :: Writable(x)
    ensures Grows(doc, StyledElements(elements, doc, indent), ElementTokens(CutKeysAll(elements)), tail)
    decreases elements, 0
  {
    hide Spells, Grows, Styled, Tokens, CutKeys, Indented;
    var v := elements[0];
    var tokens := Tokens(CutKeys(v));
    var first := Styled(v, Indented(doc, indent), indent);
    CutKeysAllFirst(elements);
    if |elements| == 1 {
      StyledGrows(v, Indented(doc, indent), indent, tail);
      IndentedGrows(doc, indent, first, tokens, tail);
      assert tokens + [] == tokens;
    } else {
      var now := StyledElements(elements[1..], first + COMMA_TOKEN, indent);
      StyledElementsGrow(elements[1..], first + COMMA_TOKEN, indent, tail);
      GrowsForward(first + COMMA_TOKEN, now, ElementTokens(CutKeysAll(elements[1..])), tail);
      var tail1 := COMMA_TOKEN + now[|first + COMMA_TOKEN|..] + tail;
      StyledGrows(v, Indented(doc, indent), indent, tail1);
      IndentedGrows(doc, indent, first, tokens, tail1);
      GrowsItem(doc, first, now, tokens, ElementTokens(CutKeysAll(elements[1..])), tail);
    }
  }

  lemma IndentedGrows(doc: bytes, indent: bytes, now: bytes, tokens: seq<bytes>, tail: bytes)
    requires Blank(indent) && tokens != [] && Grows(Indented(doc, indent), now, tokens, tail)
    ensures Grows(doc, now, tokens, tail)
  {
    hide Grows;
    GrowsBlank(doc, IndentBlank(doc, indent), now, tokens, tail);
  }

  /** A member's key, its colon and its value. */
  lemma GrowsMember(m: Member, doc: bytes, indent: bytes, now: bytes, tokens: seq<bytes>, tail: bytes)
    requires Blank(indent) && tokens != [] && Grows(KeyText(doc, indent, m.key), now, tokens, tail)
    ensures Grows(doc, now, [Quoted(UpToNul(m.key)), COLON_TOKEN] + tokens, tail)
  {
    hide Spells, Grows, Quoted, WithIndent;
    var key := Quoted(UpToNul(m.key));
    var d1 := WithIndent(doc, indent, key);
    var d2 := d1 + (SPACE + COLON_TOKEN);
    assert KeyText(doc, indent, m.key) == d2 + SPACE;
    GrowsBlank(d2, SPACE, now, tokens, tail);
    GrowsForward(d2, now, tokens, tail);
    var tail1 := now[|d2|..] + tail;
    SpellsToken(COLON_TOKEN, tail1);
    SpellsBlank(SPACE, COLON_TOKEN, [COLON_TOKEN], tail1);
    GrowsBy(d1, SPACE + COLON_TOKEN, [COLON_TOKEN], tail1);
    GrowsTwice(d1, d2, now, [COLON_TOKEN], tokens, tail);
    GrowsForward(d1, now, [COLON_TOKEN] + tokens, tail);
    QuotedForm(UpToNul(m.key));
    GrowsToken(doc, indent, key, now[|d1|..] + tail);
    GrowsTwice(doc, d1, now, [key], [COLON_TOKEN] + tokens, tail);
    assert [key] + ([COLON_TOKEN] + tokens) == [key, COLON_TOKEN] + tokens;
  }

  lemma {:induction false} StyledMembersGrow(members: seq<Member>, doc: bytes, indent: bytes, tail: bytes)
    requires members != [] && Blank(indent) && forall m <- members :: Writable(m.value)
    ensures Grows(doc, StyledMembers(members, doc, indent), MemberTokens(CutKeysMembers(members)), tail)
    decreases members, 0
  {
    hide Spells, Grows, Styled, Tokens, CutKeys, KeyText, Quoted;
    var m := members[0];
    var tokens := Tokens(CutKeys(m.value));
    var first := Styled(m.value, KeyText(doc, indent, m.key), indent);
    CutKeysMembersFirst(members);
    if |members| == 1 {
      StyledGrows(m.value, KeyText(doc, indent, m.key), indent, tail);
      GrowsMember(m, doc, indent, first, tokens, tail);
      assert tokens + [] == tokens;
    } else {
      var now := StyledMembers(members[1..], first + COMMA_TOKEN, indent);
      var moreTokens := MemberTokens(CutKeysMembers(members[1..]));
      StyledMembersGrow(members[1..], first + COMMA_TOKEN, indent, tail);
      GrowsForward(first + COMMA_TOKEN, now, moreTokens, tail);
      var tail1 := COMMA_TOKEN + now[|first + COMMA_TOKEN|..] + tail;
      StyledGrows(m.value, KeyText(doc, indent, m.key), indent, tail1);
      GrowsMember(m, doc, indent, first, tokens, tail1);
      GrowsItem(doc, first, now, [Quoted(UpToNul(m.key)), COLON_TOKEN] + tokens, moreTokens, tail);
      ConcatAssoc([Quoted(UpToNul(m.key)), COLON_TOKEN], tokens, [COMMA_TOKEN] + moreTokens);
    }
  }
}
