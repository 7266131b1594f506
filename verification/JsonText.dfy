/** The texts FastWriter and StyledWriter produce, and that both spell the tokens of the value. */
module JsonText {
  import opened Bytes
  import opened Wrappers
  import opened Decimals
  import opened JsonNumbers
  import opened JsonStrings
  import opened JsonValue
  import opened JsonReader
  import opened JsonTokens

  // ---------- FastWriter ----------

  /** yamlCompatiblityEnabled_, dropNullPlaceholders_, omitEndingLineFeed_ */
  datatype FastOptions = FastOptions(yaml: bool, dropNull: bool, omitLineFeed: bool)

  function ColonText(o: FastOptions): bytes { if o.yaml then [58, 32] else [58] }

  function FastText(v: Json, o: FastOptions): bytes
    decreases v, 0
  {
    match v
    case Null => if o.dropNull then [] else NULL_TEXT
    case Arr(elements) => LEFT_BRACKET + FastElements(elements, o) + RIGHT_BRACKET
    case Obj(members) => LEFT_BRACE + FastMembers(members, o) + RIGHT_BRACE
    case _ => ScalarText(v)
  }

  function FastElements(elements: seq<Json>, o: FastOptions): bytes {
    if elements == [] then []
    else FastText(elements[0], o) + (if |elements| == 1 then [] else COMMA_TOKEN + FastElements(elements[1..], o))
  }

  function FastMembers(members: seq<Member>, o: FastOptions): bytes {
    if members == [] then []
    else Quoted(members[0].key) + (ColonText(o) + (FastText(members[0].value, o) +
           (if |members| == 1 then [] else COMMA_TOKEN + FastMembers(members[1..], o))))
  }

  function FastDocument(v: Json, o: FastOptions): bytes {
    FastText(v, o) + (if o.omitLineFeed then [] else [10])
  }

  // ---------- Texts that spell tokens ----------

  predicate Blank(s: bytes) { forall i :: 0 <= i < |s| ==> IsSpace(s[i]) }

  /** A text whose tokens are `tokens`, in front of `tail`. */
  predicate Spells(text: bytes, tokens: seq<bytes>, tail: bytes) { Consume(text + tail, tokens) == Some(tail) }

  lemma SpellsConcat(a: bytes, b: bytes, s: seq<bytes>, t: seq<bytes>, tail: bytes)
    requires Spells(a, s, b + tail) && Spells(b, t, tail)
    ensures Spells(a + b, s + t, tail)
  {
    hide Consume;
    ConcatAssoc(a, b, tail);
    ConsumeConcat(a + (b + tail), s, t);
  }

  lemma SpellsToken(token: bytes, tail: bytes)
    requires token != [] && !IsSpace(token[0])
    ensures Spells(token, [token], tail)
  {
    assert (token + tail)[|token|..] == tail;
  }

  lemma SpellsNothing(tail: bytes)
    ensures Spells([], [], tail)
  {
    assert [] + tail == tail;
  }

  lemma {:induction false} SkipBlank(blank: bytes, s: bytes)
    requires Blank(blank)
    ensures SkipSpaces(blank + s) == SkipSpaces(s)
  {
    if blank == [] {
      assert blank + s == s;
    } else {
      SkipBlank(blank[1..], s);
      ConcatCut(blank, s, 1);
    }
  }

  lemma SpellsBlank(blank: bytes, text: bytes, tokens: seq<bytes>, tail: bytes)
    requires Blank(blank) && tokens != [] && Spells(text, tokens, tail)
    ensures Spells(blank + text, tokens, tail)
  {
    ConcatAssoc(blank, text, tail);
    SkipBlank(blank, text + tail);
  }

  /** A text between two brackets, blanks allowed behind the first and before the second. */
  lemma SpellsBracketed(left: bytes, text: bytes, blank: bytes, right: bytes, tokens: seq<bytes>, tail: bytes)
    requires Punctuation(left) != ErrorToken && Punctuation(right) != ErrorToken && Blank(blank)
    requires Spells(text, tokens, (blank + right) + tail)
    ensures Spells(left + text + (blank + right), [left] + (tokens + [right]), tail)
  {
    hide Spells;
    SpellsToken(right, tail);
    SpellsBlank(blank, right, [right], tail);
    SpellsConcat(text, blank + right, tokens, [right], tail);
    SpellsToken(left, (text + (blank + right)) + tail);
    SpellsConcat(left, text + (blank + right), [left], tokens + [right], tail);
    ConcatAssoc(left, text, blank + right);
  }

  lemma ScalarSpells(v: Json, tail: bytes)
    requires Writable(v) && !v.Arr? && !v.Obj?
    ensures Spells(ScalarText(v), [ScalarText(v)], tail)
  {
    hide Spells;
    match v
    case Int(n) => IntTextFirst(n); SpellsToken(ScalarText(v), tail);
    case UInt(n) => IntTextFirst(n); SpellsToken(ScalarText(v), tail);
    case _ => SpellsToken(ScalarText(v), tail);
  }

  /** FastWriter's text spells the tokens of the value. */
  lemma {:induction false} FastSpells(v: Json, o: FastOptions, tail: bytes)
    requires Writable(v) && !o.dropNull
    ensures Spells(FastText(v, o), Tokens(v), tail)
    decreases v, 0
  {
    hide Spells, ElementTokens, MemberTokens;
    match v
    case Arr(elements) =>
      FastElementsSpell(elements, o, ([] + RIGHT_BRACKET) + tail);
      SpellsBracketed(LEFT_BRACKET, FastElements(elements, o), [], RIGHT_BRACKET, ElementTokens(elements), tail);
      assert [] + RIGHT_BRACKET == RIGHT_BRACKET;
    case Obj(members) =>
      FastMembersSpell(members, o, ([] + RIGHT_BRACE) + tail);
      SpellsBracketed(LEFT_BRACE, FastMembers(members, o), [], RIGHT_BRACE, MemberTokens(members), tail);
      assert [] + RIGHT_BRACE == RIGHT_BRACE;
    case _ =>
      ScalarSpells(v, tail);
  }

  /** Behind one item of a list: nothing, or a comma, blanks and the other items. */
  lemma SpellsItem(text: bytes, tokens: seq<bytes>, last: bool, blank: bytes, more: bytes, moreTokens: seq<bytes>,
                   tail: bytes)
    requires Blank(blank)
    requires Spells(text, tokens, (if last then [] else COMMA_TOKEN + (blank + more)) + tail)
    requires !last ==> Spells(more, moreTokens, tail) && moreTokens != []
    ensures Spells(text + (if last then [] else COMMA_TOKEN + (blank + more)),
                   tokens + (if last then [] else [COMMA_TOKEN] + moreTokens), tail)
  {
    hide Spells;
    if last {
      SpellsNothing(tail);
      SpellsConcat(text, [], tokens, [], tail);
    } else {
      SpellsBlank(blank, more, moreTokens, tail);
      SpellsToken(COMMA_TOKEN, (blank + more) + tail);
      SpellsConcat(COMMA_TOKEN, blank + more, [COMMA_TOKEN], moreTokens, tail);
      SpellsConcat(text, COMMA_TOKEN + (blank + more), tokens, [COMMA_TOKEN] + moreTokens, tail);
    }
  }

  lemma {:induction false} FastElementsSpell(elements: seq<Json>, o: FastOptions, tail: bytes)
    requires !o.dropNull && forall x <- elements :: Writable(x)
    ensures Spells(FastElements(elements, o), ElementTokens(elements), tail)
    decreases elements, 0
  {
    hide Spells, FastText, Tokens;
    if elements == [] {
      SpellsNothing(tail);
    } else {
      var more := if |elements| == 1 then [] else FastElements(elements[1..], o);
      assert [] + more == more;
      FastSpells(elements[0], o, (if |elements| == 1 then [] else COMMA_TOKEN + more) + tail);
      FastElementsSpell(elements[1..], o, tail);
      SpellsItem(FastText(elements[0], o), Tokens(elements[0]), |elements| == 1, [], more,
                 ElementTokens(elements[1..]), tail);
    }
  }

  lemma {:induction false} FastMembersSpell(members: seq<Member>, o: FastOptions, tail: bytes)
    requires !o.dropNull && forall m <- members :: Writable(m.value)
    ensures Spells(FastMembers(members, o), MemberTokens(members), tail)
    decreases members, 0
  {
    hide Spells, FastText, Tokens, Quoted;
    if members == [] {
      SpellsNothing(tail);
    } else {
      var first := members[0];
      var more := if |members| == 1 then [] else FastMembers(members[1..], o);
      assert [] + more == more;
      var behind := if |members| == 1 then [] else COMMA_TOKEN + more;
      FastSpells(first.value, o, behind + tail);
      FastMembersSpell(members[1..], o, tail);
      SpellsItem(FastText(first.value, o), Tokens(first.value), |members| == 1, [], more,
                 MemberTokens(members[1..]), tail);
      var tokens := Tokens(first.value) + (if |members| == 1 then [] else [COMMA_TOKEN] + MemberTokens(members[1..]));
      SpellsKey(first.key, if o.yaml then [32] else [], FastText(first.value, o) + behind, tokens, tail);
      assert COLON_TOKEN + (if o.yaml then [32] else []) == ColonText(o);
      ConcatAssoc(COLON_TOKEN, if o.yaml then [32] else [], FastText(first.value, o) + behind);
      ConcatAssoc([Quoted(first.key), COLON_TOKEN], Tokens(first.value),
                  if |members| == 1 then [] else [COMMA_TOKEN] + MemberTokens(members[1..]));
    }
  }

  /** A quoted key, a colon, blanks and a text. */
  lemma SpellsKey(key: bytes, blank: bytes, text: bytes, tokens: seq<bytes>, tail: bytes)
    requires Blank(blank) && tokens != [] && Spells(text, tokens, tail)
    ensures Spells(Quoted(key) + (COLON_TOKEN + (blank + text)), [Quoted(key), COLON_TOKEN] + tokens, tail)
  {
    hide Spells, Quoted;
    SpellsBlank(blank, text, tokens, tail);
    SpellsToken(COLON_TOKEN, (blank + text) + tail);
    SpellsConcat(COLON_TOKEN, blank + text, [COLON_TOKEN], tokens, tail);
    QuotedForm(key);
    SpellsToken(Quoted(key), (COLON_TOKEN + (blank + text)) + tail);
    SpellsConcat(Quoted(key), COLON_TOKEN + (blank + text), [Quoted(key)], [COLON_TOKEN] + tokens, tail);
    assert [Quoted(key), COLON_TOKEN] + tokens == [Quoted(key)] + ([COLON_TOKEN] + tokens);
  }
}
