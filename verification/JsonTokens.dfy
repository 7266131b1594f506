/** The tokens of a value, texts that spell them with any white space between, and what the reader makes of
    such a text. */
module JsonTokens {
  import opened Bytes
  import opened Wrappers
  import opened Decimals
  import opened JsonNumbers
  import opened JsonStrings
  import opened JsonValue
  import opened JsonReader

  const NULL_TEXT: bytes := [110, 117, 108, 108]
  const TRUE_TEXT: bytes := [116, 114, 117, 101]
  const FALSE_TEXT: bytes := [102, 97, 108, 115, 101]
  const LEFT_BRACKET: bytes := [91]
  const RIGHT_BRACKET: bytes := [93]
  const LEFT_BRACE: bytes := [123]
  const RIGHT_BRACE: bytes := [125]
  const COMMA_TOKEN: bytes := [COMMA]
  const COLON_TOKEN: bytes := [58]

  /** The text of a value that has no parts. */
  function ScalarText(v: Json): bytes {
    match v
    case Null => NULL_TEXT
    case Bool(b) => if b then TRUE_TEXT else FALSE_TEXT
    case Int(n) => IntText(n)
    case UInt(n) => IntText(n)
    case Str(s) => Quoted(s)
    case Real(text) => text
    case Arr(_) => []
    case Obj(_) => []
  }

  function Tokens(v: Json): (r: seq<bytes>)
    ensures r != []
    decreases v, 0
  {
    match v
    case Arr(elements) => [LEFT_BRACKET] + (ElementTokens(elements) + [RIGHT_BRACKET])
    case Obj(members) => [LEFT_BRACE] + (MemberTokens(members) + [RIGHT_BRACE])
    case _ => [ScalarText(v)]
  }

  function ElementTokens(elements: seq<Json>): seq<bytes> {
    if elements == [] then []
    else Tokens(elements[0]) + (if |elements| == 1 then [] else [COMMA_TOKEN] + ElementTokens(elements[1..]))
  }

  function MemberTokens(members: seq<Member>): seq<bytes> {
    if members == [] then []
    else [Quoted(members[0].key), COLON_TOKEN] + Tokens(members[0].value)
         + (if |members| == 1 then [] else [COMMA_TOKEN] + MemberTokens(members[1..]))
  }

  /** What is left of `s` when the tokens have been taken off its front, each behind any white space. */
  function Consume(s: bytes, tokens: seq<bytes>): Option<bytes>
    decreases |tokens|
  {
    if tokens == [] then Some(s)
    else
      var t := SkipSpaces(s);
      if tokens[0] <= t then Consume(t[|tokens[0]|..], tokens[1..]) else None
  }

  lemma {:induction false} ConsumeConcat(s: bytes, a: seq<bytes>, b: seq<bytes>)
    ensures Consume(s, a + b) == if Consume(s, a).None? then None else Consume(Consume(s, a).value, b)
    decreases |a|
  {
    if a == [] {
      assert a + b == b;
    } else {
      ConcatCut(a, b, 1);
      var t := SkipSpaces(s);
      if a[0] <= t {
        ConsumeConcat(t[|a[0]|..], a[1..], b);
      }
    }
  }

  lemma ConsumeOne(s: bytes, token: bytes, more: seq<bytes>)
    ensures Consume(s, [token] + more) ==
            if token <= SkipSpaces(s) then Consume(SkipSpaces(s)[|token|..], more) else None
  {
    assert ([token] + more)[1..] == more;
  }

  /** White space in front does not matter. */
  lemma {:induction false} SkipTwice(s: bytes)
    ensures SkipSpaces(SkipSpaces(s)) == SkipSpaces(s)
  {
  }

  lemma ConsumeSkipped(s: bytes, tokens: seq<bytes>)
    requires tokens != []
    ensures Consume(SkipSpaces(s), tokens) == Consume(s, tokens)
  {
    SkipTwice(s);
  }

  // ---------- Single tokens, as the reader sees them ----------

  /** A number ends in front of this. */
  predicate Stops(s: bytes) {
    s == [] || !(IsDigit(s[0]) || s[0] == 46 || s[0] == 101 || s[0] == 69)
  }

  lemma {:induction false} SkipAllDigits(digits: bytes, rest: bytes)
    requires AllDigits(digits) && Stops(rest)
    ensures SkipDigits(digits + rest) == rest
  {
    if digits == [] {
      assert digits + rest == rest;
    } else {
      SkipAllDigits(digits[1..], rest);
      ConcatCut(digits, rest, 1);
    }
  }

  lemma NumberEndOf(digits: bytes, rest: bytes)
    requires AllDigits(digits) && Stops(rest)
    ensures NumberEnd(digits + rest) == rest
  {
    SkipAllDigits(digits, rest);
  }

  /** The token at the front, by what readToken's switch makes of it. */
  lemma ReadTokenAt(s: bytes, token: bytes, kind: Kind)
    requires token != [] && token <= SkipSpaces(s)
    requires Classify(token[0], SkipSpaces(s)[1..]) == Classified(kind, SkipSpaces(s)[|token|..])
    ensures ReadToken(s) == Read(Token(kind, token), SkipSpaces(s)[|token|..])
    ensures kind != Comment ==> SkipComments(s) == ReadToken(s)
  {
  }

  /** The kind of the tokens of one character. */
  function Punctuation(token: bytes): Kind {
    if token == LEFT_BRACKET then ArrayBegin
    else if token == RIGHT_BRACKET then ArrayEnd
    else if token == LEFT_BRACE then ObjectBegin
    else if token == RIGHT_BRACE then ObjectEnd
    else if token == COMMA_TOKEN then ArraySeparator
    else if token == COLON_TOKEN then MemberSeparator
    else ErrorToken
  }

  lemma ReadPunctuation(s: bytes, token: bytes, more: seq<bytes>)
    requires Punctuation(token) != ErrorToken && Consume(s, [token] + more).Some?
    ensures ReadToken(s).token == Token(Punctuation(token), token)
    ensures Consume(ReadToken(s).rest, more) == Consume(s, [token] + more)
    ensures SkipComments(s) == ReadToken(s)
  {
    hide ReadToken, SkipComments, SkipSpaces, Consume;
    ConsumeOne(s, token, more);
    ReadTokenAt(s, token, Punctuation(token));
  }

  /** In front of a separator or an end, a number stops. */
  lemma StopsBefore(s: bytes, token: bytes, more: seq<bytes>)
    requires Punctuation(token) != ErrorToken && Consume(s, [token] + more).Some?
    ensures Stops(s)
  {
    ConsumeOne(s, token, more);
  }

  lemma PrefixForm(token: bytes, t: bytes)
    requires token != [] && token <= t
    ensures t == token + t[|token|..] && t[0] == token[0] && t[1..] == token[1..] + t[|token|..]
  {
  }

  lemma ReadQuoted(s: bytes, key: bytes, more: seq<bytes>)
    requires Consume(s, [Quoted(key)] + more).Some?
    ensures ReadToken(s).token == Token(StringToken, Quoted(key))
    ensures Consume(ReadToken(s).rest, more) == Consume(s, [Quoted(key)] + more)
    ensures SkipComments(s) == ReadToken(s)
  {
    hide ReadToken, SkipComments, SkipSpaces, Consume, ScanString;
    var token, t := Quoted(key), SkipSpaces(s);
    ConsumeOne(s, token, more);
    PrefixForm(token, t);
    QuotedForm(key);
    var rest := t[|token|..];
    ConcatAssoc(Escaped(key), [QUOTE], rest);
    ScanQuoted(key, rest);
    ReadTokenAt(s, token, StringToken);
  }

  lemma QuotedForm(key: bytes)
    ensures var q := Quoted(key);
            && |q| >= 2 && q[0] == QUOTE && q[1..] == Escaped(key) + [QUOTE] && q[1..|q| - 1] == Escaped(key)
  {
  }

  lemma QuotedDecodes(key: bytes)
    ensures |Quoted(key)| >= 2 && Decode(Quoted(key)[1..|Quoted(key)| - 1]) == Some(key)
  {
    QuotedForm(key);
    DecodeEscaped(key);
  }

  lemma ReadInteger(s: bytes, n: int)
    requires Consume(s, [IntText(n)]).Some? && Stops(Consume(s, [IntText(n)]).value)
    ensures SkipComments(s) == Read(Token(NumberToken, IntText(n)), Consume(s, [IntText(n)]).value)
  {
    hide ReadToken, SkipComments, SkipSpaces, NumberEnd, Decimal;
    var token, t := IntText(n), SkipSpaces(s);
    assert [token] + [] == [token];
    ConsumeOne(s, token, []);
    PrefixForm(token, t);
    assert AllDigits(token[1..]) && (IsDigit(token[0]) || token[0] == MINUS);
    NumberEndOf(token[1..], t[|token|..]);
    ReadTokenAt(s, token, NumberToken);
  }

  lemma ReadWord(s: bytes, v: Json)
    requires v.Null? || v.Bool?
    requires Consume(s, [ScalarText(v)]).Some?
    ensures SkipComments(s) ==
            Read(Token(if v == Null then NullToken else if v.b then TrueToken else FalseToken, ScalarText(v)),
                 Consume(s, [ScalarText(v)]).value)
  {
    hide ReadToken, SkipComments, SkipSpaces;
    var token, t := ScalarText(v), SkipSpaces(s);
    assert [token] + [] == [token];
    ConsumeOne(s, token, []);
    PrefixForm(token, t);
    assert token[1..] == if v == Null then ULL else if v.b then RUE else ALSE;
    assert (token[1..] + t[|token|..])[|token| - 1..] == t[|token|..];
    ReadTokenAt(s, token, if v == Null then NullToken else if v.b then TrueToken else FalseToken);
  }

  // ---------- Whole values ----------

  /** Integers of 64 bits, no doubles; the members of objects in any order, and with any repetitions. */
  predicate Writable(v: Json)
    decreases v
  {
    match v
    case Int(n) => -TWO_63 <= n < TWO_63
    case UInt(n) => 0 <= n < TWO_64
    case Arr(elements) => forall x <- elements :: Writable(x)
    case Obj(members) => forall m <- members :: Writable(m.value)
    case Real(_) => false
    case _ => true
  }

  /** A value either fits under the stack limit or runs into it. */
  function Result(depth: nat, needed: nat, value: Json, rest: bytes): Outcome {
    if depth + needed <= STACK_LIMIT then Done(value, rest) else TooDeep
  }

  /** What readValue does at a bracket or a brace. */
  lemma ValueAt(s: bytes, depth: nat, isDouble: bytes -> bool)
    ensures var t := SkipComments(s);
            && (depth >= STACK_LIMIT ==> ReadValue(s, depth, isDouble) == TooDeep)
            && (depth < STACK_LIMIT && t.token.kind == ArrayBegin ==>
                  ReadValue(s, depth, isDouble) == ReadArray(t.rest, depth + 1, isDouble))
            && (depth < STACK_LIMIT && t.token.kind == ObjectBegin ==>
                  ReadValue(s, depth, isDouble) == ReadMembers(t.rest, [], [], depth + 1, isDouble))
  {
    hide SkipComments, ReadMembers, ReadArray, ReadNumber, ReadString;
  }

  /** Every text that spells the tokens of a value is read as that value, unless it is too deep. */
  lemma {:induction false} ReadsValue(s: bytes, v: Json, rest: bytes, depth: nat, isDouble: bytes -> bool)
    requires Writable(v) && Consume(s, Tokens(v)) == Some(rest) && Stops(rest)
    ensures ReadValue(s, depth, isDouble) == Result(depth, Depth(v), Reread(v), rest)
    decreases v, 0
  {
    hide SkipComments, ReadToken, ReadValue, ReadMembers, ReadArray, Consume, Stops, ElementTokens, MemberTokens,
         ScalarText, InsertAll;
    ValueAt(s, depth, isDouble);
    match v
    case Arr(elements) =>
      ReadPunctuation(s, LEFT_BRACKET, ElementTokens(elements) + [RIGHT_BRACKET]);
      if depth < STACK_LIMIT {
        ReadsArray(SkipComments(s).rest, elements, rest, depth + 1, isDouble);
      }
    case Obj(members) =>
      ReadPunctuation(s, LEFT_BRACE, MemberTokens(members) + [RIGHT_BRACE]);
      if depth < STACK_LIMIT {
        ReadsMembers(SkipComments(s).rest, members, [], [], rest, depth + 1, isDouble);
      }
    case _ =>
      ReadsScalar(s, v, rest, depth, isDouble);
  }

  lemma ReadsScalar(s: bytes, v: Json, rest: bytes, depth: nat, isDouble: bytes -> bool)
    requires Writable(v) && !v.Arr? && !v.Obj?
    requires Consume(s, [ScalarText(v)]) == Some(rest) && Stops(rest)
    ensures ReadValue(s, depth, isDouble) == Result(depth, 1, Reread(v), rest)
  {
    hide SkipComments, ReadToken, ReadMembers, ReadArray, Consume, Stops, Quoted, IntText, Decode, Decoded;
    match v
    case Int(n) =>
      ReadInteger(s, n);
      DecodeInvertsText(n);
    case UInt(n) =>
      ReadInteger(s, n);
      DecodeInvertsText(n);
    case Str(t) =>
      assert [Quoted(t)] + [] == [Quoted(t)];
      ReadQuoted(s, t, []);
      ConsumeNothing(SkipComments(s).rest);
      QuotedDecodes(t);
    case _ =>
      ReadWord(s, v);
  }

  lemma ConsumeNothing(s: bytes)
    ensures Consume(s, []) == Some(s)
  {
  }

  /** No value begins with a closing bracket. */
  lemma FirstToken(v: Json)
    requires Writable(v)
    ensures Tokens(v)[0] != [] && Tokens(v)[0][0] != 93
  {
    match v
    case Int(n) => IntTextFirst(n);
    case UInt(n) => IntTextFirst(n);
    case _ =>
  }

  lemma IntTextFirst(n: int)
    ensures IntText(n) != [] && (IsDigit(IntText(n)[0]) || IntText(n)[0] == MINUS)
  {
  }

  lemma {:induction false} ReadsArray(s: bytes, elements: seq<Json>, rest: bytes, depth: nat, isDouble: bytes -> bool)
    requires forall x <- elements :: Writable(x)
    requires Consume(s, ElementTokens(elements) + [RIGHT_BRACKET]) == Some(rest)
    requires depth <= STACK_LIMIT
    ensures ReadArray(s, depth, isDouble) == Result(depth, DepthAll(elements), Arr(RereadAll(elements)), rest)
    decreases elements, 1
  {
    hide ReadElements, SkipSpaces;
    var t := SkipSpaces(s);
    if elements == [] {
      assert [] + [RIGHT_BRACKET] == [RIGHT_BRACKET] + [];
      ConsumeOne(s, RIGHT_BRACKET, []);
    } else {
      var tokens := ElementTokens(elements) + [RIGHT_BRACKET];
      FirstToken(elements[0]);
      assert tokens[0] == Tokens(elements[0])[0];
      assert [tokens[0]] + tokens[1..] == tokens;
      ConsumeOne(s, tokens[0], tokens[1..]);
      ConsumeSkipped(s, tokens);
      ReadsElements(t, elements, [], rest, depth, isDouble);
      assert [] + RereadAll(elements) == RereadAll(elements);
    }
  }

  lemma ElementTokensSplit(elements: seq<Json>)
    requires elements != []
    ensures ElementTokens(elements) + [RIGHT_BRACKET] ==
            Tokens(elements[0]) + (if |elements| == 1 then [RIGHT_BRACKET] + []
                                   else [COMMA_TOKEN] + (ElementTokens(elements[1..]) + [RIGHT_BRACKET]))
  {
    hide Tokens;
    var first := Tokens(elements[0]);
    if |elements| == 1 {
      assert first + [] == first;
    } else {
      var rest := ElementTokens(elements[1..]);
      ConcatAssoc(first, [COMMA_TOKEN] + rest, [RIGHT_BRACKET]);
      ConcatAssoc([COMMA_TOKEN], rest, [RIGHT_BRACKET]);
    }
  }

  lemma {:induction false} ReadsElements(s: bytes, elements: seq<Json>, before: seq<Json>, rest: bytes, depth: nat,
                                         isDouble: bytes -> bool)
    requires elements != [] && forall x <- elements :: Writable(x)
    requires Consume(s, ElementTokens(elements) + [RIGHT_BRACKET]) == Some(rest)
    requires depth <= STACK_LIMIT
    ensures ReadElements(s, before, depth, isDouble)
         == Result(depth, DepthAll(elements), Arr(before + RereadAll(elements)), rest)
    decreases elements, 0
  {
    hide ReadValue, SkipComments, ReadToken, Consume, Stops, Tokens, Depth, Reread;
    var first := elements[0];
    var token := if |elements| == 1 then RIGHT_BRACKET else COMMA_TOKEN;
    var more := if |elements| == 1 then [] else ElementTokens(elements[1..]) + [RIGHT_BRACKET];
    ElementTokensSplit(elements);
    ConsumeConcat(s, Tokens(first), [token] + more);
    var behind := Consume(s, Tokens(first)).value;
    StopsBefore(behind, token, more);
    ReadsValue(s, first, behind, depth, isDouble);
    if depth + Depth(first) <= STACK_LIMIT {
      ReadPunctuation(behind, token, more);
      var v := Reread(first);
      if |elements| == 1 {
        ConsumeNothing(SkipComments(behind).rest);
        assert RereadAll(elements) == [v] + [] == [v];
        assert DepthAll(elements) == Max(Depth(first), 0);
      } else {
        ReadsElements(SkipComments(behind).rest, elements[1..], before + [v], rest, depth, isDouble);
        ConcatAssoc(before, [v], RereadAll(elements[1..]));
      }
    }
  }

  lemma MemberTokensSplit(members: seq<Member>)
    requires members != []
    ensures var first := members[0];
            MemberTokens(members) + [RIGHT_BRACE] ==
            [Quoted(first.key)] + ([COLON_TOKEN] + (Tokens(first.value) +
              (if |members| == 1 then [RIGHT_BRACE] + []
               else [COMMA_TOKEN] + (MemberTokens(members[1..]) + [RIGHT_BRACE]))))
  {
    hide Tokens, Quoted;
    var key, first := Quoted(members[0].key), Tokens(members[0].value);
    if |members| == 1 {
      RegroupMember(key, COLON_TOKEN, first, [], [RIGHT_BRACE]);
    } else {
      var rest := MemberTokens(members[1..]);
      RegroupMember(key, COLON_TOKEN, first, [COMMA_TOKEN] + rest, [RIGHT_BRACE]);
      ConcatAssoc([COMMA_TOKEN], rest, [RIGHT_BRACE]);
    }
  }

  lemma RegroupMember<T>(a: T, b: T, s: seq<T>, t: seq<T>, u: seq<T>)
    ensures [a, b] + s + t + u == [a] + ([b] + (s + (t + u)))
  {
    ConcatAssoc([a, b] + s, t, u);
    ConcatAssoc([a, b], s, t + u);
    assert [a, b] == [a] + [b];
    ConcatAssoc([a], [b], s + (t + u));
  }

  lemma {:induction false} ReadsMembers(s: bytes, members: seq<Member>, name: bytes, before: seq<Member>, rest: bytes,
                                        depth: nat, isDouble: bytes -> bool)
    requires forall m <- members :: Writable(m.value)
    requires Consume(s, MemberTokens(members) + [RIGHT_BRACE]) == Some(rest)
    requires members == [] ==> name == []
    requires depth <= STACK_LIMIT
    ensures ReadMembers(s, name, before, depth, isDouble)
         == Result(depth, DepthMembers(members), Obj(InsertAll(before, RereadMembers(members))), rest)
    decreases members, 1
  {
    hide ReadValue, SkipComments, ReadToken, Consume, Stops, Tokens, Depth, Reread, Decode, Quoted, Insert, ReadMembers,
         MemberTokens, InsertAll, Writable;
    if members == [] {
      NoMembers(before);
      ReadMembersEnd(s, before, depth, isDouble);
      assert [] + [RIGHT_BRACE] == [RIGHT_BRACE] + [];
      ReadPunctuation(s, RIGHT_BRACE, []);
      ConsumeNothing(SkipComments(s).rest);
    } else {
      var first := members[0];
      var token := if |members| == 1 then RIGHT_BRACE else COMMA_TOKEN;
      var more := if |members| == 1 then [] else MemberTokens(members[1..]) + [RIGHT_BRACE];
      MemberTokensSplit(members);
      ReadQuoted(s, first.key, [COLON_TOKEN] + (Tokens(first.value) + ([token] + more)));
      QuotedDecodes(first.key);
      var behindKey := ReadToken(s).rest;
      ReadPunctuation(behindKey, COLON_TOKEN, Tokens(first.value) + ([token] + more));
      var behindColon := ReadToken(behindKey).rest;
      ConsumeConcat(behindColon, Tokens(first.value), [token] + more);
      var behind := Consume(behindColon, Tokens(first.value)).value;
      StopsBefore(behind, token, more);
      ReadsValue(behindColon, first.value, behind, depth, isDouble);
      ReadMembersStep(s, name, before, depth, isDouble, first.key);
      if depth + Depth(first.value) <= STACK_LIMIT {
        ReadPunctuation(behind, token, more);
        ReadsMembersEnd(members, before, rest, SkipComments(behind).rest, depth, isDouble);
        ConsumeNothing(SkipComments(behind).rest);
      }
    }
  }

  lemma NoMembers(before: seq<Member>)
    ensures MemberTokens([]) == [] && DepthMembers([]) == 0 && InsertAll(before, RereadMembers([])) == before
  {
  }

  lemma ReadMembersEnd(s: bytes, members: seq<Member>, depth: nat, isDouble: bytes -> bool)
    ensures SkipComments(s).token.kind == ObjectEnd ==>
              ReadMembers(s, [], members, depth, isDouble) == Done(Obj(members), SkipComments(s).rest)
  {
    hide SkipComments, ReadValue;
  }

  /** One round of readObject on a well-formed member. */
  lemma ReadMembersStep(s: bytes, name: bytes, members: seq<Member>, depth: nat, isDouble: bytes -> bool, key: bytes)
    requires SkipComments(s).token.kind == StringToken
    requires var text := SkipComments(s).token.text; Decode(text[1..|text| - 1]) == Some(key)
    requires ReadToken(SkipComments(s).rest).token.kind == MemberSeparator
    ensures var v := ReadValue(ReadToken(SkipComments(s).rest).rest, depth, isDouble);
            var r := ReadMembers(s, name, members, depth, isDouble);
            && (v.TooDeep? ==> r == TooDeep)
            && (v.Done? ==>
                  var comma, now := ReadToken(v.rest), Insert(members, Member(key, v.value));
                  && (comma.token.kind == ObjectEnd ==> r == Done(Obj(now), comma.rest))
                  && (comma.token.kind == ArraySeparator ==> r == ReadMembers(comma.rest, key, now, depth, isDouble)))
  {
    hide SkipComments, ReadToken, ReadValue, Decode, Insert, Recovered;
  }

  /** Behind the first member: the closing brace, or a comma and the other members. */
  lemma {:induction false} ReadsMembersEnd(members: seq<Member>, before: seq<Member>, rest: bytes, behind: bytes,
                                           depth: nat, isDouble: bytes -> bool)
    requires members != [] && forall m <- members :: Writable(m.value)
    requires depth + Depth(members[0].value) <= STACK_LIMIT
    requires |members| > 1 ==> Consume(behind, MemberTokens(members[1..]) + [RIGHT_BRACE]) == Some(rest)
    ensures var m := Member(members[0].key, Reread(members[0].value));
            && (|members| == 1 ==> InsertAll(before, RereadMembers(members)) == Insert(before, m)
                                   && DepthMembers(members) == Depth(members[0].value))
            && (|members| > 1 ==>
                  ReadMembers(behind, members[0].key, Insert(before, m), depth, isDouble)
                  == Result(depth, DepthMembers(members), Obj(InsertAll(before, RereadMembers(members))), rest))
    decreases members, 0
  {
    hide ReadValue, SkipComments, ReadToken, Consume, Tokens, Depth, Reread, ReadMembers, Insert;
    var m := Member(members[0].key, Reread(members[0].value));
    var r := RereadMembers(members);
    assert r[0] == m && r[1..] == RereadMembers(members[1..]);
    assert InsertAll(before, r) == InsertAll(Insert(before, m), r[1..]);
    if |members| == 1 {
      assert r[1..] == [];
      assert DepthMembers(members) == Max(Depth(members[0].value), 0);
    } else {
      ReadsMembers(behind, members[1..], members[0].key, Insert(before, m), rest, depth, isDouble);
    }
  }
}
