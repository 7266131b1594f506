/** Json::Reader under default features, as functions on what is left of the document. `isDouble` says which
    number texts decodeDouble accepts. */
module JsonReader {
  import opened Bytes
  import opened Decimals
  import opened JsonNumbers
  import opened JsonStrings
  import opened JsonValue

  /** stackLimit_g */
  const STACK_LIMIT: nat := 1000

  datatype Kind =
    | ObjectBegin | ObjectEnd | ArrayBegin | ArrayEnd | StringToken | NumberToken
    | TrueToken | FalseToken | NullToken | ArraySeparator | MemberSeparator
    | Comment | EndOfStream | ErrorToken

  datatype Token = Token(kind: Kind, text: bytes)

  datatype Read = Read(token: Token, rest: bytes)

  const RUE: bytes := [114, 117, 101]
  const ALSE: bytes := [97, 108, 115, 101]
  const ULL: bytes := [117, 108, 108]

  // ---------- Tokens ----------

  predicate IsSpace(c: byte) { c == 32 || c == 9 || c == 13 || c == 10 }

  function SkipSpaces(s: bytes): (r: bytes)
    ensures |r| <= |s| && (r != [] ==> !IsSpace(r[0]))
  {
    if s != [] && IsSpace(s[0]) then SkipSpaces(s[1..]) else s
  }

  function SkipDigits(s: bytes): (r: bytes)
    ensures |r| <= |s|
  {
    if s != [] && IsDigit(s[0]) then SkipDigits(s[1..]) else s
  }

  /** readNumber: digits, a fraction, an exponent. */
  function NumberEnd(s: bytes): (r: bytes)
    ensures |r| <= |s|
  {
    var whole := SkipDigits(s);
    var fraction := if whole != [] && whole[0] == 46 then SkipDigits(whole[1..]) else whole;
    ExponentEnd(fraction)
  }

  function ExponentEnd(s: bytes): (r: bytes)
    ensures |r| <= |s|
  {
    if s != [] && (s[0] == 101 || s[0] == 69) then
      SkipDigits(if |s| > 1 && (s[1] == 43 || s[1] == 45) then s[2..] else s[1..])
    else s
  }

  /** readCStyleComment's loop: to the slash of the closing pair, or to the end. */
  function CStyleEnd(s: bytes): (r: bytes)
    ensures |r| <= |s|
  {
    if s == [] then [] else if s[0] == 42 && |s| > 1 && s[1] == SLASH then s[1..] else CStyleEnd(s[1..])
  }

  function CppStyleEnd(s: bytes): (r: bytes)
    ensures |r| <= |s|
  {
    if s == [] then []
    else if s[0] == 10 then s[1..]
    else if s[0] == 13 then (if |s| > 1 && s[1] == 10 then s[2..] else s[1..])
    else CppStyleEnd(s[1..])
  }

  /** readComment, from behind the slash. */
  function CommentEnd(s: bytes): (r: Scan)
    ensures |r.rest| <= |s|
  {
    if s == [] then Scan(false, [])
    else if s[0] == 42 then
      var slash := CStyleEnd(s[1..]);
      if slash == [] then Scan(false, []) else Scan(slash[0] == SLASH, slash[1..])
    else if s[0] == SLASH then Scan(true, CppStyleEnd(s[1..]))
    else Scan(false, s[1..])
  }

  function Matched(s: bytes, pattern: bytes): (r: Scan)
    ensures |r.rest| <= |s|
  {
    if pattern <= s then Scan(true, s[|pattern|..]) else Scan(false, s)
  }

  datatype Classified = Classified(kind: Kind, rest: bytes)

  function OrError(kind: Kind, scan: Scan): Classified {
    Classified(if scan.ok then kind else ErrorToken, scan.rest)
  }

  /** The switch of readToken: the token that begins with `c`, and what follows it. */
  function Classify(c: byte, s: bytes): (r: Classified)
    ensures |r.rest| <= |s|
    ensures r.kind == StringToken ==> |r.rest| < |s|
  {
    if c == 123 then Classified(ObjectBegin, s)
    else if c == 125 then Classified(ObjectEnd, s)
    else if c == 91 then Classified(ArrayBegin, s)
    else if c == 93 then Classified(ArrayEnd, s)
    else if c == QUOTE then OrError(StringToken, ScanString(s))
    else if c == SLASH then OrError(Comment, CommentEnd(s))
    else if IsDigit(c) || c == MINUS then Classified(NumberToken, NumberEnd(s))
    else if c == 116 then OrError(TrueToken, Matched(s, RUE))
    else if c == 102 then OrError(FalseToken, Matched(s, ALSE))
    else if c == 110 then OrError(NullToken, Matched(s, ULL))
    else if c == 44 then Classified(ArraySeparator, s)
    else if c == 58 then Classified(MemberSeparator, s)
    else if c == 0 then Classified(EndOfStream, s)
    else Classified(ErrorToken, s)
  }

  /** readToken */
  function ReadToken(s: bytes): (r: Read)
    ensures |r.rest| <= |s|
    ensures r.token.kind != EndOfStream ==> |r.rest| < |s|
    ensures r.token.kind == StringToken ==> |r.token.text| >= 2
  {
    var t := SkipSpaces(s);
    if t == [] then Read(Token(EndOfStream, []), [])
    else
      var c := Classify(t[0], t[1..]);
      Read(Token(c.kind, t[..|t| - |c.rest|]), c.rest)
  }

  /** skipCommentTokens */
  function SkipComments(s: bytes): (r: Read)
    ensures |r.rest| <= |s| && r.token.kind != Comment
    ensures r.token.kind != EndOfStream ==> |r.rest| < |s|
    ensures r.token.kind == StringToken ==> |r.token.text| >= 2
    decreases |s|
  {
    var r := ReadToken(s);
    if r.token.kind == Comment then SkipComments(r.rest) else r
  }

  /** recoverFromError: tokens are skipped up to the wanted one or the end of the stream. */
  function Recovered(s: bytes, until: Kind): (r: bytes)
    ensures |r| <= |s|
    decreases |s|
  {
    var r := ReadToken(s);
    if r.token.kind == until || r.token.kind == EndOfStream then r.rest else Recovered(r.rest, until)
  }

  // ---------- Values ----------

  datatype Outcome = Done(value: Json, rest: bytes) | Failed(rest: bytes) | TooDeep

  /** decodeNumber and decodeDouble */
  function ReadNumber(text: bytes, rest: bytes, isDouble: bytes -> bool): (r: Outcome)
    ensures !r.TooDeep? && r.rest == rest
  {
    var d := Decoded(text);
    if d.Double? && !isDouble(text) then Failed(rest) else Done(NumberValue(d), rest)
  }

  function ReadString(text: bytes, rest: bytes): (r: Outcome)
    requires |text| >= 2
    ensures !r.TooDeep? && r.rest == rest
  {
    var d := Decode(text[1..|text| - 1]);
    if d.None? then Failed(rest) else Done(Str(d.value), rest)
  }

  /** readValue, with `depth` calls of it under way. */
  function ReadValue(s: bytes, depth: nat, isDouble: bytes -> bool): (r: Outcome)
    ensures r.Done? ==> |r.rest| < |s|
    ensures r.Failed? ==> |r.rest| <= |s|
    decreases |s|, 0
  {
    if depth >= STACK_LIMIT then TooDeep
    else
      var t := SkipComments(s);
      match t.token.kind
      case ObjectBegin => ReadMembers(t.rest, [], [], depth + 1, isDouble)
      case ArrayBegin => ReadArray(t.rest, depth + 1, isDouble)
      case NumberToken => ReadNumber(t.token.text, t.rest, isDouble)
      case StringToken => ReadString(t.token.text, t.rest)
      case TrueToken => Done(Bool(true), t.rest)
      case FalseToken => Done(Bool(false), t.rest)
      case NullToken => Done(Null, t.rest)
      case _ => Failed(t.rest)
  }

  /** readObject: `name` is the previous member name, empty at first, and an end is taken only behind an empty
      one; behind a comment any token passes for the comma. */
  function ReadMembers(s: bytes, name: bytes, members: seq<Member>, depth: nat, isDouble: bytes -> bool): (r: Outcome)
    ensures !r.TooDeep? ==> |r.rest| <= |s|
    decreases |s|, 1
  {
    var t := SkipComments(s);
    if t.token.kind == ObjectEnd && name == [] then Done(Obj(members), t.rest)
    else if t.token.kind != StringToken then Failed(Recovered(t.rest, ObjectEnd))
    else
      var key := Decode(t.token.text[1..|t.token.text| - 1]);
      if key.None? then Failed(Recovered(t.rest, ObjectEnd))
      else
        var colon := ReadToken(t.rest);
        if colon.token.kind != MemberSeparator then Failed(Recovered(colon.rest, ObjectEnd))
        else
          var v := ReadValue(colon.rest, depth, isDouble);
          match v
          case TooDeep => TooDeep
          case Failed(rest) => Failed(Recovered(rest, ObjectEnd))
          case Done(value, rest) =>
            var members' := Insert(members, Member(key.value, value));
            var comma := ReadToken(rest);
            if comma.token.kind !in {ObjectEnd, ArraySeparator, Comment} then Failed(Recovered(comma.rest, ObjectEnd))
            else
              var next := if comma.token.kind == Comment then SkipComments(comma.rest) else comma;
              if next.token.kind == ObjectEnd then Done(Obj(members'), next.rest)
              else ReadMembers(next.rest, key.value, members', depth, isDouble)
  }

  /** readArray, up to its loop. */
  function ReadArray(s: bytes, depth: nat, isDouble: bytes -> bool): (r: Outcome)
    ensures !r.TooDeep? ==> |r.rest| <= |s|
    decreases |s|, 2
  {
    var t := SkipSpaces(s);
    if t != [] && t[0] == 93 then Done(Arr([]), t[1..]) else ReadElements(t, [], depth, isDouble)
  }

  /** The loop of readArray. */
  function ReadElements(s: bytes, elements: seq<Json>, depth: nat, isDouble: bytes -> bool): (r: Outcome)
    ensures !r.TooDeep? ==> |r.rest| <= |s|
    decreases |s|, 1
  {
    match ReadValue(s, depth, isDouble)
    case TooDeep => TooDeep
    case Failed(rest) => Failed(Recovered(rest, ArrayEnd))
    case Done(value, rest) =>
      var t := SkipComments(rest);
      if t.token.kind == ArrayEnd then Done(Arr(elements + [value]), t.rest)
      else if t.token.kind == ArraySeparator then ReadElements(t.rest, elements + [value], depth, isDouble)
      else Failed(Recovered(t.rest, ArrayEnd))
  }

  /** What Reader::parse makes of a document: a value, false, or the stack limit exception. What stands behind
      the value is not looked at. */
  datatype Verdict = Parsed(value: Json) | Rejected | StackLimit

  function Parse(document: bytes, isDouble: bytes -> bool): Verdict {
    match ReadValue(document, 0, isDouble)
    case Done(value, _) => Parsed(value)
    case Failed(_) => Rejected
    case TooDeep => StackLimit
  }

  // ---------- Every object the reader builds is a map ----------

  predicate IsMap(v: Json)
    decreases v
  {
    match v
    case Arr(elements) => forall x <- elements :: IsMap(x)
    case Obj(members) => Ascending(members) && forall m <- members :: IsMap(m.value)
    case _ => true
  }

  lemma {:induction false} ReadValueMap(s: bytes, depth: nat, isDouble: bytes -> bool)
    ensures var r := ReadValue(s, depth, isDouble); r.Done? ==> IsMap(r.value)
    decreases |s|, 0
  {
    hide SkipComments, ReadMembers, ReadArray;
    if depth < STACK_LIMIT {
      var t := SkipComments(s);
      if t.token.kind == ObjectBegin {
        ReadMembersMap(t.rest, [], [], depth + 1, isDouble);
      } else if t.token.kind == ArrayBegin {
        ReadArrayMap(t.rest, depth + 1, isDouble);
      }
    }
  }

  lemma {:induction false} ReadMembersMap(s: bytes, name: bytes, members: seq<Member>, depth: nat,
                                          isDouble: bytes -> bool)
    requires Ascending(members) && forall m <- members :: IsMap(m.value)
    ensures var r := ReadMembers(s, name, members, depth, isDouble); r.Done? ==> IsMap(r.value)
    decreases |s|, 1
  {
    hide SkipComments, ReadToken, ReadValue, Decode, Insert, Recovered;
    var t := SkipComments(s);
    if t.token.kind == StringToken {
      var key := Decode(t.token.text[1..|t.token.text| - 1]);
      var colon := ReadToken(t.rest);
      if key.Some? && colon.token.kind == MemberSeparator {
        var v := ReadValue(colon.rest, depth, isDouble);
        if v.Done? {
          ReadValueMap(colon.rest, depth, isDouble);
          var m := Member(key.value, v.value);
          InsertAscending(members, m);
          var comma := ReadToken(v.rest);
          if comma.token.kind == Comment {
            ReadMembersMap(SkipComments(comma.rest).rest, key.value, Insert(members, m), depth, isDouble);
          } else if comma.token.kind == ArraySeparator {
            ReadMembersMap(comma.rest, key.value, Insert(members, m), depth, isDouble);
          }
        }
      }
    }
  }

  lemma {:induction false} ReadArrayMap(s: bytes, depth: nat, isDouble: bytes -> bool)
    ensures var r := ReadArray(s, depth, isDouble); r.Done? ==> IsMap(r.value)
    decreases |s|, 2
  {
    var t := SkipSpaces(s);
    if !(t != [] && t[0] == 93) {
      ReadElementsMap(t, [], depth, isDouble);
    }
  }

  lemma {:induction false} ReadElementsMap(s: bytes, elements: seq<Json>, depth: nat, isDouble: bytes -> bool)
    requires forall x <- elements :: IsMap(x)
    ensures var r := ReadElements(s, elements, depth, isDouble); r.Done? ==> IsMap(r.value)
    decreases |s|, 1
  {
    hide SkipComments, ReadValue, Recovered;
    ReadValueMap(s, depth, isDouble);
    var v := ReadValue(s, depth, isDouble);
    if v.Done? {
      var t := SkipComments(v.rest);
      if t.token.kind == ArraySeparator {
        ReadElementsMap(t.rest, elements + [v.value], depth, isDouble);
      }
    }
  }

  /** Whatever the document, with duplicate or misplaced keys: the members of every object the reader returns
      are in strictly ascending order of their keys. */
  lemma ParsedIsMap(document: bytes, isDouble: bytes -> bool)
    ensures var v := Parse(document, isDouble); v.Parsed? ==> IsMap(v.value)
  {
    hide ReadValue;
    ReadValueMap(document, 0, isDouble);
  }
}
