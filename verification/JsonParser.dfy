/** Json::Reader with its cursor. */
module JsonParser {
  import opened Bytes
  import opened Decimals
  import opened JsonNumbers
  import opened JsonStrings
  import opened JsonValue
  import opened JsonReader

  lemma DropTwice(s: bytes, i: nat, k: nat)
    requires i + k <= |s|
    ensures s[i..][k..] == s[i + k..]
  {
  }

  /** The front of a suffix, between two cursors. */
  lemma TakenText(s: bytes, i: nat, j: nat)
    requires i <= j <= |s|
    ensures s[i..][..|s[i..]| - |s[j..]|] == s[i..j]
  {
  }

  /** The return value of the value readers, with the value they have stored, or an exception. */
  datatype Answer = Got(value: Json) | False | Thrown

  class Reader {
    /** The characters from begin_ to end_; behind them stands a NUL. */
    const document: bytes
    const isDouble: bytes -> bool
    /** current_ */
    var current: nat
    /** stackDepth_g */
    var depth: nat

    ghost predicate Valid()
      reads this
    {
      current <= |document|
    }

    ghost function Left(): bytes
      requires Valid()
      reads this
    {
      document[current..]
    }

    constructor (document: bytes, isDouble: bytes -> bool)
      ensures Valid() && this.document == document && this.isDouble == isDouble
    {
      this.document, this.isDouble, current, depth := document, isDouble, 0, 0;
    }

    // ---------- Characters ----------

    /** *current_ */
    method Peek() returns (c: byte)
      requires Valid()
      ensures c == if Left() == [] then 0 else Left()[0]
    {
      c := if current == |document| then 0 else document[current];
    }

    method GetNextChar() returns (c: byte)
      requires Valid()
      modifies `current
      ensures Valid()
      ensures if old(Left()) == [] then c == 0 && current == old(current)
              else c == old(Left())[0] && current == old(current) + 1 && Left() == old(Left())[1..]
    {
      if current == |document| {
        return 0;
      }
      c := document[current];
      DropTwice(document, current, 1);
      current := current + 1;
    }

    method SkipSpaces()
      requires Valid()
      modifies `current
      ensures Valid() && Left() == JsonReader.SkipSpaces(old(Left()))
    {
      while current != |document|
        invariant Valid() && JsonReader.SkipSpaces(Left()) == JsonReader.SkipSpaces(old(Left()))
        decreases |document| - current
      {
        if !IsSpace(document[current]) {
          break;
        }
        DropTwice(document, current, 1);
        current := current + 1;
      }
    }

    method SkipDigits()
      requires Valid()
      modifies `current
      ensures Valid() && Left() == JsonReader.SkipDigits(old(Left()))
    {
      while current < |document| && IsDigit(document[current])
        invariant Valid() && JsonReader.SkipDigits(Left()) == JsonReader.SkipDigits(old(Left()))
        decreases |document| - current
      {
        DropTwice(document, current, 1);
        current := current + 1;
      }
    }

    method ReadNumber()
      requires Valid()
      modifies `current
      ensures Valid() && Left() == NumberEnd(old(Left()))
    {
      SkipDigits();
      if current < |document| && document[current] == 46 {
        DropTwice(document, current, 1);
        current := current + 1;
        SkipDigits();
      }
      ReadExponent();
    }

    method ReadExponent()
      requires Valid()
      modifies `current
      ensures Valid() && Left() == ExponentEnd(old(Left()))
    {
      if current < |document| && (document[current] == 101 || document[current] == 69) {
        DropTwice(document, current, 1);
        current := current + 1;
        if current < |document| && (document[current] == 43 || document[current] == 45) {
          DropTwice(document, current - 1, 2);
          current := current + 1;
        }
        SkipDigits();
      }
    }

    method Match(pattern: bytes) returns (ok: bool)
      requires Valid()
      modifies `current
      ensures Valid() && Scan(ok, Left()) == Matched(old(Left()), pattern)
    {
      if |document| - current < |pattern| {
        return false;
      }
      var index := |pattern|;
      while index > 0
        invariant 0 <= index <= |pattern|
        invariant forall i :: index <= i < |pattern| ==> document[current + i] == pattern[i]
      {
        index := index - 1;
        if document[current + index] != pattern[index] {
          assert Left()[index] != pattern[index];
          return false;
        }
      }
      DropTwice(document, current, |pattern|);
      current := current + |pattern|;
      ok := true;
    }

    method ReadString() returns (ok: bool)
      requires Valid()
      modifies `current
      ensures Valid() && Scan(ok, Left()) == ScanString(old(Left()))
    {
      var c: byte := 0;
      while current != |document|
        invariant Valid() && c != QUOTE && ScanString(Left()) == ScanString(old(Left()))
        decreases |document| - current
      {
        ghost var s, at := Left(), current;
        c := GetNextChar();
        if c == BACKSLASH {
          var _ := GetNextChar();
          if at + 2 <= |document| {
            DropTwice(document, at, 2);
          }
        } else if c == QUOTE {
          break;
        }
      }
      ok := c == QUOTE;
    }

    method ReadComment() returns (ok: bool)
      requires Valid()
      modifies `current
      ensures Valid() && Scan(ok, Left()) == CommentEnd(old(Left()))
    {
      var c := GetNextChar();
      ok := false;
      if c == 42 {
        ok := ReadCStyleComment();
      } else if c == SLASH {
        ReadCppStyleComment();
        ok := true;
      }
    }

    method ReadCStyleComment() returns (ok: bool)
      requires Valid()
      modifies `current
      ensures Valid()
      ensures var slash := CStyleEnd(old(Left()));
              Scan(ok, Left()) == if slash == [] then Scan(false, []) else Scan(slash[0] == SLASH, slash[1..])
    {
      while current != |document|
        invariant Valid() && CStyleEnd(Left()) == CStyleEnd(old(Left()))
        decreases |document| - current
      {
        var c := GetNextChar();
        var next := Peek();
        if c == 42 && next == SLASH {
          ghost var slash := Left();
          var last := GetNextChar();
          return last == SLASH;
        }
      }
      var last := GetNextChar();
      ok := last == SLASH;
    }

    method ReadCppStyleComment()
      requires Valid()
      modifies `current
      ensures Valid() && Left() == CppStyleEnd(old(Left()))
    {
      while current != |document|
        invariant Valid() && CppStyleEnd(Left()) == CppStyleEnd(old(Left()))
        decreases |document| - current
      {
        ghost var at := current;
        var c := GetNextChar();
        if c == 10 {
          return;
        }
        if c == 13 {
          if current != |document| && document[current] == 10 {
            DropTwice(document, at, 2);
            var lf := GetNextChar();
          }
          return;
        }
      }
    }

    // ---------- Tokens ----------

    /** The switch of readToken, behind its character. */
    method ReadRest(c: byte) returns (kind: Kind)
      requires Valid()
      modifies `current
      ensures Valid() && Classified(kind, Left()) == Classify(c, old(Left()))
    {
      hide ScanString, CommentEnd, NumberEnd, Matched;
      var ok := true;
      if c == 123 {
        kind := ObjectBegin;
      } else if c == 125 {
        kind := ObjectEnd;
      } else if c == 91 {
        kind := ArrayBegin;
      } else if c == 93 {
        kind := ArrayEnd;
      } else if c == QUOTE {
        kind := StringToken;
        ok := ReadString();
      } else if c == SLASH {
        kind := Comment;
        ok := ReadComment();
      } else if IsDigit(c) || c == MINUS {
        kind := NumberToken;
        ReadNumber();
      } else if c == 116 {
        kind := TrueToken;
        ok := Match(RUE);
      } else if c == 102 {
        kind := FalseToken;
        ok := Match(ALSE);
      } else if c == 110 {
        kind := NullToken;
        ok := Match(ULL);
      } else if c == 44 {
        kind := ArraySeparator;
      } else if c == 58 {
        kind := MemberSeparator;
      } else if c == 0 {
        kind := EndOfStream;
      } else {
        kind := ErrorToken;
        ok := false;
      }
      if !ok {
        kind := ErrorToken;
      }
    }

    /** Reader::readToken: the cursor only moves forward, and past at least one character unless the stream is at
        its end. */
    method ReadToken() returns (token: Token)
      requires Valid()
      modifies `current
      ensures Valid() && Read(token, Left()) == JsonReader.ReadToken(old(Left()))
      ensures old(current) <= current && (token.kind != EndOfStream ==> old(current) < current)
    {
      hide Classify, JsonReader.SkipSpaces;
      SkipSpaces();
      var start := current;
      ghost var t := Left();
      var c := GetNextChar();
      var kind := ReadRest(c);
      token := Token(kind, document[start..current]);
      if t == [] {
        AtEnd();
      } else {
        TakenText(document, start, current);
      }
    }

    lemma AtEnd()
      ensures Classify(0, []) == Classified(EndOfStream, [])
    {
    }

    /** Reader::skipCommentTokens */
    method SkipCommentTokens() returns (token: Token)
      requires Valid()
      modifies `current
      ensures Valid() && Read(token, Left()) == SkipComments(old(Left()))
      ensures old(current) <= current && (token.kind != EndOfStream ==> old(current) < current)
    {
      hide JsonReader.ReadToken;
      token := ReadToken();
      while token.kind == Comment
        invariant Valid() && old(current) <= current && (token.kind != EndOfStream ==> old(current) < current)
        invariant SkipComments(old(Left()))
               == if token.kind == Comment then SkipComments(Left()) else Read(token, Left())
        decreases if token.kind == Comment then |document| - current + 1 else 0
      {
        token := ReadToken();
      }
    }

    /** Reader::recoverFromError: it ends, at the wanted token or at the end of the stream. */
    method RecoverFromError(until: Kind)
      requires Valid()
      modifies `current
      ensures Valid() && Left() == Recovered(old(Left()), until) && old(current) <= current
    {
      hide JsonReader.ReadToken;
      while true
        invariant Valid() && old(current) <= current && Recovered(Left(), until) == Recovered(old(Left()), until)
        decreases |document| - current
      {
        ghost var before := current;
        var skip := ReadToken();
        assert skip.kind != EndOfStream ==> before < current;
        if skip.kind == until || skip.kind == EndOfStream {
          break;
        }
      }
    }

    // ---------- Values ----------

    /** The answer and the cursor, against the specification. */
    ghost predicate Meets(a: Answer, o: Outcome)
      requires Valid()
      reads this
    {
      match o
      case Done(value, rest) => a == Got(value) && Left() == rest
      case Failed(rest) => a == False && Left() == rest
      case TooDeep => a == Thrown
    }

    /** Reader::readValue */
    method ReadValue() returns (a: Answer)
      requires Valid()
      modifies `current, `depth
      ensures Valid() && old(current) <= current
      ensures Meets(a, JsonReader.ReadValue(old(Left()), old(depth), isDouble))
      ensures a.Got? ==> depth == old(depth) && old(current) < current
      ensures a.False? ==> depth >= old(depth)
      decreases |document| - current, 0
    {
      hide SkipComments, ReadMembers, JsonReader.ReadArray, Decoded, Decode;
      if depth >= STACK_LIMIT {
        return Thrown;
      }
      depth := depth + 1;
      var token := SkipCommentTokens();
      match token.kind {
        case ObjectBegin => a := ReadObject();
        case ArrayBegin => a := ReadArray();
        case NumberToken => a := DecodeNumberToken(token.text);
        case StringToken => a := DecodeStringToken(token.text);
        case TrueToken => a := Got(Bool(true));
        case FalseToken => a := Got(Bool(false));
        case NullToken => a := Got(Null);
        case _ =>
          return False;
      }
      if a.Thrown? {
        return;
      }
      depth := depth - 1;
    }

    /** Reader::decodeNumber; what is no 64-bit integer is left to decodeDouble. */
    method DecodeNumberToken(text: bytes) returns (a: Answer)
      requires Valid()
      ensures Meets(a, JsonReader.ReadNumber(text, Left(), isDouble)) && !a.Thrown?
    {
      var d := DecodeNumber(text);
      if d.Double? && !isDouble(text) {
        a := False;
      } else {
        a := Got(NumberValue(d));
      }
    }

    method DecodeStringToken(text: bytes) returns (a: Answer)
      requires Valid() && |text| >= 2
      ensures Meets(a, JsonReader.ReadString(text, Left())) && !a.Thrown?
    {
      var ok, s := DecodeString(text);
      a := if ok then Got(Str(s)) else False;
    }

    /** Reader::readObject */
    method ReadObject() returns (a: Answer)
      requires Valid() && 0 < depth
      modifies `current, `depth
      ensures Valid() && old(current) <= current
      ensures Meets(a, ReadMembers(old(Left()), [], [], old(depth), isDouble))
      ensures a.Got? ==> depth == old(depth)
      ensures a.False? ==> depth >= old(depth)
      decreases |document| - current, 1
    {
      hide SkipComments, JsonReader.ReadToken, JsonReader.ReadValue, Decode, Insert, Recovered;
      var name, members := [], [];
      while true
        invariant Valid() && old(current) <= current && depth == old(depth)
        invariant ReadMembers(Left(), name, members, depth, isDouble)
               == ReadMembers(old(Left()), [], [], old(depth), isDouble)
        decreases |document| - current
      {
        var tokenName := SkipCommentTokens();
        if tokenName.kind == ObjectEnd && |name| == 0 {
          return Got(Obj(members));
        }
        name := [];
        if tokenName.kind != StringToken {
          break;
        }
        var ok;
        ok, name := DecodeString(tokenName.text);
        if !ok {
          RecoverFromError(ObjectEnd);
          return False;
        }
        var colon := ReadToken();
        if colon.kind != MemberSeparator {
          RecoverFromError(ObjectEnd);
          return False;
        }
        var value := ReadValue();
        if value.Thrown? {
          return Thrown;
        }
        if value.False? {
          RecoverFromError(ObjectEnd);
          return False;
        }
        members := Insert(members, Member(name, value.value));
        var comma := ReadToken();
        if comma.kind != ObjectEnd && comma.kind != ArraySeparator && comma.kind != Comment {
          RecoverFromError(ObjectEnd);
          return False;
        }
        if comma.kind == Comment {
          comma := SkipCommentTokens();
        }
        if comma.kind == ObjectEnd {
          return Got(Obj(members));
        }
      }
      RecoverFromError(ObjectEnd);
      return False;
    }

    /** Reader::readArray */
    method ReadArray() returns (a: Answer)
      requires Valid() && 0 < depth
      modifies `current, `depth
      ensures Valid() && old(current) <= current
      ensures Meets(a, JsonReader.ReadArray(old(Left()), old(depth), isDouble))
      ensures a.Got? ==> depth == old(depth)
      ensures a.False? ==> depth >= old(depth)
      decreases |document| - current, 2
    {
      hide JsonReader.SkipSpaces, ReadElements;
      SkipSpaces();
      var c := Peek();
      if c == 93 {
        c := GetNextChar();
        return Got(Arr([]));
      }
      a := ReadElementsLoop();
    }

    /** The loop of Reader::readArray */
    method ReadElementsLoop() returns (a: Answer)
      requires Valid() && 0 < depth
      modifies `current, `depth
      ensures Valid() && old(current) <= current
      ensures Meets(a, ReadElements(old(Left()), [], old(depth), isDouble))
      ensures a.Got? ==> depth == old(depth)
      ensures a.False? ==> depth >= old(depth)
      decreases |document| - current, 1
    {
      hide SkipComments, JsonReader.ReadValue, Recovered;
      var elements := [];
      while true
        invariant Valid() && old(current) <= current && depth == old(depth)
        invariant ReadElements(Left(), elements, depth, isDouble) == ReadElements(old(Left()), [], old(depth), isDouble)
        decreases |document| - current
      {
        var value := ReadValue();
        if value.Thrown? {
          return Thrown;
        }
        if value.False? {
          RecoverFromError(ArrayEnd);
          return False;
        }
        elements := elements + [value.value];
        var token := SkipCommentTokens();
        if token.kind != ArraySeparator && token.kind != ArrayEnd {
          RecoverFromError(ArrayEnd);
          return False;
        }
        if token.kind == ArrayEnd {
          break;
        }
      }
      return Got(Arr(elements));
    }

    /** Reader::parse under default features: the verdict, and the token behind the value is read and dropped. */
    method Parse() returns (verdict: Verdict)
      modifies `current, `depth
      ensures verdict == JsonReader.Parse(document, isDouble)
      ensures Valid()
    {
      hide JsonReader.ReadValue;
      current, depth := 0, 0;
      assert document[0..] == document;
      var a := ReadValue();
      match a
      case Thrown => verdict := StackLimit;
      case Got(value) =>
        var token := SkipCommentTokens();
        verdict := Parsed(value);
      case False =>
        var token := SkipCommentTokens();
        verdict := Rejected;
    }
  }
}
