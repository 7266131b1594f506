/** White space, comments and numbers, by the characters they are written with. */
module JsonLexis {
  import opened Bytes
  import opened Decimals
  import opened JsonNumbers
  import opened JsonStrings
  import opened JsonValue
  import opened JsonReader
  import opened JsonTokens

  // ---------- White space ----------

  /** What counts for a value is the first token that is no comment. */
  lemma SameToken(s: bytes, t: bytes, depth: nat, isDouble: bytes -> bool)
    requires SkipComments(s) == SkipComments(t)
    ensures ReadValue(s, depth, isDouble) == ReadValue(t, depth, isDouble)
  {
    hide SkipComments, ReadMembers, ReadArray, ReadNumber, ReadString;
  }

  /** A token, or none, behind one more byte of white space. */
  lemma SkipOne(c: byte, s: bytes)
    requires c == 9 || c == 10 || c == 13 || c == 32
    ensures SkipSpaces([c] + s) == SkipSpaces(s)
  {
    assert ([c] + s)[1..] == s;
  }

  lemma SameSpaces(s: bytes, t: bytes)
    requires SkipSpaces(s) == SkipSpaces(t)
    ensures SkipComments(s) == SkipComments(t)
  {
    hide SkipSpaces, Classify;
  }

  lemma NullFirst()
    ensures SkipSpaces(NULL_TEXT) == NULL_TEXT && NULL_TEXT[1..] == ULL
    ensures SkipComments(NULL_TEXT) == Read(Token(NullToken, NULL_TEXT), [])
  {
    assert ULL[|ULL|..] == [] && NULL_TEXT[..4 - 0] == NULL_TEXT;
  }

  /** In front of the document null, any other byte changes what is read: an array, an object and a string do not
      end, a number is read up to the word, and nothing else begins a value. */
  lemma NullBehind(c: byte, isDouble: bytes -> bool)
    requires !(c == 9 || c == 10 || c == 13 || c == 32)
    ensures Parse([c] + NULL_TEXT, isDouble) != Parsed(Null)
  {
    hide ReadMembers, ReadArray, Recovered, ReadString, Classify, SkipSpaces, Decoded, SkipComments;
    var s := [c] + NULL_TEXT;
    assert SkipSpaces(s) == s && s[1..] == NULL_TEXT by { FirstIsNoSpace(s); }
    var r := Classify(c, NULL_TEXT);
    ClassifyBehind(c);
    assert ReadToken(s) == Read(Token(r.kind, s[..5 - |r.rest|]), r.rest);
    assert r.kind != Comment ==> SkipComments(s) == ReadToken(s) by { NoComment(s); }
    if r.kind == ObjectBegin {
      NullIsNoKey(isDouble);
    } else if r.kind == ArrayBegin {
      NullNeedsBracket(isDouble);
    }
  }

  lemma FirstIsNoSpace(s: bytes)
    requires s != [] && !(s[0] == 9 || s[0] == 10 || s[0] == 13 || s[0] == 32)
    ensures SkipSpaces(s) == s
  {
  }

  lemma NoComment(s: bytes)
    ensures ReadToken(s).token.kind != Comment ==> SkipComments(s) == ReadToken(s)
  {
  }

  lemma ClassifyBehind(c: byte)
    ensures var r := Classify(c, NULL_TEXT);
            && r.kind !in {StringToken, TrueToken, FalseToken, NullToken, Comment}
            && (r.kind == ObjectBegin || r.kind == ArrayBegin ==> r.rest == NULL_TEXT)
  {
    if c == QUOTE {
      NoQuote(NULL_TEXT);
    }
  }

  lemma {:induction false} NoQuote(s: bytes)
    requires forall i :: 0 <= i < |s| ==> s[i] != QUOTE
    ensures !ScanString(s).ok
    decreases |s|
  {
    if s != [] && s[0] == BACKSLASH && |s| > 1 {
      NoQuote(s[2..]);
    } else if s != [] {
      NoQuote(s[1..]);
    }
  }

  lemma NullIsNoKey(isDouble: bytes -> bool)
    ensures ReadMembers(NULL_TEXT, [], [], 1, isDouble).Failed?
  {
    hide SkipComments, Recovered;
    NullFirst();
  }

  lemma NullNeedsBracket(isDouble: bytes -> bool)
    ensures ReadArray(NULL_TEXT, 1, isDouble).Failed?
  {
    hide Recovered, SkipSpaces;
    NullFirst();
    assert ReadValue(NULL_TEXT, 1, isDouble) == Done(Null, []);
    assert SkipComments([]).token.kind == EndOfStream by { assert SkipSpaces([]) == []; }
  }

  /** One byte in front of a document never changes what is read, exactly when it is a blank, a tab, a line feed or
      a carriage return. */
  lemma BlankByte(c: byte, isDouble: bytes -> bool)
    ensures (forall document :: Parse([c] + document, isDouble) == Parse(document, isDouble))
       <==> c == 9 || c == 10 || c == 13 || c == 32
  {
    hide ReadValue, SkipComments, SkipSpaces;
    if c == 9 || c == 10 || c == 13 || c == 32 {
      forall document
        ensures Parse([c] + document, isDouble) == Parse(document, isDouble)
      {
        SkipOne(c, document);
        SameSpaces([c] + document, document);
        SameToken([c] + document, document, 0, isDouble);
      }
    } else {
      NullBehind(c, isDouble);
      assert Parse(NULL_TEXT, isDouble) == Parsed(Null) by { NullRead(isDouble); }
    }
  }

  lemma NullRead(isDouble: bytes -> bool)
    ensures ReadValue(NULL_TEXT, 0, isDouble) == Done(Null, [])
  {
    hide SkipComments;
    NullFirst();
  }

  // ---------- Comments ----------

  lemma CommentToken(s: bytes, rest: bytes)
    requires s != [] && s[0] == 47 && CommentEnd(s[1..]) == Scan(true, rest)
    ensures SkipComments(s) == SkipComments(rest)
  {
    hide CommentEnd;
    FirstIsNoSpace(s);
    assert ReadToken(s) == Read(Token(Comment, s[..|s| - |rest|]), rest);
  }

  /** No star of `text` has a slash behind it. */
  predicate Unclosed(text: bytes) { forall i :: 0 < i < |text| ==> !(text[i - 1] == 42 && text[i] == 47) }

  lemma {:induction false} ToStarSlash(text: bytes, rest: bytes)
    requires Unclosed(text)
    ensures CStyleEnd(text + ([42, 47] + rest)) == [47] + rest
    ensures CStyleEnd(text) == []
  {
    var all := text + ([42, 47] + rest);
    if text == [] {
      assert all == [42, 47] + rest && all[1..] == [47] + rest;
    } else {
      assert Unclosed(text[1..]) by {
        forall i | 0 < i < |text[1..]|
          ensures !(text[1..][i - 1] == 42 && text[1..][i] == 47)
        {
          assert text[1..][i - 1] == text[i] && text[1..][i] == text[i + 1];
        }
      }
      ToStarSlash(text[1..], rest);
      ConcatCut(text, [42, 47] + rest, 1);
      assert |text| > 1 ==> all[1] == text[1];
      assert |text| == 1 ==> all[1] == 42;
    }
  }

  lemma {:induction false} ToLineEnd(text: bytes, end: bytes, rest: bytes)
    requires 10 !in text && 13 !in text
    requires end == [10] || end == [13, 10] || (end == [13] && (rest == [] || rest[0] != 10))
    ensures CppStyleEnd(text + (end + rest)) == rest
    ensures CppStyleEnd(text) == []
  {
    var all := text + (end + rest);
    if text == [] {
      assert all == end + rest && all[|end|..] == rest;
    } else {
      assert all[0] == text[0] && text[0] in text && forall c <- text[1..] :: c in text;
      ToLineEnd(text[1..], end, rest);
      ConcatCut(text, end + rest, 1);
    }
  }

  /** A comment between slash star and the next star slash does not change what is read behind it; without an end
      nothing is read. */
  lemma CommentBefore(text: bytes, document: bytes, isDouble: bytes -> bool)
    requires Unclosed(text)
    ensures Parse([47, 42] + (text + ([42, 47] + document)), isDouble) == Parse(document, isDouble)
    ensures Parse([47, 42] + text, isDouble) == Rejected
  {
    hide CStyleEnd, SkipComments, ReadValue;
    var behind := text + ([42, 47] + document);
    var s, u := [47, 42] + behind, [47, 42] + text;
    assert s[1..] == [42] + behind && s[1..][1..] == behind;
    ToStarSlash(text, document);
    CommentToken(s, document);
    SameToken(s, document, 0, isDouble);
    assert u[1..] == [42] + text && u[1..][1..] == text;
    NoCommentEnd(u);
    assert ReadValue(u, 0, isDouble).Failed? by { FailsAt(u, isDouble); }
  }

  lemma NoCommentEnd(s: bytes)
    requires s != [] && s[0] == 47 && !CommentEnd(s[1..]).ok
    ensures SkipComments(s).token.kind == ErrorToken
  {
    hide CommentEnd;
    FirstIsNoSpace(s);
  }

  lemma FailsAt(s: bytes, isDouble: bytes -> bool)
    requires SkipComments(s).token.kind == ErrorToken
    ensures ReadValue(s, 0, isDouble).Failed?
  {
    hide SkipComments;
  }

  /** Nor does a comment of two slashes up to a line feed, a carriage return or both. */
  lemma LineCommentBefore(text: bytes, end: bytes, document: bytes, isDouble: bytes -> bool)
    requires 10 !in text && 13 !in text && (end == [10] || end == [13, 10] || end == [13])
    ensures Parse([47, 47] + (text + (end + document)), isDouble) == Parse(document, isDouble)
  {
    hide CppStyleEnd, SkipComments, ReadValue, SkipSpaces;
    var behind := text + (end + document);
    var s := [47, 47] + behind;
    assert s[1..] == [47] + behind && s[1..][1..] == behind;
    if end == [13] && document != [] && document[0] == 10 {
      var rest := document[1..];
      assert document == [10] + rest && end + document == [13, 10] + rest;
      ToLineEnd(text, [13, 10], rest);
      CommentToken(s, rest);
      SkipOne(10, rest);
      SameSpaces(document, rest);
    } else {
      ToLineEnd(text, end, document);
      CommentToken(s, document);
    }
    SameToken(s, document, 0, isDouble);
  }

  // ---------- Numbers ----------

  lemma {:induction false} DigitsEnd(digits: bytes, rest: bytes)
    requires AllDigits(digits) && (rest == [] || !IsDigit(rest[0]))
    ensures SkipDigits(digits + rest) == rest
  {
    if digits == [] {
      assert digits + rest == rest;
    } else {
      DigitsEnd(digits[1..], rest);
      ConcatCut(digits, rest, 1);
    }
  }

  /** An exponent: e or E, an optional sign, digits. */
  ghost predicate IsExponent(s: bytes) {
    s == [] || exists e: byte, sign, digits :: s == [e] + (sign + digits) && (e == 101 || e == 69)
                                               && (sign == [] || sign == [43] || sign == [45]) && AllDigits(digits)
  }

  ghost predicate IsFraction(s: bytes) { s == [] || exists digits :: s == [46] + digits && AllDigits(digits) }

  lemma ToExponentEnd(exponent: bytes, rest: bytes)
    requires IsExponent(exponent)
    requires rest == [] || !(48 <= rest[0] <= 57 || rest[0] in {46, 101, 69, 43, 45})
    ensures ExponentEnd(exponent + rest) == rest
  {
    hide ExponentEnd;
    if exponent == [] {
      assert exponent + rest == rest;
      NoExponent(rest);
    } else {
      var e: byte, sign, digits :| exponent == [e] + (sign + digits) && (e == 101 || e == 69)
                                   && (sign == [] || sign == [43] || sign == [45]) && AllDigits(digits);
      ConcatAssoc([e], sign + digits, rest);
      ConcatAssoc(sign, digits, rest);
      DigitsEnd(digits, rest);
      assert digits + rest == [] || ((digits + rest)[0] != 43 && (digits + rest)[0] != 45);
      SignedEnd(e, sign, digits + rest);
    }
  }

  lemma NoExponent(s: bytes)
    requires s == [] || (s[0] != 101 && s[0] != 69)
    ensures ExponentEnd(s) == s
  {
  }

  lemma SignedEnd(e: byte, sign: bytes, behind: bytes)
    requires (e == 101 || e == 69) && (sign == [] || sign == [43] || sign == [45])
    requires behind == [] || (behind[0] != 43 && behind[0] != 45)
    ensures ExponentEnd([e] + (sign + behind)) == SkipDigits(behind)
  {
    hide SkipDigits;
    var s := [e] + (sign + behind);
    assert s[1..] == sign + behind;
    if sign == [] {
      assert sign + behind == behind;
    } else {
      assert s[1] == sign[0] && s[2..] == behind;
    }
  }

  /** A number is read to the end of its fraction and its exponent, and one with either is left to decodeDouble. */
  lemma NumberRead(whole: bytes, fraction: bytes, exponent: bytes, rest: bytes, isDouble: bytes -> bool)
    requires whole != [] && (48 <= whole[0] <= 57 || whole[0] == 45) && AllDigits(whole[1..])
    requires IsFraction(fraction) && IsExponent(exponent) && (fraction != [] || exponent != [])
    requires rest == [] || !(48 <= rest[0] <= 57 || rest[0] in {46, 101, 69, 43, 45})
    ensures var text := whole + (fraction + exponent);
            Parse(text + rest, isDouble) == if isDouble(text) then Parsed(Real(text)) else Rejected
  {
    hide SkipDigits, ExponentEnd, SkipComments, SkipSpaces, IsFraction, IsExponent;
    var text := whole + (fraction + exponent);
    var s := text + rest;
    FirstIsNoSpace(s);
    ConcatAssoc(whole, fraction + exponent, rest);
    ConcatAssoc(fraction, exponent, rest);
    var behind := exponent + rest;
    ConcatCut(whole, fraction + behind, 1);
    assert NumberEnd(s[1..]) == rest by {
      ToFraction(whole[1..], fraction, exponent, rest);
    }
    assert s[..|s| - |rest|] == text;
    assert ReadToken(s) == Read(Token(NumberToken, text), rest);
    NoComment(s);
    assert !IsInteger(text) by { NotInteger(whole, fraction, exponent); }
    assert ReadValue(s, 0, isDouble) == ReadNumber(text, rest, isDouble) by { NumberFirst(s, isDouble); }
  }

  lemma NumberFirst(s: bytes, isDouble: bytes -> bool)
    requires SkipComments(s).token.kind == NumberToken
    ensures ReadValue(s, 0, isDouble) == ReadNumber(SkipComments(s).token.text, SkipComments(s).rest, isDouble)
  {
    hide SkipComments, ReadNumber;
  }

  lemma NotInteger(whole: bytes, fraction: bytes, exponent: bytes)
    requires whole != [] && IsFraction(fraction) && IsExponent(exponent) && (fraction != [] || exponent != [])
    ensures !IsInteger(whole + (fraction + exponent))
  {
    var text := whole + (fraction + exponent);
    assert text[|whole|] == if fraction != [] then fraction[0] else exponent[0];
    assert !IsDigit(text[|whole|]);
    assert Magnitude(text)[if IsNegative(text) then |whole| - 1 else |whole|] == text[|whole|];
  }

  lemma ToFraction(digits: bytes, fraction: bytes, exponent: bytes, rest: bytes)
    requires AllDigits(digits) && IsFraction(fraction) && IsExponent(exponent)
    requires rest == [] || !(48 <= rest[0] <= 57 || rest[0] in {46, 101, 69, 43, 45})
    ensures NumberEnd(digits + (fraction + (exponent + rest))) == rest
  {
    hide SkipDigits, ExponentEnd, IsExponent;
    var behind := exponent + rest;
    ToExponentEnd(exponent, rest);
    assert behind == [] || !(48 <= behind[0] <= 57 || behind[0] == 46) by { BehindFraction(exponent, rest); }
    if fraction == [] {
      assert fraction + behind == behind;
      DigitsEnd(digits, behind);
    } else {
      var d :| fraction == [46] + d && AllDigits(d);
      assert fraction + behind == [46] + (d + behind);
      DigitsEnd(digits, [46] + (d + behind));
      assert ([46] + (d + behind))[1..] == d + behind;
      DigitsEnd(d, behind);
    }
  }

  lemma BehindFraction(exponent: bytes, rest: bytes)
    requires IsExponent(exponent)
    requires rest == [] || !(48 <= rest[0] <= 57 || rest[0] in {46, 101, 69, 43, 45})
    ensures var behind := exponent + rest; behind == [] || !(48 <= behind[0] <= 57 || behind[0] == 46)
  {
    if exponent == [] {
      assert exponent + rest == rest;
    }
  }
}
