/** Json::FastWriter and Json::StyledWriter: they append to their document while recursing, the second one with
    a cache of child strings and an indentation. */
module JsonWriters {
  import opened Bytes
  import opened JsonNumbers
  import opened JsonStrings
  import opened JsonValue
  import opened JsonReader
  import opened JsonTokens
  import opened JsonText
  import opened JsonStyled

  /** valueToString and valueToQuotedStringN, by the type of a scalar. */
  method ScalarToString(v: Json) returns (s: bytes)
    requires Writable(v) && !v.Arr? && !v.Obj?
    ensures s == ScalarText(v)
  {
    match v
    case Null => s := NULL_TEXT;
    case Bool(b) => s := if b then TRUE_TEXT else FALSE_TEXT;
    case Int(n) => s := ValueToString(n as int64);
    case UInt(n) => s := UnsignedToString(n as uint64);
    case Str(t) => s := ValueToQuotedStringN(t);
  }

  class FastWriter {
    var document: bytes
    const options: FastOptions

    constructor (options: FastOptions)
      ensures this.options == options
    {
      this.options, document := options, [];
    }

    /** FastWriter::write */
    method Write(root: Json) returns (text: bytes)
      requires Writable(root)
      modifies this
      ensures text == document == FastDocument(root, options)
    {
      document := [];
      WriteValue(root);
      assert [] + FastText(root, options) == FastText(root, options);
      if !options.omitLineFeed {
        document := document + [10];
      } else {
        assert document + [] == document;
      }
      text := document;
    }

    /** FastWriter::writeValue */
    method WriteValue(v: Json)
      requires Writable(v)
      modifies this
      ensures document == old(document) + FastText(v, options)
      decreases v, 1
    {
      if v.Null? && options.dropNull {
        assert document + [] == document;
      } else if v.Arr? {
        WriteArray(v);
      } else if v.Obj? {
        WriteObject(v);
      } else {
        var text := ScalarToString(v);
        document := document + text;
      }
    }

    method WriteArray(v: Json)
      requires v.Arr? && Writable(v)
      modifies this
      ensures document == old(document) + FastText(v, options)
      decreases v, 0
    {
      hide FastText;
      ghost var was, es, o := document, v.elements, options;
      document := document + LEFT_BRACKET;
      ghost var front := document;
      var index := 0;
      while index < |v.elements|
        invariant 0 <= index <= |es|
        invariant document + ElementsLeft(es, index, o) == front + FastElements(es, o)
        decreases |es| - index
      {
        ghost var before := document;
        ElementsLeftStep(es, index, o);
        if index > 0 {
          document := document + COMMA_TOKEN;
        }
        WriteValue(v.elements[index]);
        index := index + 1;
        Regroup(before, if index > 1 then COMMA_TOKEN else [], FastText(es[index - 1], o), ElementsLeft(es, index, o));
        assert before + [] == before;
      }
      assert document + [] == document;
      document := document + RIGHT_BRACKET;
      ArrayText(v, o);
      ConcatAssoc(was, LEFT_BRACKET, FastElements(es, o));
      ConcatAssoc(was, LEFT_BRACKET + FastElements(es, o), RIGHT_BRACKET);
    }

    method WriteObject(v: Json)
      requires v.Obj? && Writable(v)
      modifies this
      ensures document == old(document) + FastText(v, options)
      decreases v, 0
    {
      hide FastText, Quoted;
      ghost var was, ms, o := document, v.members, options;
      document := document + LEFT_BRACE;
      ghost var front := document;
      var index := 0;
      while index < |v.members|
        invariant 0 <= index <= |ms|
        invariant document + MembersLeft(ms, index, o) == front + FastMembers(ms, o)
        decreases |ms| - index
      {
        ghost var before := document;
        MembersLeftStep(ms, index, o);
        var name := v.members[index].key;
        if index > 0 {
          document := document + COMMA_TOKEN;
        }
        var quoted := ValueToQuotedStringN(name);
        document := document + quoted;
        document := document + ColonText(options);
        WriteValue(v.members[index].value);
        index := index + 1;
        RegroupFive(before, if index > 1 then COMMA_TOKEN else [], quoted, ColonText(o),
                    FastText(ms[index - 1].value, o),
                    MembersLeft(ms, index, o));
        assert before + [] == before;
      }
      assert document + [] == document;
      document := document + RIGHT_BRACE;
      ArrayText(v, o);
      ConcatAssoc(was, LEFT_BRACE, FastMembers(ms, o));
      ConcatAssoc(was, LEFT_BRACE + FastMembers(ms, o), RIGHT_BRACE);
    }

    static lemma ArrayText(v: Json, o: FastOptions)
      ensures v.Arr? ==> FastText(v, o) == LEFT_BRACKET + FastElements(v.elements, o) + RIGHT_BRACKET
      ensures v.Obj? ==> FastText(v, o) == LEFT_BRACE + FastMembers(v.members, o) + RIGHT_BRACE
    {
    }

    static lemma Regroup(a: bytes, b: bytes, c: bytes, d: bytes)
      ensures ((a + b) + c) + d == a + (b + (c + d))
    {
    }

    static lemma RegroupFive(a: bytes, b: bytes, c: bytes, d: bytes, e: bytes, f: bytes)
      ensures ((((a + b) + c) + d) + e) + f == a + (b + (c + (d + (e + f))))
    {
    }

    /** What is still to be written of the elements from `i` on. */
    static function ElementsLeft(es: seq<Json>, i: nat, o: FastOptions): bytes
      requires i <= |es|
    {
      if i == |es| then [] else (if i == 0 then [] else COMMA_TOKEN) + FastElements(es[i..], o)
    }

    static lemma ElementsLeftStep(es: seq<Json>, i: nat, o: FastOptions)
      requires i < |es|
      ensures ElementsLeft(es, i, o)
           == (if i == 0 then [] else COMMA_TOKEN) + (FastText(es[i], o) + ElementsLeft(es, i + 1, o))
    {
      assert es[i..][1..] == es[i + 1..];
    }

    static function MembersLeft(ms: seq<Member>, i: nat, o: FastOptions): bytes
      requires i <= |ms|
    {
      if i == |ms| then [] else (if i == 0 then [] else COMMA_TOKEN) + FastMembers(ms[i..], o)
    }

    static lemma MembersLeftStep(ms: seq<Member>, i: nat, o: FastOptions)
      requires i < |ms|
      ensures MembersLeft(ms, i, o)
           == (if i == 0 then [] else COMMA_TOKEN) + (Quoted(ms[i].key) + (ColonText(o) +
                (FastText(ms[i].value, o) + MembersLeft(ms, i + 1, o))))
    {
      assert ms[i..][1..] == ms[i + 1..];
    }
  }

  /** The strings of flat values. */
  function Texts(elements: seq<Json>): (r: seq<bytes>)
    ensures |r| == |elements|
    ensures forall i :: 0 <= i < |r| ==> r[i] == FlatText(elements[i])
  {
    seq(|elements|, i requires 0 <= i < |elements| => FlatText(elements[i]))
  }

  class StyledWriter {
    var childValues: seq<bytes>
    var document: bytes
    var indentString: bytes
    var addChildValues: bool

    constructor ()
    {
      childValues, document, indentString, addChildValues := [], [], [], false;
    }

    /** StyledWriter::write, whatever an earlier call left in the cache. */
    method Write(root: Json) returns (text: bytes)
      requires Writable(root)
      modifies this
      ensures text == document == StyledDocument(root)
    {
      document := [];
      addChildValues := false;
      indentString := [];
      WriteValue(root);
      document := document + [10];
      text := document;
    }

    /** StyledWriter::writeValue: into the document, or onto the cache. */
    method WriteValue(v: Json)
      requires Writable(v) && (addChildValues ==> Flat(v))
      modifies this
      ensures addChildValues == old(addChildValues) && indentString == old(indentString)
      ensures addChildValues ==> document == old(document) && childValues == old(childValues) + [FlatText(v)]
      ensures !addChildValues ==> document == Styled(v, old(document), indentString)
      decreases v, 2
    {
      if v.Arr? {
        WriteArrayValue(v);
      } else if v.Obj? {
        if |v.members| == 0 {
          PushValue(LEFT_BRACE + RIGHT_BRACE);
        } else {
          WriteObjectValue(v);
        }
      } else {
        var text := ScalarToString(v);
        PushValue(text);
      }
    }

    method WriteObjectValue(v: Json)
      requires v.Obj? && v.members != [] && Writable(v) && !addChildValues
      modifies this
      ensures !addChildValues && indentString == old(indentString)
      ensures document == Styled(v, old(document), indentString)
      decreases v, 0
    {
      hide Styled, Quoted, StyledMembers;
      ghost var ms, outer := v.members, indentString;
      NestedForms(v, document, outer);
      WriteWithIndent(LEFT_BRACE);
      IndentMore();
      ghost var inside := StyledMembers(ms, document, indentString);
      var index := 0;
      while true
        invariant 0 <= index < |ms| && !addChildValues && indentString == outer + INDENT
        invariant StyledMembers(ms[index..], document, indentString) == inside
        decreases |ms| - index
      {
        StyledMembersStep(ms[index..], document, indentString);
        assert ms[index..][1..] == ms[index + 1..];
        var quoted := ValueToQuotedString(v.members[index].key);
        WriteWithIndent(quoted);
        document := document + (SPACE + COLON_TOKEN + SPACE);
        WriteValue(v.members[index].value);
        index := index + 1;
        if index == |v.members| {
          break;
        }
        document := document + COMMA_TOKEN;
      }
      IndentLess(outer);
      WriteWithIndent(RIGHT_BRACE);
    }

    /** StyledWriter::writeArrayValue */
    method WriteArrayValue(v: Json)
      requires v.Arr? && Writable(v) && (addChildValues ==> Flat(v))
      modifies this
      ensures addChildValues == old(addChildValues) && indentString == old(indentString)
      ensures addChildValues ==> document == old(document) && childValues == old(childValues) + [FlatText(v)]
      ensures !addChildValues ==> document == Styled(v, old(document), indentString)
      decreases v, 1
    {
      hide Styled;
      NestedForms(v, document, indentString);
      if |v.elements| == 0 {
        PushValue(LEFT_BRACKET + RIGHT_BRACKET);
      } else {
        var multiLine := IsMultiLineArray(v);
        if multiLine {
          WriteLines(v);
        } else {
          WriteSingleLine(v);
        }
      }
    }

    /** The elements on a line each, from the cache if it was filled. */
    method WriteLines(v: Json)
      requires v.Arr? && v.elements != [] && Writable(v) && !addChildValues
      requires childValues == [] || (childValues == Texts(v.elements) && forall x <- v.elements :: Flat(x))
      modifies this
      ensures !addChildValues && indentString == old(indentString)
      ensures document == WithIndent(StyledElements(v.elements, WithIndent(old(document), indentString, LEFT_BRACKET),
                                                    indentString + INDENT), indentString, RIGHT_BRACKET)
      decreases v, 0
    {
      hide Styled, StyledElements;
      ghost var es, outer := v.elements, indentString;
      WriteWithIndent(LEFT_BRACKET);
      IndentMore();
      ghost var inside := StyledElements(es, document, indentString);
      var hasChildValue := |childValues| > 0;
      var index := 0;
      while true
        invariant 0 <= index < |es| && !addChildValues && indentString == outer + INDENT
        invariant hasChildValue ==> childValues == Texts(es) && forall x <- es :: Flat(x)
        invariant StyledElements(es[index..], document, indentString) == inside
        decreases |es| - index
      {
        StyledElementsStep(es[index..], document, indentString);
        assert es[index..][1..] == es[index + 1..];
        if hasChildValue {
          StyledFlat(es[index], Indented(document, indentString), indentString);
          WriteWithIndent(childValues[index]);
        } else {
          WriteIndent();
          WriteValue(v.elements[index]);
        }
        index := index + 1;
        if index == |v.elements| {
          break;
        }
        document := document + COMMA_TOKEN;
      }
      IndentLess(outer);
      WriteWithIndent(RIGHT_BRACKET);
    }

    method WriteSingleLine(v: Json)
      requires v.Arr? && childValues == Texts(v.elements)
      modifies this`document
      ensures document == old(document) + (LEFT_BRACKET + (SPACE + Joined(v.elements)) + (SPACE + RIGHT_BRACKET))
    {
      hide Texts, FlatText;
      ghost var was, es := document, v.elements;
      document := document + (LEFT_BRACKET + SPACE);
      ghost var front := document;
      for index := 0 to |childValues|
        invariant document + JoinedLeft(es, index) == front + Joined(es)
      {
        ghost var before := document;
        JoinedLeftStep(es, index);
        TextAt(es, index);
        if index > 0 {
          document := document + (COMMA_TOKEN + SPACE);
        }
        document := document + childValues[index];
        FastWriter.Regroup(before, if index > 0 then COMMA_TOKEN + SPACE else [], childValues[index],
                           JoinedLeft(es, index + 1));
        assert before + [] == before;
      }
      assert document + [] == document;
      document := document + (SPACE + RIGHT_BRACKET);
      ConcatAssoc(was, LEFT_BRACKET + SPACE, Joined(es));
      ConcatAssoc(LEFT_BRACKET, SPACE, Joined(es));
      ConcatAssoc(was, LEFT_BRACKET + (SPACE + Joined(es)), SPACE + RIGHT_BRACKET);
    }

    /** StyledWriter::isMultineArray: the cache is left empty, or filled with the strings of all elements. */
    method IsMultiLineArray(v: Json) returns (multiLine: bool)
      requires v.Arr? && v.elements != [] && Writable(v) && !addChildValues
      modifies this
      ensures multiLine == MultiLine(v.elements)
      ensures !addChildValues && document == old(document) && indentString == old(indentString)
      ensures if |v.elements| * 3 >= RIGHT_MARGIN || exists x <- v.elements :: !Flat(x) then childValues == []
              else childValues == Texts(v.elements) && forall x <- v.elements :: Flat(x)
      decreases v, 0
    {
      var size := |v.elements|;
      multiLine := size * 3 >= RIGHT_MARGIN;
      childValues := [];
      var index := 0;
      while index < size && !multiLine
        invariant 0 <= index <= size
        invariant multiLine <==> size * 3 >= RIGHT_MARGIN || exists x <- v.elements[..index] :: !Flat(x)
        decreases size - index
      {
        var child := v.elements[index];
        assert v.elements[..index + 1] == v.elements[..index] + [child];
        multiLine := (child.Arr? && |child.elements| > 0) || (child.Obj? && |child.members| > 0);
        index := index + 1;
        assert child in v.elements[..index];
      }
      if !multiLine {
        assert v.elements[..index] == v.elements;
        multiLine := FillCache(v);
      } else {
        assert forall x <- v.elements[..index] :: x in v.elements;
      }
    }

    method FillCache(v: Json) returns (multiLine: bool)
      requires v.Arr? && v.elements != [] && Writable(v) && !addChildValues && childValues == []
      requires forall x <- v.elements :: Flat(x)
      modifies this
      ensures !addChildValues && document == old(document) && indentString == old(indentString)
      ensures childValues == Texts(v.elements)
      ensures multiLine <==> 4 + (|v.elements| - 1) * 2 + TextLengths(v.elements) >= RIGHT_MARGIN
      decreases v, 0, 0
    {
      hide FlatText, Flat;
      ghost var es := v.elements;
      var size := |v.elements|;
      addChildValues := true;
      var lineLength := 4 + (size - 1) * 2;
      var index := 0;
      while index < size
        invariant 0 <= index <= size && addChildValues && document == old(document) && indentString == old(indentString)
        invariant childValues == Texts(es[..index])
        invariant lineLength + TextLengths(es[index..]) == 4 + (size - 1) * 2 + TextLengths(es)
        decreases size - index
      {
        TextsSnoc(es, index);
        WriteValue(v.elements[index]);
        lineLength := lineLength + |childValues[index]|;
        index := index + 1;
      }
      assert es[..size] == es && es[size..] == [];
      addChildValues := false;
      multiLine := lineLength >= RIGHT_MARGIN;
    }

    /** StyledWriter::pushValue */
    method PushValue(value: bytes)
      modifies this`childValues, this`document
      ensures addChildValues ==> document == old(document) && childValues == old(childValues) + [value]
      ensures !addChildValues ==> document == old(document) + value && childValues == old(childValues)
    {
      if addChildValues {
        childValues := childValues + [value];
      } else {
        document := document + value;
      }
    }

    /** StyledWriter::writeIndent */
    method WriteIndent()
      modifies this`document
      ensures document == Indented(old(document), indentString)
    {
      if |document| > 0 {
        var last := document[|document| - 1];
        if last == 32 {
          assert document + [] == document;
          return;
        }
        if last != 10 {
          document := document + [10];
        }
      }
      document := document + indentString;
    }

    method WriteWithIndent(value: bytes)
      modifies this`document
      ensures document == WithIndent(old(document), indentString, value)
    {
      WriteIndent();
      document := document + value;
    }

    method IndentMore()
      modifies this`indentString
      ensures indentString == old(indentString) + INDENT
    {
      indentString := indentString + INDENT;
    }

    /** StyledWriter::unindent: the assertion of the source holds. */
    method IndentLess(ghost outer: bytes)
      requires indentString == outer + INDENT
      modifies this`indentString
      ensures indentString == outer
    {
      indentString := indentString[..|indentString| - |INDENT|];
    }

    // ---------- The layout, one step at a time ----------

    static lemma NestedForms(v: Json, doc: bytes, indent: bytes)
      ensures Flat(v) ==> Styled(v, doc, indent) == doc + FlatText(v)
      ensures v.Obj? && v.members != [] ==>
                Styled(v, doc, indent) ==
                WithIndent(StyledMembers(v.members, WithIndent(doc, indent, LEFT_BRACE), indent + INDENT), indent,
                           RIGHT_BRACE)
      ensures v.Arr? && v.elements != [] ==>
                Styled(v, doc, indent) ==
                if MultiLine(v.elements) then
                  WithIndent(StyledElements(v.elements, WithIndent(doc, indent, LEFT_BRACKET), indent + INDENT), indent,
                             RIGHT_BRACKET)
                else doc + (LEFT_BRACKET + (SPACE + Joined(v.elements)) + (SPACE + RIGHT_BRACKET))
    {
      hide MultiLine, WithIndent, Joined, FlatText;
    }

    static lemma StyledFlat(v: Json, doc: bytes, indent: bytes)
      requires Flat(v)
      ensures Styled(v, doc, indent) == doc + FlatText(v)
    {
    }

    static lemma StyledElementsStep(es: seq<Json>, doc: bytes, indent: bytes)
      requires es != []
      ensures var first := Styled(es[0], Indented(doc, indent), indent);
              StyledElements(es, doc, indent)
              == if |es| == 1 then first else StyledElements(es[1..], first + COMMA_TOKEN, indent)
    {
    }

    static lemma StyledMembersStep(ms: seq<Member>, doc: bytes, indent: bytes)
      requires ms != []
      ensures var first := Styled(ms[0].value, KeyText(doc, indent, ms[0].key), indent);
              StyledMembers(ms, doc, indent)
              == if |ms| == 1 then first else StyledMembers(ms[1..], first + COMMA_TOKEN, indent)
    {
    }

    static function JoinedLeft(es: seq<Json>, i: nat): bytes
      requires i <= |es|
    {
      if i == |es| then [] else (if i == 0 then [] else COMMA_TOKEN + SPACE) + Joined(es[i..])
    }

    static lemma JoinedLeftStep(es: seq<Json>, i: nat)
      requires i < |es|
      ensures JoinedLeft(es, i)
           == (if i == 0 then [] else COMMA_TOKEN + SPACE) + (FlatText(es[i]) + JoinedLeft(es, i + 1))
    {
      assert es[i..][1..] == es[i + 1..];
      ConcatAssoc(COMMA_TOKEN, SPACE, Joined(es[i + 1..]));
    }

    static lemma TextAt(es: seq<Json>, i: nat)
      requires i < |es|
      ensures |Texts(es)| == |es| && Texts(es)[i] == FlatText(es[i])
    {
    }

    static lemma TextsSnoc(es: seq<Json>, i: nat)
      requires i < |es|
      ensures Texts(es[..i + 1]) == Texts(es[..i]) + [FlatText(es[i])]
      ensures TextLengths(es[i..]) == |FlatText(es[i])| + TextLengths(es[i + 1..])
    {
      assert es[i..][1..] == es[i + 1..];
    }
  }
}
