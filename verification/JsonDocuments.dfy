/** Documents of small values, byte by byte, and where a line ends in the styled ones. */
module JsonDocuments {
  import opened Bytes
  import opened Wrappers
  import opened Decimals
  import opened JsonNumbers
  import opened JsonStrings
  import opened JsonValue
  import opened JsonReader
  import opened JsonTokens
  import opened JsonText
  import opened JsonStyled
  import opened JsonRoundTrip

  // ---------- FastWriter ----------

  /** Two elements between brackets, two members between braces, commas between them and a colon behind each key. */
  lemma FastPair(a: Json, b: Json, k: bytes, l: bytes, o: FastOptions)
    ensures FastText(Arr([a, b]), o) == [91] + (FastText(a, o) + ([44] + FastText(b, o))) + [93]
    ensures var colon := if o.yaml then [58, 32] else [58];
            FastText(Obj([Member(k, a), Member(l, b)]), o) ==
            [123] + (Quoted(k) + (colon + (FastText(a, o) + ([44] + (Quoted(l) + (colon + FastText(b, o))))))) + [125]
  {
    hide FastText, Quoted;
    var x, y := FastText(a, o), FastText(b, o);
    FastContainers(a, b, k, l, o);
    assert y + [] == y;
    assert [a, b][1..] == [b] && [Member(k, a), Member(l, b)][1..] == [Member(l, b)];
  }

  lemma FastContainers(a: Json, b: Json, k: bytes, l: bytes, o: FastOptions)
    ensures FastText(Arr([a, b]), o) == [91] + FastElements([a, b], o) + [93]
    ensures var members := [Member(k, a), Member(l, b)];
            FastText(Obj(members), o) == [123] + FastMembers(members, o) + [125]
  {
    hide FastElements, FastMembers;
  }

  /** What has no parts: null, which may be left out, true, false, and the empty containers; and the line feed at the
      end, which may be left out. */
  lemma FastFlat(v: Json, o: FastOptions)
    ensures FastText(Null, o) == if o.dropNull then [] else [110, 117, 108, 108]
    ensures FastText(Bool(true), o) == [116, 114, 117, 101] && FastText(Bool(false), o) == [102, 97, 108, 115, 101]
    ensures FastText(Arr([]), o) == [91, 93] && FastText(Obj([]), o) == [123, 125]
    ensures FastDocument(v, o) == if o.omitLineFeed then FastText(v, o) else FastText(v, o) + [10]
  {
    hide Quoted;
    assert FastText(v, o) + [] == FastText(v, o);
  }

  // ---------- Reader ----------

  /** An object of two numbers: in the order of the keys, and with one key the second number. */
  lemma PairRead(k: bytes, m: nat, l: bytes, n: nat, isDouble: bytes -> bool)
    requires m < 0x8000_0000 && n < 0x8000_0000
    ensures Parse([123] + (Quoted(k) + ([58] + (Decimal(m) + ([44] + (Quoted(l) + ([58] + Decimal(n))))))) + [125],
                  isDouble)
         == Parsed(Obj(if k == l then [Member(k, Int(n))]
                       else if Less(k, l) then [Member(k, Int(m)), Member(l, Int(n))]
                       else [Member(l, Int(n)), Member(k, Int(m))]))
  {
    hide Quoted, Decimal, Parse, Spells, Tokens, FastText, Less, Stops;
    var o := FastOptions(false, false, true);
    var v := Obj([Member(k, Int(m)), Member(l, Int(n))]);
    FastPair(Int(m), Int(n), k, l, o);
    IntTexts(m, n, o);
    assert Writable(v);
    FastSpells(v, o, []);
    PairForm(v, k, m, l, n);
    assert FastText(v, o) + [] == FastText(v, o);
    assert Stops([]) by { NothingStops(); }
    ParseSpelled(FastText(v, o), v, [], isDouble);
  }

  lemma NothingStops()
    ensures Stops([])
  {
  }

  lemma IntTexts(m: nat, n: nat, o: FastOptions)
    ensures FastText(Int(m), o) == Decimal(m) && FastText(Int(n), o) == Decimal(n)
  {
    hide Decimal;
  }

  lemma PairForm(v: Json, k: bytes, m: nat, l: bytes, n: nat)
    requires v == Obj([Member(k, Int(m)), Member(l, Int(n))]) && m < 0x8000_0000 && n < 0x8000_0000
    ensures Depth(v) == 2
    ensures Reread(v) == Obj(if k == l then [Member(k, Int(n))]
                             else if Less(k, l) then [Member(k, Int(m)), Member(l, Int(n))]
                             else [Member(l, Int(n)), Member(k, Int(m))])
  {
    hide Less;
    var a, b := Member(k, Int(m)), Member(l, Int(n));
    LessTotal(k, l);
    LessAsymmetric(k, l);
    OneMember(a);
    OneMember(b);
    assert [a, b][1..] == [b];
    assert RereadMembers([a, b]) == [a] + RereadMembers([b]) == [a, b];
    assert DepthMembers([a, b]) == Max(1, DepthMembers([b]));
    assert InsertAll([], [a, b]) == InsertAll(Insert([], a), [b]) == InsertAll([a], [b]);
    assert [b][1..] == [];
    assert InsertAll([a], [b]) == Insert([a], b);
    assert Insert([], b) == [b];
  }

  lemma OneMember(m: Member)
    requires m.value.Int? && m.value.n < 0x8000_0000
    ensures RereadMembers([m]) == [m] && DepthMembers([m]) == 1 && Reread(m.value) == m.value && Depth(m.value) == 1
  {
    assert [m][1..] == [];
    assert RereadMembers([m]) == [m] + RereadMembers([]) == [m];
    assert DepthMembers([m]) == Max(1, DepthMembers([]));
  }

  /** Arrays inside one another, the innermost one empty. */
  function Nested(n: nat): Json
    requires n >= 1
  {
    if n == 1 then Arr([]) else Arr([Nested(n - 1)])
  }

  function Repeated(n: nat, c: byte): (r: bytes)
    ensures |r| == n
  {
    seq(n, _ => c)
  }

  lemma {:induction false} NestedForm(n: nat)
    requires n >= 1
    ensures Writable(Nested(n)) && Depth(Nested(n)) == n
    ensures FastText(Nested(n), FastOptions(false, false, true)) == Repeated(n, 91) + Repeated(n, 93)
  {
    var o := FastOptions(false, false, true);
    if n == 1 {
      assert FastText(Arr([]), o) == [91] + [] + [93];
      assert Repeated(1, 91) == [91] && Repeated(1, 93) == [93];
    } else {
      var inner := Nested(n - 1);
      NestedForm(n - 1);
      assert DepthAll([inner]) == Max(Depth(inner), DepthAll([inner][1..])) == n - 1;
      assert FastElements([inner], o) == FastText(inner, o) + [] == FastText(inner, o);
      assert Repeated(n, 91) == [91] + Repeated(n - 1, 91) && Repeated(n, 93) == Repeated(n - 1, 93) + [93];
      ConcatRegroup([91], Repeated(n - 1, 91), Repeated(n - 1, 93), [93]);
    }
  }

  /** So many brackets opened and closed again are a value up to a thousand of them, and too deep a document beyond. */
  lemma NestedRead(n: nat, isDouble: bytes -> bool)
    requires n >= 1
    ensures var verdict := Parse(Repeated(n, 91) + Repeated(n, 93), isDouble);
            if n <= 1000 then verdict.Parsed? else verdict.StackLimit?
  {
    hide Parse, Spells, Tokens, FastText, Stops, Nested, Repeated, Reread, Writable, Depth;
    var text := Repeated(n, 91) + Repeated(n, 93);
    NestedForm(n);
    FastSpells(Nested(n), FastOptions(false, false, true), []);
    NothingStops();
    assert text + [] == text;
    ParseSpelled(text, Nested(n), [], isDouble);
  }

  // ---------- StyledWriter ----------

  /** Members stand on lines of their own, three blanks further in. */
  lemma StyledPair(k: bytes, m: int, l: bytes, n: int)
    requires 0 !in k && 0 !in l
    ensures var first := [10, 32, 32, 32] + Quoted(k) + [32, 58, 32];
            var second := [10, 32, 32, 32] + Quoted(l) + [32, 58, 32];
            StyledDocument(Obj([Member(k, Int(m)), Member(l, Int(n))])) ==
            [123] + first + IntText(m) + [44] + second + IntText(n) + [10, 125] + [10]
  {
    hide Quoted, IntText, KeyText, WithIndent;
    var a, b := Member(k, Int(m)), Member(l, Int(n));
    var first, second := [10, 32, 32, 32] + Quoted(k) + [32, 58, 32], [10, 32, 32, 32] + Quoted(l) + [32, 58, 32];
    var begun := [123] + first + IntText(m) + [44];
    var ended := begun + second + IntText(n);
    IntTextEnd(n);
    OpeningBrace();
    KeyLine([123], k);
    KeyLine(begun, l);
    LastMember(b, begun, second);
    assert [a, b][1..] == [b] && [] + INDENT == INDENT;
    assert StyledMembers([a, b], [123], INDENT) == StyledMembers([b], begun, INDENT) == ended;
    assert ended[|ended| - 1] == IntText(n)[|IntText(n)| - 1];
    ClosingBrace(ended);
  }

  lemma LastMember(m: Member, doc: bytes, line: bytes)
    requires m.value.Int? && KeyText(doc, INDENT, m.key) == doc + line
    ensures StyledMembers([m], doc, INDENT) == doc + line + IntText(m.value.n)
  {
    hide IntText, KeyText;
  }

  lemma OpeningBrace()
    ensures WithIndent([], [], LEFT_BRACE) == [123]
  {
  }

  lemma KeyLine(doc: bytes, key: bytes)
    requires doc != [] && doc[|doc| - 1] != 32 && doc[|doc| - 1] != 10 && 0 !in key
    ensures KeyText(doc, INDENT, key) == doc + ([10, 32, 32, 32] + Quoted(key) + [32, 58, 32])
  {
    hide Quoted, UpToNul;
    UpToNulSame(key);
    assert [10] + INDENT == [10, 32, 32, 32] && SPACE + COLON_TOKEN + SPACE == [32, 58, 32];
    ConcatAssoc(doc, [10, 32, 32, 32], Quoted(key));
    ConcatAssoc(doc, [10, 32, 32, 32] + Quoted(key), [32, 58, 32]);
  }

  lemma ClosingBrace(doc: bytes)
    requires doc != [] && doc[|doc| - 1] != 32 && doc[|doc| - 1] != 10
    ensures WithIndent(doc, [], RIGHT_BRACE) == doc + [10, 125]
  {
    assert [10] + [] == [10];
    ConcatAssoc(doc, [10], [125]);
  }

  lemma IntTextEnd(n: int)
    ensures IntText(n) != [] && IsDigit(IntText(n)[|IntText(n)| - 1])
  {
  }

  /** Flat elements stand on one line, with a blank behind each comma and inside the brackets. */
  lemma StyledLine(m: int, n: int)
    requires |IntText(m)| + |IntText(n)| < 68
    ensures StyledDocument(Arr([Int(m), Int(n)])) == [91, 32] + IntText(m) + [44, 32] + IntText(n) + [32, 93, 10]
  {
    hide IntText, MultiLine, Joined;
    ShortLine(m, n);
    var joined := IntText(m) + ([44] + ([32] + IntText(n)));
    JoinedTwo(m, n);
    var line := [91] + ([32] + joined) + ([32] + [93]);
    assert [] + line == line && line + [10] == [91, 32] + IntText(m) + [44, 32] + IntText(n) + [32, 93, 10];
  }

  lemma JoinedTwo(m: int, n: int)
    ensures Joined([Int(m), Int(n)]) == IntText(m) + ([44] + ([32] + IntText(n)))
  {
    hide IntText;
    assert [Int(m), Int(n)][1..] == [Int(n)];
    assert Joined([Int(n)]) == IntText(n) + [] == IntText(n);
  }

  lemma ShortLine(m: int, n: int)
    requires |IntText(m)| + |IntText(n)| < 68
    ensures !MultiLine([Int(m), Int(n)])
  {
    hide IntText;
    assert [Int(m), Int(n)][1..] == [Int(n)] && [Int(n)][1..] == [];
    assert TextLengths([Int(n)]) == |IntText(n)| + TextLengths([]);
  }

  lemma {:induction false} JoinedLength(elements: seq<Json>)
    requires elements != []
    ensures |Joined(elements)| == 2 * (|elements| - 1) + TextLengths(elements)
  {
    hide FlatText;
    if |elements| > 1 {
      JoinedLength(elements[1..]);
    } else {
      assert TextLengths(elements[1..]) == 0;
    }
  }

  lemma {:induction false} TextsNonEmpty(elements: seq<Json>)
    requires forall x <- elements :: Flat(x) && Writable(x)
    ensures TextLengths(elements) >= |elements|
  {
    hide FlatText;
    if elements != [] {
      FlatNonEmpty(elements[0]);
      TextsNonEmpty(elements[1..]);
    }
  }

  lemma FlatNonEmpty(v: Json)
    requires Flat(v) && Writable(v)
    ensures |FlatText(v)| >= 1
  {
    if v.Int? {
      IntTextEnd(v.n);
    } else if v.UInt? {
      IntTextEnd(v.n);
    }
  }

  /** The elements of an array are put on one line exactly when none of them needs lines of its own and the line has
      fewer than 74 characters. */
  lemma OneLine(elements: seq<Json>)
    requires elements != [] && forall x <- elements :: Writable(x)
    ensures MultiLine(elements) <==>
            (exists x <- elements :: !Flat(x)) || |[91, 32] + Joined(elements) + [32, 93]| >= 74
  {
    hide Joined, TextLengths, Flat, Writable;
    JoinedLength(elements);
    if forall x <- elements :: Flat(x) {
      TextsNonEmpty(elements);
    }
  }

  /** Elements on lines of their own, indented like members. */
  lemma StyledLines(x: bytes)
    requires |Quoted(x)| >= 70
    ensures StyledDocument(Arr([Str(x)])) == [91, 10, 32, 32, 32] + Quoted(x) + [10, 93, 10]
  {
    hide Quoted;
    var elements := [Str(x)];
    assert elements[1..] == [];
    assert MultiLine(elements);
    assert [] + INDENT == INDENT;
    assert WithIndent([], [], LEFT_BRACKET) == [91];
    assert Indented([91], INDENT) == [91, 10, 32, 32, 32];
    var inside := [91, 10, 32, 32, 32] + Quoted(x);
    assert StyledElements(elements, [91], INDENT) == inside;
    QuotedEnd(x);
    assert inside[|inside| - 1] == 34;
    assert WithIndent(inside, [], RIGHT_BRACKET) == inside + [10, 93];
  }

  lemma QuotedEnd(x: bytes)
    ensures Quoted(x) != [] && Quoted(x)[|Quoted(x)| - 1] == 34
  {
  }
}
