/** The records of users and the keys under which Manager stores them and their index entries. */
module UserKeys {
  import opened Bytes
  import opened Decimals
  import opened MailLists

  const UNDERSCORE: byte := 95
  const DASH: byte := 45

  // ---------- Records ----------

  /** A profile without work history; `other` stands for the texts no index looks at. */
  datatype Person = Person(
    id: int, firstName: bytes, lastName: bytes, email: bytes, password: bytes, city: bytes, other: bytes,
    latitude: real, longitude: real, recommendations: int, skills: seq<bytes>)

  function LowerByte(c: byte): byte { if 65 <= c <= 90 then c + 32 else c }

  /** std::transform with ::tolower */
  function Lower(s: bytes): (r: bytes)
    ensures |r| == |s|
  {
    seq(|s|, i requires 0 <= i < |s| => LowerByte(s[i]))
  }

  lemma LowerTwice(s: bytes)
    ensures Lower(Lower(s)) == Lower(s)
  {
  }

  function LowerAll(items: seq<bytes>): (r: seq<bytes>)
    ensures |r| == |items|
  {
    seq(|items|, i requires 0 <= i < |items| => Lower(items[i]))
  }

  /** Person::deserializeMe: what a record or a request becomes. */
  function FromJson(p: Person): Person {
    p.(firstName := Lower(p.firstName), lastName := Lower(p.lastName), email := Lower(p.email),
       city := Lower(p.city), skills := LowerAll(p.skills))
  }

  lemma FromJsonTwice(p: Person)
    ensures FromJson(FromJson(p)) == FromJson(p)
  {
    LowerTwice(p.firstName);
    LowerTwice(p.lastName);
    LowerTwice(p.email);
    LowerTwice(p.city);
    var once, twice := LowerAll(p.skills), LowerAll(LowerAll(p.skills));
    forall i | 0 <= i < |once|
      ensures twice[i] == once[i]
    {
      LowerTwice(p.skills[i]);
    }
    assert twice == once;
  }

  function FullName(p: Person): bytes { p.firstName + [DASH] + p.lastName }

  /** A record as deserializeMe leaves it. */
  predicate Normal(p: Person) { FromJson(p) == p }

  predicate PlainName(p: Person) { UNDERSCORE !in p.firstName && UNDERSCORE !in p.lastName }

  // ---------- Keys ----------

  /** The kinds of keys; those of job positions are never written for profiles without work history. */
  datatype Kind = Mail | Uuid | Password | Name | SkillIndex | JobPosition | LastId

  function Prefix(k: Kind): bytes {
    match k
    case Mail => Lit("user:mail_")
    case Uuid => Lit("user:uuid_")
    case Password => Lit("user:password_")
    case Name => Lit("user:name_")
    case SkillIndex => Lit("user:skill_")
    case JobPosition => Lit("user:jobPosition_")
    case LastId => Lit("lastID")
  }

  /** Which prefix a key has. */
  function KindOf(key: bytes): Kind {
    if |key| < 6 || key[0] == 108 then LastId
    else if key[5] == 109 then Mail
    else if key[5] == 117 then Uuid
    else if key[5] == 112 then Password
    else if key[5] == 110 then Name
    else if key[5] == 106 then JobPosition
    else SkillIndex
  }

  function PartOf(key: bytes): bytes {
    var n := |Prefix(KindOf(key))|;
    if n <= |key| then key[n..] else []
  }

  /** A key from its prefix and the rest: both can be read off it again. */
  function Key(k: Kind, part: bytes): (key: bytes)
    ensures KindOf(key) == k && PartOf(key) == part
  {
    KindShown(k, part);
    Prefix(k) + part
  }

  lemma KindShown(k: Kind, part: bytes)
    ensures KindOf(Prefix(k) + part) == k && (Prefix(k) + part)[|Prefix(k)|..] == part
  {
    hide Prefix;
    var p := Prefix(k);
    PrefixHead(k, p);
    assert (p + part)[0] == p[0] && (p + part)[5] == p[5];
  }

  lemma PrefixHead(k: Kind, p: bytes)
    requires p == Prefix(k)
    ensures |p| >= 6
            && (p[0] == 108 <==> k == LastId)
            && (k == Mail ==> p[5] == 109)
            && (k == Uuid ==> p[5] == 117)
            && (k == Password ==> p[5] == 112)
            && (k == Name ==> p[5] == 110)
            && (k == SkillIndex ==> p[5] == 115)
            && (k == JobPosition ==> p[5] == 106)
  {
    hide Lit;
  }

  /** The part of a user's key in one of the indexes. */
  function PartFor(kind: Kind, p: Person): bytes {
    if kind == Uuid then IntText(p.id)
    else if kind == Name then FullName(p) + [UNDERSCORE] + p.email
    else p.email
  }

  /** The text stored there. */
  function ValueFor(kind: Kind, p: Person): bytes {
    if kind == Password then p.password else p.email
  }

  lemma UnderscoreSplits(a: bytes, b: bytes, c: bytes, d: bytes)
    requires UNDERSCORE !in a && UNDERSCORE !in c
    requires a + [UNDERSCORE] + b == c + [UNDERSCORE] + d
    ensures a == c && b == d
  {
    ItemOf(a, [UNDERSCORE] + b, UNDERSCORE);
    ItemOf(c, [UNDERSCORE] + d, UNDERSCORE);
    ConcatAssoc(a, [UNDERSCORE], b);
    ConcatAssoc(c, [UNDERSCORE], d);
    assert (a + [UNDERSCORE] + b)[|a| + 1..] == b && (c + [UNDERSCORE] + d)[|c| + 1..] == d;
  }

  /** Names without underscores make the name key tell its user. */
  lemma NamePartInjective(p: Person, q: Person)
    requires PlainName(p) && PlainName(q) && PartFor(Name, p) == PartFor(Name, q)
    ensures FullName(p) == FullName(q) && p.email == q.email
  {
    assert UNDERSCORE !in FullName(p) && UNDERSCORE !in FullName(q);
    UnderscoreSplits(FullName(p), p.email, FullName(q), q.email);
  }
}
