/** The string-keyed store with its records and its id, name, password and skill indexes: what has to hold in
    it, and that each operation's changes keep it so. */
module UserIndex {
  import opened Bytes
  import opened Decimals
  import opened MailLists
  import opened UserKeys

  /** A stored value: a user's record, or the text of an index entry. */
  datatype Entry = Record(person: Person) | Text(text: bytes)

  type Db = map<bytes, Entry>

  predicate Holds(db: Db, key: bytes, text: bytes) { key in db && db[key] == Text(text) }

  predicate IsUser(db: Db, mail: bytes) { Key(Mail, mail) in db && db[Key(Mail, mail)].Record? }

  function User(db: Db, mail: bytes): Person
    requires IsUser(db, mail)
  {
    db[Key(Mail, mail)].person
  }

  /** The mails listed under a skill. */
  function ListOf(db: Db, skill: bytes): seq<bytes> {
    var key := Key(SkillIndex, skill);
    if key in db && db[key].Text? then Split(db[key].text) else []
  }

  /** The last generated id. */
  function Last(db: Db): nat {
    var key := Key(LastId, []);
    if key in db && db[key].Text? && AllDigits(db[key].text) then Number(db[key].text) else 0
  }

  // ---------- The invariant ----------

  /** Every record is as deserializeMe leaves it and lies under its own mail. */
  ghost predicate RecordsOk(db: Db) {
    forall m :: Key(Mail, m) in db ==> IsUser(db, m) && Normal(User(db, m)) && User(db, m).email == m
  }

  /** The keys of an index match the records one to one. */
  ghost predicate IndexOk(db: Db, kind: Kind) {
    && (forall m :: IsUser(db, m) ==> Holds(db, Key(kind, PartFor(kind, User(db, m))), ValueFor(kind, User(db, m))))
    && (forall s :: Key(kind, s) in db ==> exists m :: IsUser(db, m) && PartFor(kind, User(db, m)) == s)
  }

  ghost predicate LastText(db: Db) {
    Key(LastId, []) in db ==> db[Key(LastId, [])] == Text(Decimal(Last(db)))
  }

  ghost predicate LastOk(db: Db) {
    && LastText(db)
    && (forall m :: IsUser(db, m) ==> User(db, m).id <= Last(db))
  }

  /** Every skill entry is a list. */
  ghost predicate TextsOk(db: Db) {
    forall skill :: Key(SkillIndex, skill) in db ==>
      db[Key(SkillIndex, skill)].Text? && IsList(db[Key(SkillIndex, skill)].text)
  }

  /** Every skill entry is a list without repetitions. */
  ghost predicate ListsOk(db: Db) { TextsOk(db) && forall skill :: Distinct(ListOf(db, skill)) }

  /** A mail is listed under a skill exactly when its record has the skill. */
  ghost predicate SkillsOk(db: Db) {
    && ListsOk(db)
    && (forall skill, m :: m in ListOf(db, skill) <==> IsUser(db, m) && skill in User(db, m).skills)
  }

  ghost predicate RecordsAndKeysOk(db: Db) {
    RecordsOk(db) && IndexOk(db, Uuid) && IndexOk(db, Name) && IndexOk(db, Password) && LastOk(db)
  }

  /** The agreement of the indexes with the records. */
  ghost predicate Inv(db: Db) { RecordsAndKeysOk(db) && SkillsOk(db) }

  /** Every entry of a kind is a text. */
  ghost predicate Texts(db: Db, kind: Kind) { forall s :: Key(kind, s) in db ==> db[Key(kind, s)].Text? }

  /** What the operations need to run at all, whether the indexes agree or not. */
  ghost predicate Typed(db: Db) { RecordsOk(db) && Texts(db, Uuid) && Texts(db, SkillIndex) && LastText(db) }

  lemma EntryOf(db: Db, kind: Kind, m: bytes)
    requires IndexOk(db, kind) && IsUser(db, m)
    ensures Holds(db, Key(kind, PartFor(kind, User(db, m))), ValueFor(kind, User(db, m)))
  {
    hide Key, IsUser, User, PartFor, ValueFor, Holds;
  }

  lemma OwnerOf(db: Db, kind: Kind, s: bytes) returns (m: bytes)
    requires IndexOk(db, kind) && Key(kind, s) in db
    ensures IsUser(db, m) && PartFor(kind, User(db, m)) == s
  {
    hide Key, IsUser, User, PartFor, ValueFor, Holds;
    m :| IsUser(db, m) && PartFor(kind, User(db, m)) == s;
  }

  lemma UserFacts(db: Db, m: bytes)
    requires RecordsOk(db) && IsUser(db, m)
    ensures Normal(User(db, m)) && User(db, m).email == m
  {
    hide Key, Normal;
  }

  // ---------- How states differ ----------

  /** Nothing but keys of one kind changes. */
  ghost predicate Only(db: Db, now: Db, kind: Kind) {
    forall key :: KindOf(key) != kind ==> (key in db <==> key in now) && (key in db ==> db[key] == now[key])
  }

  /** The records are the old ones, but for the mail `m`. */
  ghost predicate UsersMove(db: Db, now: Db, m: bytes, p: seq<Person>)
    requires |p| <= 1
  {
    && (forall n :: n != m ==> (IsUser(now, n) <==> IsUser(db, n)) && (IsUser(db, n) ==> User(now, n) == User(db, n)))
    && (IsUser(now, m) <==> p != [])
    && (p != [] ==> User(now, m) == p[0])
  }

  /** Whether `s` is the part of the user's key, before or after a change. */
  predicate IsPart(kind: Kind, p: seq<Person>, s: bytes) { |p| == 1 && PartFor(kind, p[0]) == s }

  /** A key of an index is lost with the old part and gained with the new one. */
  ghost predicate KeyMoves(db: Db, now: Db, kind: Kind, pre: seq<Person>, post: seq<Person>, s: bytes)
    requires |pre| <= 1 && |post| <= 1
  {
    && (Key(kind, s) in now <==> (IsPart(kind, post, s) || (Key(kind, s) in db && !IsPart(kind, pre, s))))
    && (Key(kind, s) in now && !IsPart(kind, post, s) ==> now[Key(kind, s)] == db[Key(kind, s)])
    && (IsPart(kind, post, s) ==> Holds(now, Key(kind, s), ValueFor(kind, post[0])))
  }

  ghost predicate KeysMove(db: Db, now: Db, kind: Kind, pre: seq<Person>, post: seq<Person>)
    requires |pre| <= 1 && |post| <= 1
  {
    forall s :: KeyMoves(db, now, kind, pre, post, s)
  }

  /** An index stays in step with the records, if no other user has the new part. */
  lemma IndexMoves(db: Db, now: Db, kind: Kind, m: bytes, pre: seq<Person>, post: seq<Person>)
    requires |pre| <= 1 && |post| <= 1
    requires IndexOk(db, kind) && UsersMove(db, db, m, pre) && UsersMove(db, now, m, post)
    requires KeysMove(db, now, kind, pre, post)
    requires forall n :: n != m && IsUser(db, n) ==>
               !IsPart(kind, pre, PartFor(kind, User(db, n))) && !IsPart(kind, post, PartFor(kind, User(db, n)))
    ensures IndexOk(now, kind)
  {
    hide Key, PartFor, ValueFor, IsUser, User, IndexOk, KeysMove;
    forall n | IsUser(now, n)
      ensures Holds(now, Key(kind, PartFor(kind, User(now, n))), ValueFor(kind, User(now, n)))
    {
      EntryMoves(db, now, kind, m, pre, post, n);
    }
    forall s | Key(kind, s) in now
      ensures exists n :: IsUser(now, n) && PartFor(kind, User(now, n)) == s
    {
      var n := OwnerMoves(db, now, kind, m, pre, post, s);
    }
    IndexBuilt(now, kind);
  }

  lemma IndexBuilt(db: Db, kind: Kind)
    requires forall m :: IsUser(db, m) ==>
               Holds(db, Key(kind, PartFor(kind, User(db, m))), ValueFor(kind, User(db, m)))
    requires forall s :: Key(kind, s) in db ==> exists m :: IsUser(db, m) && PartFor(kind, User(db, m)) == s
    ensures IndexOk(db, kind)
  {
    hide Key, IsUser, User, PartFor, ValueFor, Holds;
  }

  lemma EntryMoves(db: Db, now: Db, kind: Kind, m: bytes, pre: seq<Person>, post: seq<Person>, n: bytes)
    requires |pre| <= 1 && |post| <= 1
    requires IndexOk(db, kind) && UsersMove(db, now, m, post)
    requires KeysMove(db, now, kind, pre, post)
    requires n != m && IsUser(db, n) ==>
               !IsPart(kind, pre, PartFor(kind, User(db, n))) && !IsPart(kind, post, PartFor(kind, User(db, n)))
    requires IsUser(now, n)
    ensures Holds(now, Key(kind, PartFor(kind, User(now, n))), ValueFor(kind, User(now, n)))
  {
    hide Key, PartFor, ValueFor, IsUser, User, IndexOk;
    if n != m {
      EntryOf(db, kind, n);
      assert KeyMoves(db, now, kind, pre, post, PartFor(kind, User(db, n)));
    } else {
      assert KeyMoves(db, now, kind, pre, post, PartFor(kind, User(now, m)));
    }
  }

  lemma OwnerMoves(db: Db, now: Db, kind: Kind, m: bytes, pre: seq<Person>, post: seq<Person>, s: bytes)
    returns (n: bytes)
    requires |pre| <= 1 && |post| <= 1
    requires IndexOk(db, kind) && UsersMove(db, db, m, pre) && UsersMove(db, now, m, post)
    requires KeysMove(db, now, kind, pre, post)
    requires Key(kind, s) in now
    ensures IsUser(now, n) && PartFor(kind, User(now, n)) == s
  {
    hide Key, PartFor, ValueFor, IsUser, User, IndexOk, KeysMove, UsersMove;
    if IsPart(kind, post, s) {
      n := m;
    } else {
      KeyStayed(db, now, kind, pre, post, s);
      n := OwnerOf(db, kind, s);
      UserMoved(db, db, m, pre, n);
    }
    UserMoved(db, now, m, post, n);
  }

  lemma UserMoved(db: Db, now: Db, m: bytes, p: seq<Person>, n: bytes)
    requires |p| <= 1 && UsersMove(db, now, m, p)
    ensures IsUser(now, m) <==> p != []
    ensures p != [] ==> User(now, m) == p[0]
    ensures n != m && IsUser(db, n) ==> IsUser(now, n) && User(now, n) == User(db, n)
  {
    hide Key, IsUser, User;
  }

  lemma KeyStayed(db: Db, now: Db, kind: Kind, pre: seq<Person>, post: seq<Person>, s: bytes)
    requires |pre| <= 1 && |post| <= 1 && KeysMove(db, now, kind, pre, post)
    requires Key(kind, s) in now && !IsPart(kind, post, s)
    ensures Key(kind, s) in db && !IsPart(kind, pre, s)
  {
    hide Key, IsPart, PartFor, ValueFor;
    assert KeyMoves(db, now, kind, pre, post, s);
  }

  // ---------- The skill lists ----------

  /** saveSkill, on the store. */
  function AddSkill(db: Db, skill: bytes, mail: bytes): Db {
    var key := Key(SkillIndex, skill);
    db[key := Text(if key in db && db[key].Text? then db[key].text + [COMMA] + mail else mail)]
  }

  /** saveSkills */
  function AddSkills(db: Db, skills: seq<bytes>, mail: bytes): Db {
    if skills == [] then db
    else AddSkill(AddSkills(db, skills[..|skills| - 1], mail), skills[|skills| - 1], mail)
  }

  /** deleteUserFromSkill of a listed skill, on the store. */
  function DropSkill(db: Db, skill: bytes, mail: bytes): Db {
    var left := Rejoined(ListOf(db, skill), mail);
    if left == [] then db - {Key(SkillIndex, skill)} else db[Key(SkillIndex, skill) := Text(left)]
  }

  /** deleteUserFromSkill for some skills; false if it threw BadImplementationException, for a skill not listed. */
  function DropListed(db: Db, skills: seq<bytes>, mail: bytes): (Db, bool) {
    if skills == [] then (db, true)
    else
      var (now, ok) := DropListed(db, skills[..|skills| - 1], mail);
      var last := skills[|skills| - 1];
      if ok && Key(SkillIndex, last) in now then (DropSkill(now, last, mail), true) else (now, false)
  }

  lemma AddSkillText(db: Db, skill: bytes, mail: bytes)
    requires TextsOk(db) && mail != [] && CommaFree(mail)
    ensures var now := AddSkill(db, skill, mail);
            && TextsOk(now) && Only(db, now, SkillIndex) && ListOf(now, skill) == ListOf(db, skill) + [mail]
            && forall other :: other != skill ==> ListOf(now, other) == ListOf(db, other)
  {
    hide Key, KindOf, PartOf, IsList, Split;
    var key, now := Key(SkillIndex, skill), AddSkill(db, skill, mail);
    if key in db {
      Appended(db[key].text, mail);
    } else {
      Single(mail);
    }
    forall other | other != skill
      ensures ListOf(now, other) == ListOf(db, other)
    {
      assert Key(SkillIndex, other) != key;
    }
  }

  lemma AddSkillList(db: Db, skill: bytes, mail: bytes)
    requires ListsOk(db) && mail != [] && CommaFree(mail) && mail !in ListOf(db, skill)
    ensures var now := AddSkill(db, skill, mail);
            && ListsOk(now) && Only(db, now, SkillIndex) && ListOf(now, skill) == ListOf(db, skill) + [mail]
            && forall other :: other != skill ==> ListOf(now, other) == ListOf(db, other)
  {
    hide TextsOk, ListOf, AddSkill, Only;
    AddSkillText(db, skill, mail);
    var now := AddSkill(db, skill, mail);
    forall other
      ensures Distinct(ListOf(now, other))
    {
      assert Distinct(ListOf(db, other));
    }
  }

  lemma DropSkillText(db: Db, skill: bytes, mail: bytes)
    requires TextsOk(db)
    ensures var now := DropSkill(db, skill, mail);
            && TextsOk(now) && Only(db, now, SkillIndex) && ListOf(now, skill) == Without(ListOf(db, skill), mail)
            && forall other :: other != skill ==> ListOf(now, other) == ListOf(db, other)
  {
    hide Key, KindOf, PartOf, Split, Join, Without, Rejoined;
    var key, now := Key(SkillIndex, skill), DropSkill(db, skill, mail);
    var items := Without(ListOf(db, skill), mail);
    ItemsOfList(db, skill);
    RejoinedJoins(ListOf(db, skill), mail);
    SplitJoin(items);
    JoinNothing();
    forall other | other != skill
      ensures ListOf(now, other) == ListOf(db, other)
    {
      assert Key(SkillIndex, other) != key;
    }
  }

  lemma JoinNothing()
    ensures Join([]) == []
  {
  }

  lemma ItemsOfList(db: Db, skill: bytes)
    requires TextsOk(db)
    ensures ItemsOk(ListOf(db, skill))
  {
    hide Key, Split;
  }

  /** After saveSkills the mail stands at the end of the lists of its skills, the others are as before. */
  lemma {:induction false} AddSkillsLists(db: Db, skills: seq<bytes>, mail: bytes)
    requires ListsOk(db) && mail != [] && CommaFree(mail) && Distinct(skills)
    requires forall skill <- skills :: mail !in ListOf(db, skill)
    ensures var now := AddSkills(db, skills, mail);
            && ListsOk(now) && Only(db, now, SkillIndex)
            && forall skill :: ListOf(now, skill) == ListOf(db, skill) + (if skill in skills then [mail] else [])
    decreases |skills|
  {
    hide Key, KindOf, ListOf, ListsOk, AddSkill;
    if skills == [] {
      forall skill
        ensures ListOf(db, skill) == ListOf(db, skill) + []
      {
      }
    } else {
      var front, last := skills[..|skills| - 1], skills[|skills| - 1];
      AddSkillsLists(db, front, mail);
      var mid := AddSkills(db, front, mail);
      DistinctLast(skills);
      assert ListOf(mid, last) == ListOf(db, last) + [] == ListOf(db, last);
      AddSkillList(mid, last, mail);
      var now := AddSkill(mid, last, mail);
      forall skill
        ensures ListOf(now, skill) == ListOf(db, skill) + (if skill in skills then [mail] else [])
      {
        LastOrFront(skills, skill);
      }
    }
  }

  lemma ListedKey(db: Db, skill: bytes)
    requires TextsOk(db)
    ensures Key(SkillIndex, skill) in db <==> ListOf(db, skill) != []
  {
    hide Key;
    JoinNothing();
  }

  /** No skill that is named twice is listed for this mail alone. */
  predicate DropsFit(db: Db, skills: seq<bytes>, mail: bytes) {
    forall i, j :: 0 <= i < j < |skills| && skills[i] == skills[j] ==> Without(ListOf(db, skills[i]), mail) != []
  }

  lemma DropsFitLast(db: Db, skills: seq<bytes>, mail: bytes)
    requires skills != []
    ensures var front, last := skills[..|skills| - 1], skills[|skills| - 1];
            DropsFit(db, skills, mail)
            <==> DropsFit(db, front, mail) && (last in front ==> Without(ListOf(db, last), mail) != [])
  {
    hide ListOf, Without;
    var n := |skills| - 1;
    if DropsFit(db, skills[..n], mail) && (skills[n] in skills[..n] ==> Without(ListOf(db, skills[n]), mail) != []) {
      forall i, j | 0 <= i < j < |skills| && skills[i] == skills[j]
        ensures Without(ListOf(db, skills[i]), mail) != []
      {
        assert skills[..n][i] == skills[i];
        if j < n {
          assert skills[..n][j] == skills[j];
        }
      }
    }
    if DropsFit(db, skills, mail) {
      forall i, j | 0 <= i < j < n && skills[..n][i] == skills[..n][j]
        ensures Without(ListOf(db, skills[..n][i]), mail) != []
      {
        assert skills[i] == skills[j];
      }
      if skills[n] in skills[..n] {
        var i :| 0 <= i < n && skills[..n][i] == skills[n];
        assert skills[i] == skills[n];
      }
    }
  }

  /** After deleteUserFromSkill for some listed skills the mail is gone from their lists. It throws exactly when a
      skill is named twice and listed for this mail alone; then the list of one of them is gone. */
  lemma {:induction false} DropListedLists(db: Db, skills: seq<bytes>, mail: bytes)
    requires TextsOk(db) && forall skill <- skills :: ListOf(db, skill) != []
    ensures var (now, ok) := DropListed(db, skills, mail);
            && TextsOk(now)
            && (ok <==> DropsFit(db, skills, mail))
            && (ok ==> forall skill :: ListOf(now, skill) ==
                         if skill in skills then Without(ListOf(db, skill), mail) else ListOf(db, skill))
            && (!ok ==> exists skill :: skill in skills && ListOf(now, skill) == [])
    decreases |skills|
  {
    hide Key, ListOf, TextsOk, DropSkill, Without, DropsFit;
    if skills == [] {
      DropsFitNone(db, mail);
    } else {
      var front, last := skills[..|skills| - 1], skills[|skills| - 1];
      assert forall skill <- front :: skill in skills;
      DropListedLists(db, front, mail);
      DropsFitLast(db, skills, mail);
      var (mid, ok) := DropListed(db, front, mail);
      if !ok {
        var skill :| skill in front && ListOf(mid, skill) == [];
        assert skill in skills;
      } else {
        ListedKey(mid, last);
        assert last in skills;
        if Key(SkillIndex, last) in mid {
          DropSkillText(mid, last, mail);
          DropLast(db, mid, DropSkill(mid, last, mail), skills, mail);
        }
      }
    }
  }

  lemma DropsFitNone(db: Db, mail: bytes)
    ensures DropsFit(db, [], mail)
  {
  }

  lemma DropLast(db: Db, mid: Db, now: Db, skills: seq<bytes>, mail: bytes)
    requires skills != []
    requires forall skill :: ListOf(mid, skill) ==
               if skill in skills[..|skills| - 1] then Without(ListOf(db, skill), mail) else ListOf(db, skill)
    requires ListOf(now, skills[|skills| - 1]) == Without(ListOf(mid, skills[|skills| - 1]), mail)
    requires forall skill :: skill != skills[|skills| - 1] ==> ListOf(now, skill) == ListOf(mid, skill)
    ensures forall skill :: ListOf(now, skill) ==
              if skill in skills then Without(ListOf(db, skill), mail) else ListOf(db, skill)
  {
    hide ListOf, Without;
    forall skill
      ensures ListOf(now, skill) == if skill in skills then Without(ListOf(db, skill), mail) else ListOf(db, skill)
    {
      LastOrFront(skills, skill);
      WithoutTwice(ListOf(db, skill), mail);
    }
  }

  /** Whatever the skills, adding a mail keeps the texts lists and the lists of other skills as they are; lists
      without repetitions stay so only if no skill is named twice. */
  lemma {:induction false} AddSkillsTexts(db: Db, skills: seq<bytes>, mail: bytes)
    requires TextsOk(db) && mail != [] && CommaFree(mail)
    ensures var now := AddSkills(db, skills, mail);
            && TextsOk(now)
            && (forall skill :: if skill in skills then mail in ListOf(now, skill)
                                else ListOf(now, skill) == ListOf(db, skill))
            && ((forall skill :: Distinct(ListOf(now, skill))) ==>
                Distinct(skills) && forall skill :: Distinct(ListOf(db, skill)))
    decreases |skills|
  {
    hide TextsOk, ListOf, AddSkill, Distinct;
    if skills == [] {
      DistinctNone();
    } else {
      var front, last := skills[..|skills| - 1], skills[|skills| - 1];
      AddSkillsTexts(db, front, mail);
      var mid := AddSkills(db, front, mail);
      var now := AddSkill(mid, last, mail);
      AddSkillText(mid, last, mail);
      forall skill
        ensures if skill in skills then mail in ListOf(now, skill) else ListOf(now, skill) == ListOf(db, skill)
      {
        LastOrFront(skills, skill);
      }
      if forall skill :: Distinct(ListOf(now, skill)) {
        DistinctSnoc(ListOf(mid, last), mail);
        forall skill
          ensures Distinct(ListOf(mid, skill))
        {
          assert Distinct(ListOf(now, skill));
        }
        DistinctSnoc(front, last);
        assert front + [last] == skills;
      }
    }
  }

  lemma DistinctNone()
    ensures Distinct<bytes>([])
  {
  }

  lemma DistinctSnoc(items: seq<bytes>, x: bytes)
    ensures Distinct(items + [x]) <==> Distinct(items) && x !in items
  {
    var all := items + [x];
    if Distinct(all) {
      forall i, j | 0 <= i < j < |items|
        ensures items[i] != items[j]
      {
        assert all[i] != all[j];
      }
      forall i | 0 <= i < |items|
        ensures items[i] != x
      {
        assert all[i] != all[|items|];
      }
    }
  }

  lemma DistinctLast(items: seq<bytes>)
    requires items != [] && Distinct(items)
    ensures Distinct(items[..|items| - 1]) && items[|items| - 1] !in items[..|items| - 1]
    ensures items[|items| - 1] in items && forall x <- items[..|items| - 1] :: x in items
  {
  }

  lemma LastOrFront(items: seq<bytes>, x: bytes)
    requires items != []
    ensures x in items <==> x in items[..|items| - 1] || x == items[|items| - 1]
  {
    assert items == items[..|items| - 1] + [items[|items| - 1]];
  }

  // ---------- What each kind of change keeps ----------

  lemma OnlySkillsKeep(db: Db, now: Db)
    requires RecordsAndKeysOk(db) && Only(db, now, SkillIndex)
    ensures RecordsAndKeysOk(now)
    ensures forall m :: (IsUser(now, m) <==> IsUser(db, m)) && (IsUser(db, m) ==> User(now, m) == User(db, m))
  {
    hide Key, KindOf, Normal, Decimal, Number, AllDigits, RecordsOk, IndexOk, LastOk;
    SameUsers(db, now, SkillIndex);
    OnlyKeepsRecords(db, now, SkillIndex);
    OnlyKeepsIndex(db, now, Uuid, SkillIndex);
    OnlyKeepsIndex(db, now, Name, SkillIndex);
    OnlyKeepsIndex(db, now, Password, SkillIndex);
    OnlyKeepsLast(db, now, SkillIndex);
  }

  lemma SameUsers(db: Db, now: Db, kind: Kind)
    requires Only(db, now, kind) && kind != Mail
    ensures forall m :: (IsUser(now, m) <==> IsUser(db, m)) && (IsUser(db, m) ==> User(now, m) == User(db, m))
    ensures forall m :: Key(Mail, m) in now <==> Key(Mail, m) in db
  {
    hide Key, KindOf;
    forall m
      ensures (IsUser(now, m) <==> IsUser(db, m)) && (IsUser(db, m) ==> User(now, m) == User(db, m))
      ensures Key(Mail, m) in now <==> Key(Mail, m) in db
    {
      assert KindOf(Key(Mail, m)) == Mail;
    }
  }

  lemma OnlyKeepsRecords(db: Db, now: Db, kind: Kind)
    requires RecordsOk(db) && Only(db, now, kind) && kind != Mail
    ensures RecordsOk(now)
  {
    hide Key, KindOf, Normal;
    SameUsers(db, now, kind);
  }

  lemma OnlyKeepsIndex(db: Db, now: Db, index: Kind, kind: Kind)
    requires IndexOk(db, index) && Only(db, now, kind) && kind != Mail && kind != index
    ensures IndexOk(now, index)
  {
    hide Key, KindOf, IsUser, User, PartFor, ValueFor, IndexOk, Holds, Only;
    SameUsers(db, now, kind);
    forall m | IsUser(now, m)
      ensures Holds(now, Key(index, PartFor(index, User(now, m))), ValueFor(index, User(now, m)))
    {
      EntryOf(db, index, m);
      OnlyKeepsKey(db, now, index, kind, PartFor(index, User(now, m)), ValueFor(index, User(now, m)));
    }
    forall s | Key(index, s) in now
      ensures exists m :: IsUser(now, m) && PartFor(index, User(now, m)) == s
    {
      OnlyKeepsKey(db, now, index, kind, s, []);
      var m := OwnerOf(db, index, s);
      assert IsUser(now, m);
    }
    IndexBuilt(now, index);
  }

  lemma OnlyKeepsKey(db: Db, now: Db, index: Kind, kind: Kind, s: bytes, text: bytes)
    requires Only(db, now, kind) && kind != index
    ensures Key(index, s) in now <==> Key(index, s) in db
    ensures Holds(now, Key(index, s), text) <==> Holds(db, Key(index, s), text)
  {
    hide Key, KindOf;
    assert KindOf(Key(index, s)) == index;
  }

  lemma OnlyKeepsLast(db: Db, now: Db, kind: Kind)
    requires LastOk(db) && Only(db, now, kind) && kind != Mail && kind != LastId
    ensures LastOk(now) && Last(now) == Last(db)
  {
    hide Key, KindOf, IsUser, User, Decimal, Number, AllDigits;
    SameUsers(db, now, kind);
    assert KindOf(Key(LastId, [])) == LastId;
  }

  /** The lists follow the records through a change of one user's skills. */
  lemma ListsFollow(db: Db, now: Db, m: bytes, pre: seq<Person>, post: seq<Person>)
    requires |pre| <= 1 && |post| <= 1
    requires SkillsOk(db) && UsersMove(db, db, m, pre) && UsersMove(db, now, m, post)
    requires ListsOk(now)
    requires forall skill, n :: n != m ==> (n in ListOf(now, skill) <==> n in ListOf(db, skill))
    requires forall skill :: m in ListOf(now, skill) <==> post != [] && skill in post[0].skills
    ensures SkillsOk(now)
  {
    hide Key, ListOf, ListsOk, IsUser, User;
    forall skill, n
      ensures n in ListOf(now, skill) <==> IsUser(now, n) && skill in User(now, n).skills
    {
      if n != m {
        assert n in ListOf(now, skill) <==> n in ListOf(db, skill);
      }
    }
  }
}
