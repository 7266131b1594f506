/** Failing profiles for each part of the condition under which the indexes agree with the records. */
module UserLimits {
  import opened Bytes
  import opened Decimals
  import opened MailLists
  import opened UserKeys
  import opened UserIndex
  import opened UserOps
  import opened UserUpdates
  import opened UserRuns
  import opened UserTyping

  // ---------- A mail that is empty or has a comma ----------

  lemma {:induction false} ItemsCommaFree(s: bytes)
    ensures forall x <- Split(s) :: CommaFree(x)
    decreases |s|
  {
    if s != [] {
      var x := Item(s, COMMA);
      if |x| < |s| {
        ItemsCommaFree(s[|x| + 1..]);
      }
    }
  }

  /** The text the first user of a skill leaves in its list. */
  lemma FirstListed(p: Person, skill: bytes)
    requires p.skills == [skill]
    ensures UsersMove(map[], Saved(map[], p), p.email, [p])
    ensures ListOf(Saved(map[], p), skill) == Split(p.email)
  {
    hide PutKeys, UsersMove, RecordsOk, KeysMove, Split, Key;
    var none: Db := map[];
    EmptyStore(none);
    SavedUsers(none, p);
    RecordsAreUsers(none);
    PutKeysMoves(none, p);
    OneSkill(PutKeys(none, p), skill, p.email);
  }

  lemma OneSkill(db: Db, skill: bytes, mail: bytes)
    requires Key(SkillIndex, skill) !in db
    ensures ListOf(AddSkills(db, [skill], mail), skill) == Split(mail)
  {
    hide AddSkill, ListOf, Key, Split;
    AddOneSkill(db, skill, mail);
    NewList(db, skill, mail);
  }

  lemma AddOneSkill(db: Db, skill: bytes, mail: bytes)
    ensures AddSkills(db, [skill], mail) == AddSkill(db, skill, mail)
  {
    hide AddSkill;
    assert [skill][..0] == [];
    assert AddSkills(db, [skill][..0], mail) == db;
  }

  lemma NewList(db: Db, skill: bytes, mail: bytes)
    requires Key(SkillIndex, skill) !in db
    ensures ListOf(AddSkill(db, skill, mail), skill) == Split(mail)
  {
    hide Key, Split;
  }

  /** A new user is found under a skill exactly when the mail is neither empty nor has a comma. */
  lemma ListedExactly(p: Person, skill: bytes)
    requires p.skills == [skill]
    ensures p.email in ListOf(Saved(map[], p), skill) <==> p.email != [] && CommaFree(p.email)
  {
    hide Saved, ListOf;
    FirstListed(p, skill);
    ItemsCommaFree(p.email);
    if p.email != [] && CommaFree(p.email) {
      Single(p.email);
    }
  }

  /** The mail "a,b" is listed as two users that do not exist. */
  lemma CommaMail(p: Person, skill: bytes)
    requires p.skills == [skill] && p.email == [97, COMMA, 98]
    ensures var db := Saved(map[], p);
            ListOf(db, skill) == [[97], [98]] && !IsUser(db, [97]) && !IsUser(db, [98]) && !SkillsOk(db)
  {
    hide Saved, ListOf, IsUser, User, SkillsOk, RecordsOk;
    EmptyParts();
    SavedSkills(map[], p);
    FirstListed(p, skill);
    EmptyStore(map[]);
    var a, b: bytes := [97], [98];
    assert ItemsOk([a, b]);
    SplitJoin([a, b]);
    assert Join([a, b]) == p.email by {
      assert [a, b][1..] == [b];
    }
  }

  lemma EmptyParts()
    ensures RecordsOk(map[]) && SkillsOk(map[]) && IndexOk(map[], Name) && forall m :: !IsUser(map[], m)
  {
    hide RecordsOk, IndexOk, LastOk, SkillsOk, IsUser, User;
    EmptyInv();
  }

  /** A user with an empty mail is saved, and what the indexes say about skills is wrong from then on. */
  lemma EmptyMailSaved(p: Person)
    requires Normal(p) && p.id == 1 && p.email == [] && p.skills != []
    ensures Inv(WithNextId(map[])) && !Inv(Saved(WithNextId(map[]), p))
  {
    hide Inv, Normal, Saved, UsersMove, IsUser, User, FreeId, FreeName, WithNextId;
    FirstId(p);
    SavedInv(WithNextId(map[]), p);
  }

  /** The same for a user whose mail is empty and who is given a first skill later. */
  lemma EmptyMailUpdated(was: Person, p: Person)
    requires Normal(was) && was.id == 1 && was.email == [] && was.skills == []
    requires Normal(p) && p.id == 1 && p.email == [] && p.skills != []
    ensures var db := Saved(WithNextId(map[]), was); Inv(db) && !Inv(Updated(db, was, p).0)
  {
    hide Inv, Normal, Saved, IsUser, User, FreeId, FreeName, WithNextId, Updated, Others, NameFits, DropsFit;
    FirstId(was);
    SavedInv(WithNextId(map[]), was);
    UpdatedInv(Saved(WithNextId(map[]), was), was, p);
    AllOthers(p.skills);
  }

  lemma FirstId(p: Person)
    ensures Inv(WithNextId(map[])) && FreeId(WithNextId(map[]), 1) && FreeName(WithNextId(map[]), p)
    ensures forall m :: !IsUser(WithNextId(map[]), m)
  {
    hide Inv, WithNextId, IsUser, User, Last, FreeId, PartFor, Key;
    EmptyInv();
    NothingGiven(map[]);
    NextIdOf(map[], p);
  }

  lemma NothingGiven(db: Db)
    requires db == map[]
    ensures Last(db) == 0 && forall m :: !IsUser(db, m)
  {
    hide Key;
  }

  lemma NextIdOf(db: Db, p: Person)
    requires Inv(db) && Last(db) == 0 && FreeName(db, p) && forall m :: !IsUser(db, m)
    ensures Inv(WithNextId(db)) && FreeId(WithNextId(db), 1) && FreeName(WithNextId(db), p)
    ensures forall m :: !IsUser(WithNextId(db), m)
  {
    hide RecordsOk, IndexOk, LastOk, SkillsOk, WithNextId, IsUser, User, Last, FreeId, FreeName;
    NextIdInv(db);
    NextIdNames(db, p);
  }

  // ---------- A repeated skill ----------

  /** A skill named twice lists the mail twice. */
  lemma RepeatedSkill(p: Person, skill: bytes)
    requires p.skills == [skill, skill] && p.email != [] && CommaFree(p.email)
    ensures ListOf(Saved(map[], p), skill) == [p.email, p.email] && !SkillsOk(Saved(map[], p))
  {
    hide PutKeys, UsersMove, RecordsOk, KeysMove, Split, Key, ListOf, TextsOk, AddSkills, SkillsOk, IsUser, User;
    EmptyParts();
    SavedSkills(map[], p);
    assert !Distinct(p.skills) by { assert p.skills[0] == p.skills[1]; }
    var none: Db := map[];
    EmptyStore(none);
    RecordsAreUsers(none);
    PutKeysMoves(none, p);
    ListsKept(none, PutKeys(none, p));
    TwoSkills(PutKeys(none, p), skill, p.email);
  }

  lemma TwoSkills(db: Db, skill: bytes, mail: bytes)
    requires TextsOk(db) && ListOf(db, skill) == [] && mail != [] && CommaFree(mail)
    ensures ListOf(AddSkills(db, [skill, skill], mail), skill) == [mail, mail]
  {
    hide TextsOk, ListOf, AddSkill;
    assert [skill, skill][..1] == [skill];
    AddOneSkill(db, skill, mail);
    var one := AddSkill(db, skill, mail);
    AddSkillText(db, skill, mail);
    AddSkillText(one, skill, mail);
  }

  /** A user with one skill is updated to name it twice; nothing is wrong with that until the user is deleted: the
      second try to drop the skill throws, and the deletion stays half done. */
  lemma RepeatedSkillThrows(was: Person, p: Person, skill: bytes)
    requires Normal(was) && was.id == 1 && was.email != [] && CommaFree(was.email) && was.skills == [skill]
    requires p == was.(skills := [skill, skill]) && Normal(p)
    ensures var mid := Updated(Saved(WithNextId(map[]), was), was, p).0;
            Inv(mid) && !Deleted(mid, p).1 && !Inv(Deleted(mid, p).0)
  {
    hide Inv, Normal, Saved, IsUser, User, FreeId, FreeName, WithNextId, Updated, Deleted, Others, DropsFit, UsersMove;
    var db := Saved(WithNextId(map[]), was);
    FirstId(was);
    SavedInv(WithNextId(map[]), was);
    UserMoved(WithNextId(map[]), db, was.email, [was], was.email);
    NothingNew(was, p, skill);
    DropsFitNone(db, p.email);
    SameName(was, p);
    UpdatedInv(db, was, p);
    OnlyUser(WithNextId(map[]), db, was, p);
    var mid := Updated(db, was, p).0;
    AloneListed(mid, p, skill);
    DeletedInv(mid, p);
  }

  lemma SameName(was: Person, p: Person)
    requires p == was.(skills := p.skills)
    ensures forall db :: NameFits(db, was, p)
  {
  }

  lemma NothingNew(was: Person, p: Person, skill: bytes)
    requires was.skills == [skill] && p.skills == [skill, skill]
    ensures Others(p.skills, was.skills) == [] && Others(was.skills, p.skills) == []
  {
    assert p.skills[..1] == [skill] && p.skills[..1][..0] == [] && was.skills[..0] == [];
    assert Others(p.skills[..1], was.skills) == [];
  }

  lemma OnlyUser(none: Db, db: Db, was: Person, p: Person)
    requires Inv(db) && UsersMove(none, db, was.email, [was]) && was.email == p.email
    requires forall m :: !IsUser(none, m)
    requires Updated(db, was, p).1
    ensures var mid := Updated(db, was, p).0;
            IsUser(mid, p.email) && User(mid, p.email) == p && forall m :: IsUser(mid, m) ==> m == p.email
  {
    hide RecordsOk, IndexOk, LastOk, SkillsOk, IsUser, User, Updated;
    UpdatedUsers(db, was, p);
  }

  lemma AloneListed(db: Db, p: Person, skill: bytes)
    requires Inv(db) && IsUser(db, p.email) && User(db, p.email) == p && p.skills == [skill, skill]
    requires forall m :: IsUser(db, m) ==> m == p.email
    ensures !DropsFit(db, p.skills, p.email)
  {
    hide RecordsOk, IndexOk, LastOk, SkillsOk, IsUser, User, ListOf, Without;
    forall x | x in ListOf(db, skill)
      ensures x == p.email
    {
      ListedUser(db, skill, x);
    }
    NoOthers(ListOf(db, skill), p.email);
    assert p.skills[0] == p.skills[1] == skill;
  }

  lemma ListedUser(db: Db, skill: bytes, m: bytes)
    requires SkillsOk(db) && m in ListOf(db, skill)
    ensures IsUser(db, m)
  {
    hide IsUser, User, ListOf, ListsOk;
  }

  lemma {:induction false} NoOthers(items: seq<bytes>, mail: bytes)
    requires forall x :: x in items ==> x == mail
    ensures Without(items, mail) == []
  {
    if items != [] {
      assert items[0] in items && forall x :: x in items[1..] ==> x in items;
      NoOthers(items[1..], mail);
    }
  }

  // ---------- An id in use ----------

  /** A second user is saved under the id of the first. */
  lemma SharedId(p: Person, q: Person)
    requires Normal(p) && p.id == 1 && p.skills == []
    requires Normal(q) && q.id == 1 && q.email != p.email
    ensures var db := Saved(WithNextId(map[]), p); Inv(db) && !IsUser(db, q.email) && !Inv(Saved(db, q))
  {
    hide Inv, Normal, Saved, IsUser, User, FreeName, WithNextId, UsersMove, Last, IntText, Key;
    FirstId(p);
    SavedInv(WithNextId(map[]), p);
    var db := Saved(WithNextId(map[]), p);
    OtherNot(WithNextId(map[]), db, p, q.email);
    IdTaken(db, p);
    SavedInv(db, q);
  }

  lemma OtherNot(none: Db, db: Db, p: Person, m: bytes)
    requires UsersMove(none, db, p.email, [p]) && m != p.email && forall n :: !IsUser(none, n)
    ensures !IsUser(db, m) && IsUser(db, p.email) && User(db, p.email) == p
  {
    hide IsUser, User;
  }

  lemma IdTaken(db: Db, p: Person)
    requires Inv(db) && IsUser(db, p.email) && User(db, p.email) == p
    ensures Key(Uuid, IntText(p.id)) in db
  {
    hide RecordsOk, IndexOk, LastOk, SkillsOk, IsUser, User, Key, IntText;
    EntryOf(db, Uuid, p.email);
  }

  // ---------- An underscore in a name ----------

  /** The user "a-b" with the mail "c_m" and "a-b_c" with the mail "m" share a name key: when the second is saved the
      name index no longer agrees with the records. */
  lemma SharedNameKey(p: Person, q: Person)
    requires p.firstName == [97] && p.lastName == [98] && p.email == [99, UNDERSCORE, 109] && Normal(p)
    requires q.firstName == [97] && q.lastName == [98, UNDERSCORE, 99] && q.email == [109] && Normal(q)
    ensures IndexOk(Saved(map[], p), Name) && !IndexOk(Saved(Saved(map[], p), q), Name)
  {
    hide Key, RecordsOk, IndexOk, SkillsOk, Normal, Saved, IsUser, User, UsersMove, PartFor, ValueFor;
    EmptyParts();
    SavedNames(map[], p);
    var db := Saved(map[], p);
    SavedUsers(map[], p);
    UserMoved(map[], db, p.email, [p], p.email);
    OneSaved(db, p, q);
    SamePart(p, q);
    EntryOf(db, Name, p.email);
    SavedNames(db, q);
  }

  lemma OneSaved(db: Db, p: Person, q: Person)
    requires db == Saved(map[], p) && Normal(p) && q.email != p.email
    ensures RecordsOk(db) && !IsUser(db, q.email)
  {
    hide RecordsOk, Normal, Saved, IsUser, User, Typed, IndexOk, SkillsOk;
    EmptyInv();
    EmptyParts();
    SavedUsers(map[], p);
    SavedTyped(map[], p);
    TypedRecords(db);
  }

  lemma SamePart(p: Person, q: Person)
    requires p.firstName == [97] && p.lastName == [98] && p.email == [99, UNDERSCORE, 109]
    requires q.firstName == [97] && q.lastName == [98, UNDERSCORE, 99] && q.email == [109]
    ensures PartFor(Name, p) == PartFor(Name, q)
  {
    assert PartFor(Name, p) == [97, DASH, 98, UNDERSCORE, 99, UNDERSCORE, 109];
    assert PartFor(Name, q) == [97, DASH, 98, UNDERSCORE, 99, UNDERSCORE, 109];
  }
}
