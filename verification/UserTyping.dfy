/** Whatever is saved, updated or deleted, records stay records under their own mails and the other entries stay
    texts: the operations can be run on any store that calls have left, whether its indexes agree or not. */
module UserTyping {
  import opened Bytes
  import opened Decimals
  import opened MailLists
  import opened UserKeys
  import opened UserIndex
  import opened UserOps
  import opened UserUpdates

  lemma InvTyped(db: Db)
    requires Inv(db)
    ensures Typed(db)
  {
    hide Key, RecordsOk, IsUser, User, PartFor, ValueFor, ListOf, IsList, Last, Decimal, Normal;
    forall s | Key(Uuid, s) in db
      ensures db[Key(Uuid, s)].Text?
    {
      var m := OwnerOf(db, Uuid, s);
      EntryOf(db, Uuid, m);
    }
  }

  lemma TextsKept(db: Db, now: Db, kind: Kind)
    requires Texts(db, kind) && Untouched(db, now, kind)
    ensures Texts(now, kind)
  {
    hide Key;
  }

  lemma TextsMove(db: Db, now: Db, kind: Kind, pre: seq<Person>, post: seq<Person>)
    requires |pre| <= 1 && |post| <= 1 && Texts(db, kind) && KeysMove(db, now, kind, pre, post)
    ensures Texts(now, kind)
  {
    hide Key, PartFor, ValueFor, IsPart;
    forall s | Key(kind, s) in now
      ensures now[Key(kind, s)].Text?
    {
      assert KeyMoves(db, now, kind, pre, post, s);
    }
  }

  lemma LastKept(db: Db, now: Db)
    requires LastText(db) && Untouched(db, now, LastId)
    ensures LastText(now)
  {
    hide Key, Decimal, Number, AllDigits;
  }

  lemma SkillTextsKept(db: Db, now: Db, skill: bytes, text: bytes)
    requires Texts(db, SkillIndex)
    requires now == db[Key(SkillIndex, skill) := Text(text)] || now == db - {Key(SkillIndex, skill)}
    ensures Texts(now, SkillIndex)
  {
    hide Key;
  }

  lemma AddSkillTyped(db: Db, skill: bytes, mail: bytes)
    requires Texts(db, SkillIndex)
    ensures Texts(AddSkill(db, skill, mail), SkillIndex)
  {
    hide Key, Texts;
    var key := Key(SkillIndex, skill);
    SkillTextsKept(db, AddSkill(db, skill, mail), skill,
                   if key in db && db[key].Text? then db[key].text + [COMMA] + mail else mail);
  }

  lemma DropSkillTyped(db: Db, skill: bytes, mail: bytes)
    requires Texts(db, SkillIndex)
    ensures Texts(DropSkill(db, skill, mail), SkillIndex)
  {
    hide Key, Texts, Rejoined, ListOf;
    SkillTextsKept(db, DropSkill(db, skill, mail), skill, Rejoined(ListOf(db, skill), mail));
  }

  lemma {:induction false} AddSkillsTyped(db: Db, skills: seq<bytes>, mail: bytes)
    requires Texts(db, SkillIndex)
    ensures Texts(AddSkills(db, skills, mail), SkillIndex)
    decreases |skills|
  {
    hide AddSkill, Texts;
    if skills != [] {
      AddSkillsTyped(db, skills[..|skills| - 1], mail);
      AddSkillTyped(AddSkills(db, skills[..|skills| - 1], mail), skills[|skills| - 1], mail);
    }
  }

  lemma {:induction false} DropListedTyped(db: Db, skills: seq<bytes>, mail: bytes)
    requires Texts(db, SkillIndex)
    ensures Texts(DropListed(db, skills, mail).0, SkillIndex)
    decreases |skills|
  {
    hide DropSkill, Texts, Key;
    if skills != [] {
      DropListedTyped(db, skills[..|skills| - 1], mail);
      DropSkillTyped(DropListed(db, skills[..|skills| - 1], mail).0, skills[|skills| - 1], mail);
    }
  }

  lemma NextIdTyped(db: Db)
    requires Typed(db)
    ensures Typed(WithNextId(db))
    ensures forall m :: (IsUser(WithNextId(db), m) <==> IsUser(db, m))
                        && (IsUser(db, m) ==> User(WithNextId(db), m) == User(db, m))
    ensures Untouched(db, WithNextId(db), Name) && Untouched(db, WithNextId(db), Uuid)
  {
    hide Key, KindOf, PartOf, RecordsOk, Decimal, Number, AllDigits, Untouched, IsUser, User, Texts;
    var now := WithNextId(db);
    assert Only(db, now, LastId) by { NextIdOnly(db); }
    SameUsers(db, now, LastId);
    OnlyKeepsRecords(db, now, LastId);
    OnlyLeaves(db, now, LastId, Uuid);
    OnlyLeaves(db, now, LastId, Name);
    OnlyLeaves(db, now, LastId, SkillIndex);
    TextsKept(db, now, Uuid);
    TextsKept(db, now, SkillIndex);
    NumberOfDecimal(Last(db) + 1);
    DecimalDigits(Last(db) + 1);
  }

  lemma NextIdOnly(db: Db)
    ensures Only(db, WithNextId(db), LastId)
  {
    hide Key, KindOf, PartOf, Decimal, Last;
    assert KindOf(Key(LastId, [])) == LastId;
  }

  lemma SavedTyped(db: Db, p: Person)
    requires Typed(db) && Normal(p)
    ensures Typed(Saved(db, p))
  {
    hide RecordsOk, Texts, LastText, PutKeys, AddSkills, Untouched, KeysMove, UsersMove, AllRecords, Only, Normal, Key;
    var mid, now := PutKeys(db, p), Saved(db, p);
    RecordsAreUsers(db);
    PutKeysMoves(db, p);
    AddSkillsOnly(mid, p.skills, p.email);
    RecordsMove(db, mid, p.email, [p]);
    OnlyKeepsRecords(mid, now, SkillIndex);
    assert IsIndex(Uuid);
    TextsMove(db, mid, Uuid, [], [p]);
    OnlyLeaves(mid, now, SkillIndex, Uuid);
    TextsKept(mid, now, Uuid);
    TextsKept(db, mid, SkillIndex);
    AddSkillsTyped(mid, p.skills, p.email);
    OnlyLeaves(mid, now, SkillIndex, LastId);
    LastKept(db, mid);
    LastKept(mid, now);
  }

  lemma MovedTyped(db: Db, d1: Db, was: Person, p: Person)
    requires Typed(db) && d1 == MoveName(db, was, p)
    ensures Typed(MoveSkills(d1, was, p).0)
  {
    hide RecordsOk, Texts, LastText, MoveName, Untouched, Only, AddSkills, DropListed, Others;
    var d2 := MoveSkills(d1, was, p).0;
    MoveNameOnly(db, was, p);
    MoveSkillsOnly(d1, was, p);
    OnlyKeepsRecords(db, d1, Name);
    OnlyKeepsRecords(d1, d2, SkillIndex);
    StepsLeave(db, d1, d2, Uuid);
    TextsKept(db, d2, Uuid);
    StepsLeave(db, d1, d2, LastId);
    LastKept(db, d2);
    OnlyLeaves(db, d1, Name, SkillIndex);
    TextsKept(db, d1, SkillIndex);
    AddSkillsTyped(d1, Others(p.skills, was.skills), p.email);
    DropListedTyped(AddSkills(d1, Others(p.skills, was.skills), p.email), Others(was.skills, p.skills), p.email);
  }

  lemma FinishedTyped(d2: Db, was: Person, p: Person)
    requires Typed(d2) && Normal(p)
    ensures Typed(PutRecord(MovePassword(d2, was, p), p))
  {
    hide RecordsOk, Texts, LastText, MovePassword, PutRecord, Untouched, Only, UsersMove, AllRecords, Normal;
    var d3 := MovePassword(d2, was, p);
    var d4 := PutRecord(d3, p);
    MovePasswordOnly(d2, was, p);
    OnlyKeepsRecords(d2, d3, Password);
    RecordsAreUsers(d3);
    PutRecordStep(d3, p);
    RecordsMove(d3, d4, p.email, [p]);
    TextsThrough(d2, d3, d4, Uuid);
    TextsThrough(d2, d3, d4, SkillIndex);
    OnlyLeaves(d2, d3, Password, LastId);
    OnlyLeaves(d3, d4, Mail, LastId);
    LastKept(d2, d3);
    LastKept(d3, d4);
  }

  lemma TextsThrough(d2: Db, d3: Db, d4: Db, kind: Kind)
    requires Only(d2, d3, Password) && Only(d3, d4, Mail) && kind != Password && kind != Mail && Texts(d2, kind)
    ensures Texts(d4, kind)
  {
    hide Only, Texts, Untouched;
    OnlyLeaves(d2, d3, Password, kind);
    OnlyLeaves(d3, d4, Mail, kind);
    TextsKept(d2, d3, kind);
    TextsKept(d3, d4, kind);
  }

  lemma UpdatedTyped(db: Db, was: Person, p: Person)
    requires Typed(db) && Normal(p)
    ensures Typed(Updated(db, was, p).0)
  {
    hide Typed, MoveName, MoveSkills, MovePassword, PutRecord, Normal;
    MovedTyped(db, MoveName(db, was, p), was, p);
    FinishedTyped(MoveSkills(MoveName(db, was, p), was, p).0, was, p);
  }

  lemma DeletedTyped(db: Db, p: Person)
    requires Typed(db)
    ensures Typed(Deleted(db, p).0)
  {
    hide RecordsOk, Texts, LastText, DropIndex, DropListed, Untouched, Only, KeysMove, AllRecords, Key, FiveSteps,
         UsersMove;
    var a := DropIndex(db, Uuid, p);
    var b := DropIndex(a, Name, p);
    var c := DropIndex(b, Password, p);
    var d := DropListed(c, p.skills, p.email).0;
    DeleteSplits(db, a, b, c, d, p);
    DropsTyped(db, a, b, c, d, p);
    RecordDroppedTyped(d, p.email);
  }

  lemma DropsTyped(db: Db, a: Db, b: Db, c: Db, d: Db, p: Person)
    requires Typed(db) && KeysMove(db, a, Uuid, [p], []) && d == DropListed(c, p.skills, p.email).0
    requires forall kind :: FiveSteps(db, a, b, c, d, kind)
    ensures Typed(d)
  {
    hide RecordsOk, Texts, LastText, DropListed, Untouched, KeysMove, AllRecords;
    assert FiveSteps(db, a, b, c, d, Uuid) && FiveSteps(db, a, b, c, d, LastId) && FiveSteps(db, a, b, c, d, Mail)
        && FiveSteps(db, a, b, c, d, SkillIndex);
    TextsMove(db, a, Uuid, [p], []);
    TextsKept(a, d, Uuid);
    TextsKept(db, c, SkillIndex);
    DropListedTyped(c, p.skills, p.email);
    LastKept(db, d);
    SameRecordsOk(db, d);
  }

  lemma SameRecordsOk(db: Db, now: Db)
    requires RecordsOk(db) && Untouched(db, now, Mail)
    ensures RecordsOk(now)
  {
    hide Key, Normal;
    forall m
      ensures Key(Mail, m) in now <==> Key(Mail, m) in db
      ensures Key(Mail, m) in db ==> now[Key(Mail, m)] == db[Key(Mail, m)]
    {
    }
  }

  lemma RecordDroppedTyped(d: Db, m: bytes)
    requires Typed(d)
    ensures Typed(d - {Key(Mail, m)})
  {
    hide RecordsOk, Texts, LastText, Untouched, Only, AllRecords, Key, UsersMove;
    var e := d - {Key(Mail, m)};
    RecordsAreUsers(d);
    DropRecordStep(d, m);
    RecordsMove(d, e, m, []);
    OnlyLeaves(d, e, Mail, Uuid);
    OnlyLeaves(d, e, Mail, SkillIndex);
    OnlyLeaves(d, e, Mail, LastId);
    TextsKept(d, e, Uuid);
    TextsKept(d, e, SkillIndex);
    LastKept(d, e);
  }
}
