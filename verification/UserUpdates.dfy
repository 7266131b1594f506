/** updateUser and deletePerson: when they throw, and when they keep the agreement of the indexes with the records. */
module UserUpdates {
  import opened Bytes
  import opened Decimals
  import opened MailLists
  import opened UserKeys
  import opened UserIndex
  import opened UserOps

  // ---------- updateUser ----------

  lemma ReplaceIndexStep(db: Db, kind: Kind, was: Person, p: Person)
    ensures var now := PutIndex(DropIndex(db, kind, was), kind, p);
            Only(db, now, kind) && KeysMove(db, now, kind, [was], [p])
  {
    hide Key, KindOf, PartOf, PartFor, ValueFor;
    assert KindOf(Key(kind, PartFor(kind, p))) == kind && KindOf(Key(kind, PartFor(kind, was))) == kind;
    forall s
      ensures PartOf(Key(kind, s)) == s
    {
    }
  }

  lemma SameIndexStep(db: Db, kind: Kind, was: Person, p: Person)
    requires PartFor(kind, was) == PartFor(kind, p)
    requires Holds(db, Key(kind, PartFor(kind, p)), ValueFor(kind, p))
    ensures KeysMove(db, db, kind, [was], [p])
  {
    hide Key, PartFor, ValueFor, Holds;
    forall s
      ensures KeyMoves(db, db, kind, [was], [p], s)
    {
      OldKey(db, kind, was, p, s);
    }
  }

  lemma OldKey(db: Db, kind: Kind, was: Person, p: Person, s: bytes)
    requires PartFor(kind, was) == PartFor(kind, p)
    requires Holds(db, Key(kind, PartFor(kind, p)), ValueFor(kind, p))
    ensures KeyMoves(db, db, kind, [was], [p], s)
  {
    hide Key, PartFor, ValueFor;
  }

  lemma SameParts(kind: Kind, was: Person, p: Person)
    requires was.email == p.email
    requires kind == Uuid ==> was.id == p.id
    requires kind == Name ==> FullName(was) == FullName(p)
    requires kind == Password ==> was.password == p.password
    ensures PartFor(kind, was) == PartFor(kind, p) && ValueFor(kind, was) == ValueFor(kind, p)
  {
    hide FullName, IntText;
  }

  lemma MoveNameStep(db: Db, was: Person, p: Person)
    requires was.email == p.email && Holds(db, Key(Name, PartFor(Name, was)), ValueFor(Name, was))
    ensures var now := MoveName(db, was, p); Only(db, now, Name) && KeysMove(db, now, Name, [was], [p])
  {
    hide Key, PutIndex, DropIndex, Only, KeysMove, PartFor, ValueFor, Holds, FullName;
    if FullName(was) == FullName(p) {
      SameParts(Name, was, p);
      SameIndexStep(db, Name, was, p);
      OnlyItself(db, Name);
    } else {
      ReplaceIndexStep(db, Name, was, p);
    }
  }

  lemma MovePasswordStep(db: Db, was: Person, p: Person)
    requires was.email == p.email && Holds(db, Key(Password, PartFor(Password, was)), ValueFor(Password, was))
    ensures var now := MovePassword(db, was, p); Only(db, now, Password) && KeysMove(db, now, Password, [was], [p])
  {
    hide Key, PutIndex, DropIndex, Only, KeysMove, PartFor, ValueFor, Holds;
    if was.password == p.password {
      SameParts(Password, was, p);
      SameIndexStep(db, Password, was, p);
      OnlyItself(db, Password);
    } else {
      ReplaceIndexStep(db, Password, was, p);
    }
  }

  lemma {:induction false} DropListedOnly(db: Db, skills: seq<bytes>, mail: bytes)
    ensures Only(db, DropListed(db, skills, mail).0, SkillIndex)
    decreases |skills|
  {
    hide DropSkill, Only, Key;
    if skills == [] {
      OnlyItself(db, SkillIndex);
    } else {
      var (mid, ok) := DropListed(db, skills[..|skills| - 1], mail);
      var last := skills[|skills| - 1];
      DropListedOnly(db, skills[..|skills| - 1], mail);
      DropSkillOnly(mid, last, mail);
      OnlyTwice(db, mid, DropSkill(mid, last, mail), SkillIndex);
    }
  }

  lemma MoveSkillsOnly(db: Db, was: Person, p: Person)
    ensures Only(db, MoveSkills(db, was, p).0, SkillIndex)
  {
    hide AddSkills, DropListed, Others, KindOf, Only;
    var mid := AddSkills(db, Others(p.skills, was.skills), p.email);
    AddSkillsOnly(db, Others(p.skills, was.skills), p.email);
    DropListedOnly(mid, Others(was.skills, p.skills), p.email);
    OnlyTwice(db, mid, MoveSkills(db, was, p).0, SkillIndex);
  }

  /** The lists after updateSkills, against the lists before: whether it threw, and if not, whether they are still
      lists without repetitions. */
  lemma MoveSkillsLists(db: Db, was: Person, p: Person)
    requires ListsOk(db) && p.email != [] && CommaFree(p.email)
    requires forall skill :: p.email in ListOf(db, skill) <==> skill in was.skills
    ensures var (now, ok) := MoveSkills(db, was, p);
            && (ok <==> DropsFit(db, Others(was.skills, p.skills), p.email))
            && (!ok ==> exists skill :: skill in was.skills && ListOf(now, skill) == [])
            && (ok ==> (ListsOk(now) <==> Distinct(Others(p.skills, was.skills))))
            && (ok ==> forall skill :: p.email in ListOf(now, skill) <==> skill in p.skills)
            && (ok ==> forall skill, n :: n != p.email && ListsOk(now) ==>
                         (n in ListOf(now, skill) <==> n in ListOf(db, skill)))
  {
    hide AddSkills, DropListed, Others, ListOf, TextsOk, Only, Without, Distinct, DropsFit;
    var added, dropped := Others(p.skills, was.skills), Others(was.skills, p.skills);
    var mid := AddSkills(db, added, p.email);
    AddSkillsTexts(db, added, p.email);
    forall skill | skill in dropped
      ensures ListOf(mid, skill) == ListOf(db, skill) && ListOf(mid, skill) != []
    {
      assert p.email in ListOf(db, skill);
    }
    DropsFitSame(db, mid, dropped, p.email);
    DropListedLists(mid, dropped, p.email);
    var (now, ok) := DropListed(mid, dropped, p.email);
    if !ok {
      var skill :| skill in dropped && ListOf(now, skill) == [];
      assert skill in was.skills;
    } else {
      MovedMembers(db, mid, now, was, p);
      DistinctAfterDrops(db, mid, now, dropped, p.email);
      if Distinct(added) {
        AddSkillsLists(db, added, p.email);
        OtherMembers(db, mid, now, added, dropped, p.email);
      }
    }
  }

  lemma DropsFitSame(db: Db, now: Db, skills: seq<bytes>, mail: bytes)
    requires forall skill <- skills :: ListOf(now, skill) == ListOf(db, skill)
    ensures DropsFit(now, skills, mail) <==> DropsFit(db, skills, mail)
  {
    hide ListOf, Without;
    forall i | 0 <= i < |skills|
      ensures ListOf(now, skills[i]) == ListOf(db, skills[i])
    {
      assert skills[i] in skills;
    }
  }

  ghost predicate AllDistinct(db: Db) { forall skill :: Distinct(ListOf(db, skill)) }

  lemma MovedMembers(db: Db, mid: Db, now: Db, was: Person, p: Person)
    requires forall skill :: p.email in ListOf(db, skill) <==> skill in was.skills
    requires forall skill :: if skill in Others(p.skills, was.skills) then p.email in ListOf(mid, skill)
                             else ListOf(mid, skill) == ListOf(db, skill)
    requires forall skill :: ListOf(now, skill) == if skill in Others(was.skills, p.skills)
                                                   then Without(ListOf(mid, skill), p.email) else ListOf(mid, skill)
    ensures forall skill :: p.email in ListOf(now, skill) <==> skill in p.skills
  {
    hide ListOf, Without, Others;
    forall skill
      ensures p.email in ListOf(now, skill) <==> skill in p.skills
    {
      assert p.email in ListOf(db, skill) <==> skill in was.skills;
    }
  }

  lemma DistinctAfterDrops(db: Db, mid: Db, now: Db, dropped: seq<bytes>, mail: bytes)
    requires AllDistinct(db) && forall skill <- dropped :: ListOf(mid, skill) == ListOf(db, skill)
    requires forall skill :: ListOf(now, skill) ==
               if skill in dropped then Without(ListOf(mid, skill), mail) else ListOf(mid, skill)
    ensures AllDistinct(now) <==> AllDistinct(mid)
  {
    hide ListOf, Without, Distinct;
    forall skill
      ensures Distinct(ListOf(now, skill)) <==> Distinct(ListOf(mid, skill))
    {
      assert Distinct(ListOf(db, skill));
      if skill in dropped {
        WithoutDistinct(ListOf(mid, skill), mail);
      }
    }
  }

  lemma OtherMembers(db: Db, mid: Db, now: Db, added: seq<bytes>, dropped: seq<bytes>, mail: bytes)
    requires forall skill :: ListOf(mid, skill) == ListOf(db, skill) + (if skill in added then [mail] else [])
    requires forall skill :: ListOf(now, skill) ==
               if skill in dropped then Without(ListOf(mid, skill), mail) else ListOf(mid, skill)
    ensures forall skill, n :: n != mail ==> (n in ListOf(now, skill) <==> n in ListOf(db, skill))
  {
    hide ListOf, Without;
    forall skill, n | n != mail
      ensures n in ListOf(now, skill) <==> n in ListOf(db, skill)
    {
      assert n in ListOf(mid, skill) <==> n in ListOf(db, skill);
    }
  }

  /** The four states updateUser goes through. */
  ghost predicate UpdatePath(db: Db, d1: Db, d2: Db, d3: Db, d4: Db, was: Person, p: Person) {
    && d1 == MoveName(db, was, p)
    && d2 == MoveSkills(d1, was, p).0
    && d3 == MovePassword(d2, was, p)
    && d4 == PutRecord(d3, p)
  }

  lemma UpdateSplits(db: Db, d1: Db, d2: Db, d3: Db, d4: Db, was: Person, p: Person)
    requires UpdatePath(db, d1, d2, d3, d4, was, p) && was.email == p.email && AllRecords(db)
    requires Holds(db, Key(Name, PartFor(Name, was)), ValueFor(Name, was))
    requires Holds(db, Key(Password, PartFor(Password, was)), ValueFor(Password, was))
    ensures Only(db, d1, Name) && Only(d1, d2, SkillIndex) && Only(d2, d3, Password) && Only(d3, d4, Mail)
    ensures KeysMove(db, d1, Name, [was], [p]) && KeysMove(d2, d3, Password, [was], [p])
    ensures UsersMove(d3, d4, p.email, [p]) && AllRecords(d4)
  {
    hide KeysMove, UsersMove, AllRecords, Only, Key, MoveName, MoveSkills, MovePassword, PutRecord, Holds, PartFor,
         ValueFor, Untouched;
    MoveNameStep(db, was, p);
    MoveSkillsOnly(d1, was, p);
    StepsLeave(db, d1, d2, Password);
    EntryStays(db, d2, Password, was);
    MovePasswordStep(d2, was, p);
    FirstThreeSteps(db, d1, d2, d3);
    SameRecords(db, d3);
    PutRecordStep(d3, p);
  }

  lemma UpdateMoves(db: Db, d1: Db, d2: Db, d3: Db, d4: Db, was: Person, p: Person, kind: Kind)
    requires Only(db, d1, Name) && Only(d1, d2, SkillIndex) && Only(d2, d3, Password) && Only(d3, d4, Mail)
    requires KeysMove(db, d1, Name, [was], [p]) && KeysMove(d2, d3, Password, [was], [p])
    requires was.email == p.email && was.id == p.id && IsIndex(kind)
    requires Holds(db, Key(Uuid, PartFor(Uuid, was)), ValueFor(Uuid, was))
    ensures KeysMove(db, d4, kind, [was], [p])
  {
    hide KeysMove, Only, Key, Holds, PartFor, ValueFor, Untouched;
    UpdateSteps(db, d1, d2, d3, d4);
    UntouchedItself(db, kind);
    if kind == Name {
      KeysMoveBetween(db, db, d1, d4, Name, [was], [p]);
    } else if kind == Uuid {
      SameParts(Uuid, was, p);
      SameIndexStep(db, Uuid, was, p);
      KeysMoveBetween(db, db, db, d4, Uuid, [was], [p]);
    } else {
      KeysMoveBetween(db, d2, d3, d4, Password, [was], [p]);
    }
  }

  lemma UpdateUsers(db: Db, d1: Db, d2: Db, d3: Db, d4: Db, was: Person, p: Person)
    requires RecordsAndKeysOk(db) && IsUser(db, p.email) && User(db, p.email) == was && p.id == was.id
    requires UpdatePath(db, d1, d2, d3, d4, was, p)
    ensures UsersMove(db, d4, p.email, [p]) && AllRecords(d4) && Untouched(db, d4, LastId)
    ensures Untouched(db, d1, SkillIndex) && Untouched(d2, d4, SkillIndex)
    ensures forall kind :: IsIndex(kind) ==> KeysMove(db, d4, kind, [was], [p])
  {
    hide RecordsOk, IndexOk, LastOk, Normal, Untouched, KeysMove, UsersMove, AllRecords, Only, Key, IsUser, User, Last,
         UpdatePath, Holds, PartFor, ValueFor;
    UserFacts(db, p.email);
    RecordsAreUsers(db);
    EntryOf(db, Name, p.email);
    EntryOf(db, Password, p.email);
    EntryOf(db, Uuid, p.email);
    UpdateSplits(db, d1, d2, d3, d4, was, p);
    UpdateSteps(db, d1, d2, d3, d4);
    FirstThreeSteps(db, d1, d2, d3);
    UntouchedItself(d4, Mail);
    UsersMoveBetween(db, d3, d4, d4, p.email, [p]);
    forall kind | IsIndex(kind)
      ensures KeysMove(db, d4, kind, [was], [p])
    {
      UpdateMoves(db, d1, d2, d3, d4, was, p, kind);
    }
  }

  /** Records and keys agree after updateUser, if it did not throw, exactly when the name key is the old one or free. */
  lemma UpdatedKeys(db: Db, d1: Db, d2: Db, d3: Db, d4: Db, was: Person, p: Person)
    requires RecordsAndKeysOk(db) && IsUser(db, p.email) && User(db, p.email) == was
    requires Normal(p) && p.id == was.id && UpdatePath(db, d1, d2, d3, d4, was, p)
    ensures RecordsAndKeysOk(d4) <==> NameFits(db, was, p)
    ensures UsersMove(db, d4, p.email, [p])
    ensures Untouched(db, d1, SkillIndex) && Untouched(d2, d4, SkillIndex)
  {
    hide RecordsOk, IndexOk, LastOk, Normal, Untouched, KeysMove, UsersMove, AllRecords, IsUser, User, Last, UpdatePath,
         PartFree, Key;
    UpdateUsers(db, d1, d2, d3, d4, was, p);
    UserThere(db, p.email);
    IdKnown(db, p.email, p);
    RecordsAndKeysMove(db, d4, p.email, [was], [p]);
    SameId(was, p);
    KeyFree(db, p.email, Uuid, p);
    KeyFree(db, p.email, Name, p);
  }

  lemma SameId(was: Person, p: Person)
    requires was.id == p.id
    ensures PartFor(Uuid, was) == PartFor(Uuid, p)
  {
    hide IntText;
  }

  lemma UpdatedForm(db: Db, was: Person, p: Person) returns (d1: Db, d2: Db, d3: Db, d4: Db)
    ensures UpdatePath(db, d1, d2, d3, d4, was, p)
    ensures Updated(db, was, p) == if MoveSkills(d1, was, p).1 then (d4, true) else (d2, false)
  {
    hide MoveName, MoveSkills, MovePassword, PutRecord;
    d1 := MoveName(db, was, p);
    d2 := MoveSkills(d1, was, p).0;
    d3 := MovePassword(d2, was, p);
    d4 := PutRecord(d3, p);
  }

  lemma UserThere(db: Db, m: bytes)
    requires IsUser(db, m)
    ensures UsersMove(db, db, m, [User(db, m)])
  {
  }

  lemma IdKnown(db: Db, m: bytes, p: Person)
    requires RecordsAndKeysOk(db) && IsUser(db, m) && p.id == User(db, m).id
    ensures p.id <= Last(db)
  {
    hide RecordsOk, IndexOk, Key, IsUser, User, Last;
  }

  lemma EntryStays(db: Db, now: Db, kind: Kind, p: Person)
    requires Untouched(db, now, kind) && Holds(db, Key(kind, PartFor(kind, p)), ValueFor(kind, p))
    ensures Holds(now, Key(kind, PartFor(kind, p)), ValueFor(kind, p))
  {
    hide Key, PartFor, ValueFor;
  }

  lemma StepsLeave(db: Db, d1: Db, d2: Db, kind: Kind)
    requires Only(db, d1, Name) && Only(d1, d2, SkillIndex) && kind != Name && kind != SkillIndex
    ensures Untouched(db, d2, kind)
  {
    hide Only, Untouched;
    OnlyLeaves(db, d1, Name, kind);
    OnlyLeaves(d1, d2, SkillIndex, kind);
    UntouchedTwice(db, d1, d2, kind);
  }

  lemma FirstThreeSteps(db: Db, d1: Db, d2: Db, d3: Db)
    requires Only(db, d1, Name) && Only(d1, d2, SkillIndex) && Only(d2, d3, Password)
    ensures Untouched(db, d3, Mail)
  {
    hide Only, Untouched;
    StepsLeave(db, d1, d2, Mail);
    OnlyLeaves(d2, d3, Password, Mail);
    UntouchedTwice(db, d2, d3, Mail);
  }

  lemma UpdateSteps(db: Db, d1: Db, d2: Db, d3: Db, d4: Db)
    requires Only(db, d1, Name) && Only(d1, d2, SkillIndex) && Only(d2, d3, Password) && Only(d3, d4, Mail)
    ensures Untouched(d1, d4, Name) && Untouched(db, d4, Uuid)
    ensures Untouched(db, d2, Password) && Untouched(d3, d4, Password)
    ensures Untouched(db, d4, LastId) && Untouched(db, d1, SkillIndex) && Untouched(d2, d4, SkillIndex)
  {
    hide Only, Untouched;
    OnlyLeaves(d1, d2, SkillIndex, Name);
    OnlyLeaves(d2, d3, Password, Name);
    OnlyLeaves(d3, d4, Mail, Name);
    UntouchedTwice(d1, d2, d3, Name);
    UntouchedTwice(d1, d3, d4, Name);
    StepsLeave(db, d1, d2, Uuid);
    OnlyLeaves(d2, d3, Password, Uuid);
    OnlyLeaves(d3, d4, Mail, Uuid);
    UntouchedTwice(db, d2, d3, Uuid);
    UntouchedTwice(db, d3, d4, Uuid);
    StepsLeave(db, d1, d2, Password);
    OnlyLeaves(d3, d4, Mail, Password);
    StepsLeave(db, d1, d2, LastId);
    OnlyLeaves(d2, d3, Password, LastId);
    OnlyLeaves(d3, d4, Mail, LastId);
    UntouchedTwice(db, d2, d3, LastId);
    UntouchedTwice(db, d3, d4, LastId);
    OnlyLeaves(db, d1, Name, SkillIndex);
    OnlyLeaves(d2, d3, Password, SkillIndex);
    OnlyLeaves(d3, d4, Mail, SkillIndex);
    UntouchedTwice(d2, d3, d4, SkillIndex);
  }

  lemma MoveNameOnly(db: Db, was: Person, p: Person)
    ensures Only(db, MoveName(db, was, p), Name)
  {
    hide Key, PutIndex, DropIndex, Only, KeysMove, FullName;
    OnlyItself(db, Name);
    ReplaceIndexStep(db, Name, was, p);
  }

  lemma MovePasswordOnly(db: Db, was: Person, p: Person)
    ensures Only(db, MovePassword(db, was, p), Password)
  {
    hide Key, PutIndex, DropIndex, Only, KeysMove;
    OnlyItself(db, Password);
    ReplaceIndexStep(db, Password, was, p);
  }

  /** Whatever the new profile and the indexes, updateUser changes no other record; half done, it changes none. */
  lemma UpdatedUsers(db: Db, was: Person, p: Person)
    requires RecordsOk(db) && IsUser(db, p.email) && User(db, p.email) == was
    ensures Updated(db, was, p).1 ==> UsersMove(db, Updated(db, was, p).0, p.email, [p])
    ensures !Updated(db, was, p).1 ==> UsersMove(db, Updated(db, was, p).0, p.email, [was])
  {
    hide RecordsOk, IsUser, User, Untouched, UsersMove, Updated, UpdatePath, AllRecords, Only;
    var d1, d2, d3, d4 := UpdatedForm(db, was, p);
    RecordsAreUsers(db);
    PathOnly(db, d1, d2, d3, d4, was, p);
    StepsLeave(db, d1, d2, Mail);
    SameRecords(db, d2);
    UserThere(db, p.email);
    UsersMoveOn(db, db, d2, p.email, [was]);
    FirstThreeSteps(db, d1, d2, d3);
    SameRecords(db, d3);
    UntouchedItself(d4, Mail);
    PutRecordStep(d3, p);
    UsersMoveBetween(db, d3, d4, d4, p.email, [p]);
  }

  lemma PathOnly(db: Db, d1: Db, d2: Db, d3: Db, d4: Db, was: Person, p: Person)
    requires UpdatePath(db, d1, d2, d3, d4, was, p)
    ensures Only(db, d1, Name) && Only(d1, d2, SkillIndex) && Only(d2, d3, Password) && d4 == PutRecord(d3, p)
  {
    hide Only, MoveName, MoveSkills, MovePassword, PutRecord;
    MoveNameOnly(db, was, p);
    MoveSkillsOnly(d1, was, p);
    MovePasswordOnly(d2, was, p);
  }

  /** updateUser throws exactly when a skill given up is
      named twice in the old record and listed for this mail alone. Whatever the new profile, it keeps the agreement
      exactly when it does not throw, the name key is the old one or free, and either no skill is new or the mail can
      be an item of a list and no new skill is named twice. */
  lemma UpdatedInv(db: Db, was: Person, p: Person)
    requires Inv(db) && IsUser(db, p.email) && User(db, p.email) == was && Normal(p) && p.id == was.id
    ensures Updated(db, was, p).1 <==> DropsFit(db, Others(was.skills, p.skills), p.email)
    ensures Inv(Updated(db, was, p).0) <==>
            && DropsFit(db, Others(was.skills, p.skills), p.email)
            && NameFits(db, was, p)
            && SkillsFit(p.email, Others(p.skills, was.skills))
  {
    hide RecordsOk, IndexOk, LastOk, SkillsOk, Normal, IsUser, User, Untouched, UsersMove, Updated, UpdatePath,
         DropsFit, NameFits, SkillsFit, Others, MoveSkills;
    UpdatedUsers(db, was, p);
    var d1, d2, d3, d4 := UpdatedForm(db, was, p);
    UpdatedKeys(db, d1, d2, d3, d4, was, p);
    UpdatedLists(db, d1, d2, d3, d4, was, p);
  }

  lemma UpdatedLists(db: Db, d1: Db, d2: Db, d3: Db, now: Db, was: Person, p: Person)
    requires SkillsOk(db) && IsUser(db, p.email) && User(db, p.email) == was
    requires UpdatePath(db, d1, d2, d3, now, was, p) && UsersMove(db, now, p.email, [p])
    requires Untouched(db, d1, SkillIndex) && Untouched(d2, now, SkillIndex)
    requires !MoveSkills(d1, was, p).1 ==> UsersMove(db, d2, p.email, [was])
    ensures MoveSkills(d1, was, p).1 <==> DropsFit(db, Others(was.skills, p.skills), p.email)
    ensures MoveSkills(d1, was, p).1 ==> (SkillsOk(now) <==> SkillsFit(p.email, Others(p.skills, was.skills)))
    ensures !MoveSkills(d1, was, p).1 ==> !SkillsOk(d2)
  {
    hide IsUser, User, ListOf, TextsOk, Untouched, Key, MoveName, MoveSkills, MovePassword, PutRecord, UsersMove,
         Others, DropsFit, Distinct, ListsOk;
    ListsKept(db, d1);
    ListsKept(d2, now);
    UserMoved(db, now, p.email, [p], p.email);
    if p.email != [] && CommaFree(p.email) {
      DropsFitSame(db, d1, Others(was.skills, p.skills), p.email);
      MoveSkillsLists(d1, was, p);
      if MoveSkills(d1, was, p).1 {
        UpdatedMembers(db, d1, d2, now, was, p);
      } else {
        UserMoved(db, d2, p.email, [was], p.email);
        SkillGone(d2, p.email, was);
      }
    } else {
      if was.skills != [] {
        ListedMail(db, was.skills[0], p.email);
      }
      MoveToNothing(d1, was, p);
      DropsFitNone(db, p.email);
      if p.skills == [] {
        UserThere(db, p.email);
        ListsFollow(db, now, p.email, [was], [p]);
      } else {
        SavedLost(now, p.email, p);
      }
    }
  }

  lemma UpdatedMembers(db: Db, d1: Db, d2: Db, now: Db, was: Person, p: Person)
    requires SkillsOk(db) && IsUser(db, p.email) && User(db, p.email) == was && UsersMove(db, now, p.email, [p])
    requires forall skill :: ListOf(d1, skill) == ListOf(db, skill)
    requires forall skill :: ListOf(now, skill) == ListOf(d2, skill)
    requires ListsOk(now) <==> ListsOk(d2)
    requires ListsOk(d2) <==> Distinct(Others(p.skills, was.skills))
    requires forall skill :: p.email in ListOf(d2, skill) <==> skill in p.skills
    requires forall skill, n :: n != p.email && ListsOk(d2) ==> (n in ListOf(d2, skill) <==> n in ListOf(d1, skill))
    ensures SkillsOk(now) <==> Distinct(Others(p.skills, was.skills))
    ensures Others(p.skills, was.skills) == [] ==> Distinct(Others(p.skills, was.skills))
  {
    hide IsUser, User, ListOf, ListsOk, UsersMove, Others;
    UserThere(db, p.email);
    if ListsOk(now) {
      ListsFollow(db, now, p.email, [was], [p]);
    }
  }

  /** A record with a skill whose list is gone. */
  lemma SkillGone(db: Db, m: bytes, p: Person)
    requires IsUser(db, m) && User(db, m) == p && exists skill :: skill in p.skills && ListOf(db, skill) == []
    ensures !SkillsOk(db)
  {
    hide IsUser, User, ListOf, ListsOk;
    var skill :| skill in p.skills && ListOf(db, skill) == [];
    if SkillsOk(db) {
      ListedMail(db, skill, m);
    }
  }

  lemma MoveToNothing(db: Db, was: Person, p: Person)
    requires was.skills == []
    ensures Others(was.skills, p.skills) == [] && Others(p.skills, was.skills) == p.skills && MoveSkills(db, was, p).1
    ensures p.skills == [] ==> MoveSkills(db, was, p).0 == db
  {
    hide AddSkills;
    AllOthers(p.skills);
    AddNoSkills(db, p.email);
  }

  lemma {:induction false} AllOthers(skills: seq<bytes>)
    ensures Others(skills, []) == skills
  {
    if skills != [] {
      var front, last := skills[..|skills| - 1], skills[|skills| - 1];
      AllOthers(front);
      assert front + [last] == skills;
    }
  }

  // ---------- deletePerson ----------

  /** The states deletePerson goes through before the record is deleted. */
  lemma DeleteSplits(db: Db, a: Db, b: Db, c: Db, d: Db, p: Person)
    requires a == DropIndex(db, Uuid, p) && b == DropIndex(a, Name, p) && c == DropIndex(b, Password, p)
    requires d == DropListed(c, p.skills, p.email).0
    ensures KeysMove(db, a, Uuid, [p], []) && KeysMove(a, b, Name, [p], []) && KeysMove(b, c, Password, [p], [])
    ensures forall kind :: FiveSteps(db, a, b, c, d, kind)
  {
    hide KeysMove, Only, DropIndex, DropListed, FiveSteps;
    DropIndexStep(db, Uuid, p);
    DropIndexStep(a, Name, p);
    DropIndexStep(b, Password, p);
    DropListedOnly(c, p.skills, p.email);
    forall kind
      ensures FiveSteps(db, a, b, c, d, kind)
    {
      FiveStepsLeave(db, a, b, c, d, kind);
    }
  }

  lemma DeleteMoves(db: Db, a: Db, b: Db, c: Db, d: Db, e: Db, p: Person, kind: Kind)
    requires KeysMove(db, a, Uuid, [p], []) && KeysMove(a, b, Name, [p], []) && KeysMove(b, c, Password, [p], [])
    requires FiveSteps(db, a, b, c, d, kind) && Only(d, e, Mail) && IsIndex(kind)
    ensures KeysMove(db, e, kind, [p], [])
  {
    hide KeysMove, Only, Untouched;
    OnlyLeaves(d, e, Mail, kind);
    UntouchedItself(db, kind);
    if kind == Uuid {
      UntouchedTwice(a, d, e, Uuid);
      KeysMoveBetween(db, db, a, e, Uuid, [p], []);
    } else if kind == Name {
      UntouchedTwice(b, d, e, Name);
      KeysMoveBetween(db, a, b, e, Name, [p], []);
    } else {
      UntouchedTwice(c, d, e, Password);
      KeysMoveBetween(db, b, c, e, Password, [p], []);
    }
  }

  /** Records and keys after deletePerson has come to its end. */
  lemma DeletedKeys(db: Db, p: Person)
    requires RecordsAndKeysOk(db) && IsUser(db, p.email) && User(db, p.email) == p
    ensures var now := DropListed(DropKeys(db, p), p.skills, p.email).0 - {Key(Mail, p.email)};
            && RecordsAndKeysOk(now)
            && Untouched(db, DropKeys(db, p), SkillIndex)
            && Untouched(DropListed(DropKeys(db, p), p.skills, p.email).0, now, SkillIndex)
  {
    hide RecordsOk, IndexOk, LastOk, Untouched, KeysMove, UsersMove, AllRecords, Only, Key, IsUser, User, Last,
         DropIndex, DropListed, PartFor, ValueFor, PartFree;
    var m := p.email;
    var a := DropIndex(db, Uuid, p);
    var b := DropIndex(a, Name, p);
    var c := DropIndex(b, Password, p);
    var d := DropListed(c, p.skills, m).0;
    var e := d - {Key(Mail, m)};
    DeletedRecords(db, p);
    DeleteSplits(db, a, b, c, d, p);
    assert FiveSteps(db, a, b, c, d, LastId) && FiveSteps(db, a, b, c, d, SkillIndex);
    RecordsAreUsers(db);
    assert FiveSteps(db, a, b, c, d, Mail);
    SameRecords(db, d);
    DropRecordStep(d, m);
    OnlyLeaves(d, e, Mail, SkillIndex);
    OnlyLeaves(d, e, Mail, LastId);
    UntouchedTwice(db, d, e, LastId);
    forall kind | IsIndex(kind)
      ensures KeysMove(db, e, kind, [p], [])
    {
      assert FiveSteps(db, a, b, c, d, kind);
      DeleteMoves(db, a, b, c, d, e, p, kind);
    }
    UserThere(db, m);
    RecordsAndKeysMove(db, e, m, [p], []);
  }

  lemma DeletedRecords(db: Db, p: Person)
    requires RecordsOk(db) && IsUser(db, p.email) && User(db, p.email) == p
    ensures var d := DropListed(DropKeys(db, p), p.skills, p.email).0;
            && UsersMove(db, d, p.email, [p])
            && UsersMove(db, d - {Key(Mail, p.email)}, p.email, [])
            && AllRecords(d - {Key(Mail, p.email)})
  {
    hide RecordsOk, Untouched, KeysMove, UsersMove, AllRecords, Only, Key, IsUser, User, DropIndex, DropListed;
    var m := p.email;
    var a := DropIndex(db, Uuid, p);
    var b := DropIndex(a, Name, p);
    var c := DropIndex(b, Password, p);
    var d := DropListed(c, p.skills, m).0;
    var e := d - {Key(Mail, m)};
    RecordsAreUsers(db);
    DeleteSplits(db, a, b, c, d, p);
    assert FiveSteps(db, a, b, c, d, Mail);
    SameRecords(db, d);
    UserThere(db, m);
    UsersMoveOn(db, db, d, m, [p]);
    DropRecordStep(d, m);
    UntouchedItself(e, Mail);
    UsersMoveBetween(db, d, e, e, m, []);
  }

  /** What the four steps of deletePerson before the record leave alone. */
  ghost predicate FiveSteps(db: Db, a: Db, b: Db, c: Db, d: Db, kind: Kind) {
    && (kind != Uuid ==> Untouched(db, a, kind))
    && (kind == Uuid ==> Untouched(a, d, kind))
    && (kind == Name ==> Untouched(b, d, kind))
    && (kind == Password ==> Untouched(db, b, kind) && Untouched(c, d, kind))
    && (!IsIndex(kind) ==> Untouched(db, c, kind))
    && (!IsIndex(kind) && kind != SkillIndex ==> Untouched(db, d, kind))
  }

  lemma FiveStepsLeave(db: Db, a: Db, b: Db, c: Db, d: Db, kind: Kind)
    requires Only(db, a, Uuid) && Only(a, b, Name) && Only(b, c, Password) && Only(c, d, SkillIndex)
    ensures FiveSteps(db, a, b, c, d, kind)
  {
    hide Only, Untouched;
    if kind != Uuid { OnlyLeaves(db, a, Uuid, kind); }
    if kind != Name { OnlyLeaves(a, b, Name, kind); }
    if kind != Password { OnlyLeaves(b, c, Password, kind); }
    if kind != SkillIndex { OnlyLeaves(c, d, SkillIndex, kind); }
    if kind == Uuid {
      UntouchedTwice(a, b, c, kind);
      UntouchedTwice(a, c, d, kind);
    } else if kind == Name {
      UntouchedTwice(b, c, d, kind);
    } else {
      UntouchedTwice(db, a, b, kind);
      if kind != Password {
        UntouchedTwice(db, b, c, kind);
        if kind != SkillIndex {
          UntouchedTwice(db, c, d, kind);
        }
      }
    }
  }

  /** Whatever the indexes, deletePerson takes out exactly the one user; half done, it changes no record. */
  lemma DeletedUsers(db: Db, p: Person)
    requires RecordsOk(db) && IsUser(db, p.email) && User(db, p.email) == p
    ensures Deleted(db, p).1 ==> UsersMove(db, Deleted(db, p).0, p.email, [])
    ensures !Deleted(db, p).1 ==> UsersMove(db, Deleted(db, p).0, p.email, [p])
  {
    hide RecordsOk, IsUser, User, UsersMove, DropListed, DropKeys, AllRecords, Key;
    DeletedRecords(db, p);
  }

  /** deletePerson throws exactly when a skill is named twice in the record and listed for this mail alone. It keeps
      the agreement exactly when it does not throw. */
  lemma DeletedInv(db: Db, p: Person)
    requires Inv(db) && IsUser(db, p.email) && User(db, p.email) == p
    ensures Deleted(db, p).1 <==> DropsFit(db, p.skills, p.email)
    ensures Inv(Deleted(db, p).0) <==> DropsFit(db, p.skills, p.email)
  {
    hide RecordsOk, IndexOk, LastOk, SkillsOk, IsUser, User, Untouched, Key, DropKeys, DropListed, Only, UsersMove,
         DropsFit;
    DeletedUsers(db, p);
    DeletedKeys(db, p);
    DeletedLists(db, DropKeys(db, p), Deleted(db, p).0, p);
    var (dropped, ok) := DropListed(DropKeys(db, p), p.skills, p.email);
    if !ok {
      UserMoved(db, dropped, p.email, [p], p.email);
      SkillGone(dropped, p.email, p);
    }
  }

  lemma DeletedLists(db: Db, mid: Db, now: Db, p: Person)
    requires SkillsOk(db) && IsUser(db, p.email) && User(db, p.email) == p && Untouched(db, mid, SkillIndex)
    requires var (dropped, ok) := DropListed(mid, p.skills, p.email);
             ok ==> Untouched(dropped, now, SkillIndex) && UsersMove(db, now, p.email, [])
    ensures var (dropped, ok) := DropListed(mid, p.skills, p.email);
            && (ok <==> DropsFit(db, p.skills, p.email))
            && (ok ==> SkillsOk(now))
            && (!ok ==> exists skill :: skill in p.skills && ListOf(dropped, skill) == [])
  {
    hide IsUser, User, Untouched, Key, DropListed, UsersMove, DropsFit, ListOf, TextsOk, Without, Distinct;
    var (dropped, ok) := DropListed(mid, p.skills, p.email);
    ListsKept(db, mid);
    forall skill | skill in p.skills
      ensures ListOf(mid, skill) != []
    {
      ListedMail(db, skill, p.email);
    }
    DropsFitSame(db, mid, p.skills, p.email);
    DropListedLists(mid, p.skills, p.email);
    if ok {
      DistinctAfterDrops(mid, mid, dropped, p.skills, p.email);
      ListsKept(dropped, now);
      UserThere(db, p.email);
      ListsFollow(db, now, p.email, [p], []);
    }
  }
}
