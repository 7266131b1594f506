/** Manager and PersonManager over the shared store `db`. */
module PersonStore {
  import opened Bytes
  import opened Decimals
  import opened Wrappers
  import opened MailLists
  import opened UserKeys
  import opened UserIndex
  import opened UserOps
  import opened UserUpdates
  import opened UserTyping
  import opened UserRuns
  import opened UserEffects

  /** vector search as the nested loops do it */
  method Contains(items: seq<bytes>, x: bytes) returns (found: bool)
    ensures found <==> x in items
  {
    found := false;
    for i := 0 to |items|
      invariant !found && x !in items[..i]
    {
      if items[i] == x {
        return true;
      }
    }
  }

  class PersonManager {
    var db: Db

    constructor ()
      ensures db == map[] && Inv(db) && Typed(db)
    {
      EmptyInv();
      db := map[];
    }

    // ---------- Manager: one key at a time ----------

    method PutKey(key: bytes, value: Entry)
      modifies this
      ensures db == old(db)[key := value]
    {
      db := db[key := value];
    }

    method DeleteKey(key: bytes)
      modifies this
      ensures db == old(db) - {key}
    {
      db := db - {key};
    }

    /** getUserByMail: a record is read through Person's constructor. */
    method GetUserByMail(mail: bytes) returns (user: Option<Person>)
      requires RecordsOk(db)
      ensures user == if IsUser(db, mail) then Some(User(db, mail)) else None
    {
      hide Normal;
      if Key(Mail, mail) !in db {
        return None;
      }
      var record := db[Key(Mail, mail)].person;
      RecordStable(mail);
      user := Some(FromJson(record));
    }

    lemma RecordStable(mail: bytes)
      requires RecordsOk(db) && IsUser(db, mail)
      ensures FromJson(User(db, mail)) == User(db, mail)
    {
      UserFacts(db, mail);
    }

    /** getUserById */
    method GetUserById(id: int) returns (user: Option<Person>)
      requires Typed(db)
      ensures user == UserById(db, id)
    {
      hide RecordsOk, LastText, Key, IntText;
      if Key(Uuid, IntText(id)) !in db {
        return None;
      }
      user := GetUserByMail(db[Key(Uuid, IntText(id))].text);
    }

    // ---------- Ids ----------

    /** generateID */
    method GenerateID() returns (id: int)
      requires LastText(db)
      modifies this
      ensures db == WithNextId(old(db)) && id == Last(old(db)) + 1
    {
      hide IsUser, User, Key, Decimal, Number;
      var key := Key(LastId, []);
      if key !in db {
        LastOfNone(db);
        PutKey(key, Text(Decimal(1)));
        return 1;
      }
      NumberOfDecimal(Last(db));
      var next := Number(db[key].text) + 1;
      PutKey(key, Text(Decimal(next)));
      id := next;
    }

    static lemma LastOfNone(db: Db)
      requires Key(LastId, []) !in db
      ensures Last(db) == 0
    {
    }

    // ---------- The skill index ----------

    /** saveSkill */
    method SaveSkill(name: bytes, mail: bytes)
      requires Texts(db, SkillIndex) && Lower(name) == name
      modifies this
      ensures db == AddSkill(old(db), name, mail) && Texts(db, SkillIndex)
    {
      hide ListOf, IsList, Key, KindOf, PartOf, Lower;
      AddSkillTyped(db, name, mail);
      var key := Key(SkillIndex, Lower(name));
      var usersMail;
      if key in db {
        usersMail := db[key].text;
        usersMail := usersMail + [COMMA];
        usersMail := usersMail + mail;
      } else {
        usersMail := mail;
      }
      PutKey(key, Text(usersMail));
    }

    /** deleteUserFromSkill: false stands for BadImplementationException. */
    method DeleteUserFromSkill(name: bytes, mail: bytes) returns (ok: bool)
      requires Texts(db, SkillIndex)
      modifies this
      ensures ok <==> Key(SkillIndex, name) in old(db)
      ensures db == if ok then DropSkill(old(db), name, mail) else old(db)
      ensures Texts(db, SkillIndex)
    {
      hide Split, Join, Without, Rejoined, Key;
      var key := Key(SkillIndex, name);
      if key !in db {
        return false;
      }
      DropSkillTyped(db, name, mail);
      var usersMails := SplitText(db[key].text);
      var newUsers := RejoinWithout(usersMails, mail);
      if newUsers == [] {
        DeleteKey(key);
      } else {
        PutKey(key, Text(newUsers));
      }
      ok := true;
    }

    /** saveSkills */
    method SaveSkills(skills: seq<bytes>, mail: bytes)
      requires Texts(db, SkillIndex) && LowerAll(skills) == skills
      modifies this
      ensures db == AddSkills(old(db), skills, mail) && Texts(db, SkillIndex)
    {
      hide AddSkill, Lower, LowerAll, Texts;
      ghost var was := db;
      var i := 0;
      while i < |skills|
        invariant 0 <= i <= |skills| && db == AddSkills(was, skills[..i], mail) && Texts(db, SkillIndex)
      {
        LowerAt(skills, i);
        SaveSkill(skills[i], mail);
        assert skills[..i + 1][..i] == skills[..i];
        i := i + 1;
      }
      assert skills[..|skills|] == skills;
    }

    static lemma LowerAt(skills: seq<bytes>, i: nat)
      requires LowerAll(skills) == skills && i < |skills|
      ensures Lower(skills[i]) == skills[i]
    {
      assert LowerAll(skills)[i] == Lower(skills[i]);
    }

    /** The first loop of updateSkills: skills the old profile has not. */
    method SaveNewSkills(newSkills: seq<bytes>, oldSkills: seq<bytes>, mail: bytes)
      requires Texts(db, SkillIndex) && LowerAll(newSkills) == newSkills
      modifies this
      ensures db == AddSkills(old(db), Others(newSkills, oldSkills), mail) && Texts(db, SkillIndex)
    {
      hide AddSkill, Lower, LowerAll, Texts, Others, AddSkills;
      ghost var was := db;
      var i := 0;
      OthersOfNone(newSkills, oldSkills);
      AddNoSkills(was, mail);
      while i < |newSkills|
        invariant 0 <= i <= |newSkills| && Texts(db, SkillIndex)
        invariant db == AddSkills(was, Others(newSkills[..i], oldSkills), mail)
      {
        LowerAt(newSkills, i);
        var skillExists := Contains(oldSkills, newSkills[i]);
        OthersNext(newSkills, oldSkills, i);
        if !skillExists {
          AddSkillsNext(was, Others(newSkills[..i + 1], oldSkills), mail);
          SaveSkill(newSkills[i], mail);
        }
        i := i + 1;
      }
      assert newSkills[..|newSkills|] == newSkills;
    }

    static lemma OthersOfNone(a: seq<bytes>, b: seq<bytes>)
      ensures a[..0] == [] && Others([], b) == []
    {
    }

    static lemma OthersNext(a: seq<bytes>, b: seq<bytes>, i: nat)
      requires i < |a|
      ensures var now := Others(a[..i + 1], b);
              && (a[i] in b ==> now == Others(a[..i], b))
              && (a[i] !in b ==> now != [] && now[..|now| - 1] == Others(a[..i], b) && now[|now| - 1] == a[i])
    {
      assert a[..i + 1][..i] == a[..i];
    }

    static lemma AddSkillsNext(db: Db, skills: seq<bytes>, mail: bytes)
      requires skills != []
      ensures AddSkills(db, skills, mail)
           == AddSkill(AddSkills(db, skills[..|skills| - 1], mail), skills[|skills| - 1], mail)
    {
      hide AddSkill;
    }

    static lemma DropListedNext(db: Db, skills: seq<bytes>, mail: bytes)
      ensures skills == [] ==> DropListed(db, skills, mail) == (db, true)
      ensures skills != [] ==>
                var (now, ok) := DropListed(db, skills[..|skills| - 1], mail);
                var last := skills[|skills| - 1];
                DropListed(db, skills, mail) ==
                if ok && Key(SkillIndex, last) in now then (DropSkill(now, last, mail), true) else (now, false)
    {
      hide DropSkill, Key;
    }

    static lemma DropListedFails(db: Db, skills: seq<bytes>, k: nat, mail: bytes)
      requires k <= |skills| && !DropListed(db, skills[..k], mail).1
      ensures DropListed(db, skills, mail) == DropListed(db, skills[..k], mail)
      decreases |skills|
    {
      hide DropSkill, Key;
      if k == |skills| {
        assert skills[..k] == skills;
      } else {
        var front := skills[..|skills| - 1];
        assert front[..k] == skills[..k];
        DropListedFails(db, front, k, mail);
        DropListedNext(db, skills, mail);
      }
    }

    /** A skill is given up unless it is among the new ones. */
    static function GivenUp(db: Db, skill: bytes, newSkills: seq<bytes>, mail: bytes): (Db, bool) {
      if skill in newSkills then (db, true)
      else if Key(SkillIndex, skill) in db then (DropSkill(db, skill, mail), true)
      else (db, false)
    }

    method GiveUp(skill: bytes, newSkills: seq<bytes>, mail: bytes) returns (ok: bool)
      requires Texts(db, SkillIndex)
      modifies this
      ensures (db, ok) == GivenUp(old(db), skill, newSkills, mail) && Texts(db, SkillIndex)
    {
      hide DropSkill, Texts, Key;
      ok := true;
      var skillExists := Contains(newSkills, skill);
      if !skillExists {
        ok := DeleteUserFromSkill(skill, mail);
      }
    }

    static lemma DropOthersNext(db: Db, a: seq<bytes>, b: seq<bytes>, i: nat, mail: bytes)
      requires i < |a| && DropListed(db, Others(a[..i], b), mail).1
      ensures var mid := DropListed(db, Others(a[..i], b), mail).0;
              DropListed(db, Others(a[..i + 1], b), mail) == GivenUp(mid, a[i], b, mail)
    {
      hide DropListed, Others, DropSkill, Key;
      OthersNext(a, b, i);
      DropListedNext(db, Others(a[..i + 1], b), mail);
    }

    static lemma DropOthersFails(db: Db, a: seq<bytes>, b: seq<bytes>, k: nat, mail: bytes)
      requires k <= |a| && !DropListed(db, Others(a[..k], b), mail).1
      ensures DropListed(db, Others(a, b), mail) == DropListed(db, Others(a[..k], b), mail)
    {
      hide DropListed, Others;
      var some, all := Others(a[..k], b), Others(a, b);
      OthersStart(a, b, k);
      assert all[..|some|] == some;
      DropListedFails(db, all, |some|, mail);
    }

    /** The second loop of updateSkills: skills given up. */
    method DeleteOldSkills(oldSkills: seq<bytes>, newSkills: seq<bytes>, mail: bytes) returns (ok: bool)
      requires Texts(db, SkillIndex)
      modifies this
      ensures (db, ok) == DropListed(old(db), Others(oldSkills, newSkills), mail)
    {
      hide GivenUp, DropListed, Others, Texts;
      ghost var was := db;
      ok := true;
      var j := 0;
      OthersOfNone(oldSkills, newSkills);
      DropListedNext(was, [], mail);
      while j < |oldSkills|
        invariant 0 <= j <= |oldSkills| && ok && Texts(db, SkillIndex)
        invariant (db, true) == DropListed(was, Others(oldSkills[..j], newSkills), mail)
      {
        DropOthersNext(was, oldSkills, newSkills, j, mail);
        ok := GiveUp(oldSkills[j], newSkills, mail);
        if !ok {
          DropOthersFails(was, oldSkills, newSkills, j + 1, mail);
          return;
        }
        j := j + 1;
      }
      assert oldSkills[..|oldSkills|] == oldSkills;
    }

    /** What is left of a front is the front of what is left. */
    static lemma {:induction false} OthersStart(a: seq<bytes>, b: seq<bytes>, k: nat)
      requires k <= |a|
      ensures Others(a[..k], b) <= Others(a, b)
      decreases |a|
    {
      if k == |a| {
        assert a[..k] == a;
      } else {
        assert a[..|a| - 1][..k] == a[..k];
        OthersStart(a[..|a| - 1], b, k);
      }
    }

    /** The skill loop of deletePerson */
    method DeleteSkills(skills: seq<bytes>, mail: bytes) returns (ok: bool)
      requires Texts(db, SkillIndex)
      modifies this
      ensures (db, ok) == DropListed(old(db), skills, mail)
    {
      hide DropSkill, DropListed, Texts, Key;
      ghost var was := db;
      ok := true;
      var i := 0;
      DropListedNext(was, [], mail);
      assert skills[..0] == [];
      while i < |skills|
        invariant 0 <= i <= |skills| && ok && Texts(db, SkillIndex)
        invariant (db, true) == DropListed(was, skills[..i], mail)
      {
        assert skills[..i + 1][..i] == skills[..i];
        DropListedNext(was, skills[..i + 1], mail);
        ok := DeleteUserFromSkill(skills[i], mail);
        if !ok {
          DropListedFails(was, skills, i + 1, mail);
          return;
        }
        i := i + 1;
      }
      assert skills[..|skills|] == skills;
    }

    // ---------- Users ----------

    method PutIndexKey(kind: Kind, user: Person)
      modifies this
      ensures db == PutIndex(old(db), kind, user)
    {
      PutKey(Key(kind, PartFor(kind, user)), Text(ValueFor(kind, user)));
    }

    method DeleteIndexKey(kind: Kind, user: Person)
      modifies this
      ensures db == DropIndex(old(db), kind, user)
    {
      DeleteKey(Key(kind, PartFor(kind, user)));
    }

    /** What savePerson stores for a new user. */
    method StoreNew(user: Person)
      requires Typed(db) && LowerAll(user.skills) == user.skills
      modifies this
      ensures db == Saved(old(db), user)
    {
      hide RecordsOk, AddSkills, PutIndex, LowerAll, Texts, LastText;
      TextsAfterKeys(db, user);
      PutKey(Key(Mail, user.email), Record(user));
      PutIndexKey(Name, user);
      PutIndexKey(Uuid, user);
      PutIndexKey(Password, user);
      SaveSkills(user.skills, user.email);
    }

    static lemma TextsAfterKeys(db: Db, user: Person)
      requires Typed(db)
      ensures Texts(PutKeys(db, user), SkillIndex)
    {
      hide RecordsOk, PutKeys, KeysMove, UsersMove, AllRecords, Key, Texts, Untouched, LastText;
      RecordsAreUsers(db);
      PutKeysMoves(db, user);
      TextsKept(db, PutKeys(db, user), SkillIndex);
    }

    /** savePerson of a profile without work history, on any store that calls have left. The new user stands under
        the keys as they are spelled, with the request's fields, and nobody else's record changes; if the indexes
        agreed with the records before, they do so exactly when the call fitted. */
    method SavePerson(profile: Person, forceID: int) returns (outcome: Outcome)
      requires Typed(db)
      modifies this
      ensures Typed(db) && (db, outcome) == UserRuns.SavePerson(old(db), profile, forceID)
      ensures var m := FromJson(profile).email;
              if IsUser(old(db), m) then db == old(db) && outcome == AlreadyExists
              else outcome.Done? && UsersMove(old(db), db, m, [NewRecord(profile, outcome.id)])
      ensures outcome.Done? ==>
                var m := Lower(profile.email);
                && IsUser(db, m) && NewUser(profile, outcome.id, User(db, m)) && Stored(db, User(db, m))
                && NextId(old(db), db, forceID, outcome.id)
      ensures Inv(old(db)) ==> (Inv(db) <==> Fits(old(db), Save(profile, forceID)))
    {
      hide Inv, Typed, UsersMove, FromJson, NewRecord, IsUser, User, UserRuns.SavePerson, SaveFits, NewUser, Stored,
           NextId, Lower;
      SavePersonStores(db, profile, forceID);
      SavePersonUsers(db, profile, forceID);
      if Inv(db) {
        CallInv(db, Save(profile, forceID));
      }
      outcome := SavePersonSteps(profile, forceID);
    }

    method SavePersonSteps(profile: Person, forceID: int) returns (outcome: Outcome)
      requires Typed(db)
      modifies this
      ensures (db, outcome) == UserRuns.SavePerson(old(db), profile, forceID)
    {
      hide Typed, Saved, FromJson, NewRecord, IsUser, LowerAll, ChooseId, PartFor, Normal, Key;
      var user := FromJson(profile);
      TypedRecords(db);
      KeyIsUser(user.email);
      if Key(Mail, user.email) in db {
        return AlreadyExists;
      }
      var id := UniqueId(forceID);
      RecordFields(profile, id);
      NewRecordForm(profile, id);
      user := user.(id := id, recommendations := 0);
      StoreNew(user);
      outcome := Done(id);
    }

    method UniqueId(forceID: int) returns (id: int)
      requires Typed(db)
      modifies this
      ensures (db, id) == ChooseId(old(db), forceID) && Typed(db)
    {
      hide Typed, LastText, WithNextId, Last, IsUser, User;
      id := forceID;
      TypedRecords(db);
      NextIdTyped(db);
      if forceID == -1 {
        id := GenerateID();
      }
    }

    lemma KeyIsUser(mail: bytes)
      requires RecordsOk(db)
      ensures Key(Mail, mail) in db <==> IsUser(db, mail)
    {
      hide Normal, Key;
    }

    static lemma NewRecordForm(profile: Person, id: int)
      ensures NewRecord(profile, id) == FromJson(profile).(id := id, recommendations := 0)
    {
    }

    /** updateName */
    method UpdateName(newUser: Person, oldUser: Person)
      modifies this
      ensures db == MoveName(old(db), oldUser, newUser)
    {
      hide FullName;
      if FullName(oldUser) != FullName(newUser) {
        DeleteIndexKey(Name, oldUser);
        PutIndexKey(Name, newUser);
      }
    }

    /** updatePassword, behind the question whether a new one was given */
    method UpdatePassword(newUser: Person, oldUser: Person)
      modifies this
      ensures db == MovePassword(old(db), oldUser, newUser)
    {
      if oldUser.password != newUser.password {
        DeleteIndexKey(Password, oldUser);
        PutIndexKey(Password, newUser);
      }
    }

    /** updateSkills: false stands for BadImplementationException. */
    method UpdateSkills(newUser: Person, oldUser: Person) returns (ok: bool)
      requires Texts(db, SkillIndex) && LowerAll(newUser.skills) == newUser.skills
      modifies this
      ensures (db, ok) == MoveSkills(old(db), oldUser, newUser)
    {
      hide Texts, AddSkills, DropListed, Others, LowerAll;
      SaveNewSkills(newUser.skills, oldUser.skills, newUser.email);
      ok := DeleteOldSkills(oldUser.skills, newUser.skills, newUser.email);
    }

    /** updateUser, on any store that calls have left. The record of the user found is replaced by one with the
        request's fields, the mail, the recommendations and what the request leaves out being the old ones, and nobody
        else's changes; an exception leaves the update half done and no record changed. If the indexes agreed with the
        records before, the new texts stand under the user's keys, and the indexes agree again exactly when the call
        fitted. */
    method UpdateUser(profile: Person) returns (outcome: Outcome)
      requires Typed(db)
      modifies this
      ensures Typed(db) && (db, outcome) == UserRuns.UpdateUser(old(db), profile)
      ensures UserById(old(db), profile.id).None? ==> db == old(db) && outcome == NotFound
      ensures UserById(old(db), profile.id).Some? ==>
                var was := UserById(old(db), profile.id).value;
                && (outcome.Done? ==> UsersMove(old(db), db, was.email, [UpdatedRecord(profile, was)]))
                && (!outcome.Done? ==> outcome.Thrown? && UsersMove(old(db), db, was.email, [was]))
      ensures outcome.Done? ==>
                var was := UserById(old(db), profile.id).value;
                && IsUser(db, was.email) && ChangedUser(profile, was, User(db, was.email))
                && (Inv(old(db)) ==> Stored(db, User(db, was.email)))
      ensures Inv(old(db)) ==> (Inv(db) <==> Fits(old(db), Update(profile)))
    {
      hide SkillsOk, RecordsAndKeysOk, Typed, UsersMove, UpdatedRecord, UserById, IsUser, User, Updated, UpdateFits,
           UserRuns.UpdateUser, ChangedUser, Stored, NameKey;
      if UserById(db, profile.id).Some? {
        UpdateUserStores(db, profile, UserById(db, profile.id).value);
        UpdateUserUsers(db, profile, UserById(db, profile.id).value);
      } else {
        NobodyFound(db, profile, profile.id);
      }
      if Inv(db) {
        CallInv(db, Update(profile));
      }
      outcome := UpdateUserSteps(profile);
    }

    method UpdateUserSteps(profile: Person) returns (outcome: Outcome)
      requires Typed(db)
      modifies this
      ensures (db, outcome) == UserRuns.UpdateUser(old(db), profile)
    {
      hide Typed, Updated, FromJson, CompletedRecord, UserById, IsUser, User, LowerAll, Normal;
      var newUser := FromJson(profile);
      FromJsonId(profile);
      var found := GetUserById(newUser.id);
      if found.None? {
        return NotFound;
      }
      var oldUser := found.value;
      TypedRecords(db);
      FoundById(db, profile.id, oldUser);
      UpdatedFields(profile, oldUser);
      newUser := Completed(newUser, oldUser);
      var ok := StoreUpdate(newUser, oldUser);
      outcome := if ok then Done(newUser.id) else Thrown;
    }

    /** The fields updateUser takes over from the old record. */
    method Completed(profile: Person, oldUser: Person) returns (newUser: Person)
      ensures newUser == CompletedRecord(profile, oldUser)
    {
      newUser := profile.(email := oldUser.email, recommendations := oldUser.recommendations);
      if newUser.password == [] {
        newUser := newUser.(password := oldUser.password);
      }
      if newUser.latitude == 0.0 && newUser.longitude == 0.0 {
        newUser := newUser.(latitude := oldUser.latitude, longitude := oldUser.longitude);
      }
    }

    static lemma FromJsonId(profile: Person)
      ensures FromJson(profile).id == profile.id
    {
    }

    /** The changes updateUser makes; updateName and updateSkills do not look at the fields completed later. */
    method StoreUpdate(newUser: Person, oldUser: Person) returns (ok: bool)
      requires Typed(db) && LowerAll(newUser.skills) == newUser.skills
      modifies this
      ensures (db, ok) == Updated(old(db), oldUser, newUser)
    {
      hide Typed, MoveName, MoveSkills, MovePassword, Texts, LowerAll;
      NameMoved(db, newUser, oldUser);
      UpdateName(newUser, oldUser);
      ok := UpdateSkills(newUser, oldUser);
      if !ok {
        return;
      }
      UpdatePassword(newUser, oldUser);
      PutKey(Key(Mail, newUser.email), Record(newUser));
    }

    static lemma NameMoved(db: Db, newUser: Person, oldUser: Person)
      requires Typed(db)
      ensures Texts(MoveName(db, oldUser, newUser), SkillIndex)
    {
      hide RecordsOk, LastText, MoveName, Texts, Untouched, Only;
      MoveNameOnly(db, oldUser, newUser);
      OnlyLeaves(db, MoveName(db, oldUser, newUser), Name, SkillIndex);
      TextsKept(db, MoveName(db, oldUser, newUser), SkillIndex);
    }

    /** deletePerson, on any store that calls have left: the user found goes with all keys, and nobody else; an
        exception leaves the deletion half done and no record changed. If the indexes agreed with the records before,
        they do so exactly when the call fitted. */
    method DeletePerson(id: int) returns (outcome: Outcome)
      requires Typed(db)
      modifies this
      ensures Typed(db) && (db, outcome) == UserRuns.DeletePerson(old(db), id)
      ensures UserById(old(db), id).None? ==> db == old(db) && outcome == NotFound
      ensures UserById(old(db), id).Some? ==>
                var p := UserById(old(db), id).value;
                && (outcome.Done? ==> UsersMove(old(db), db, p.email, []) && Cleared(db, p))
                && (!outcome.Done? ==> outcome.NotFound? && UsersMove(old(db), db, p.email, [p]))
      ensures Inv(old(db)) ==> (Inv(db) <==> Fits(old(db), Delete(id)))
    {
      hide Inv, Typed, UsersMove, UserById, IsUser, User, Deleted, DropsFit, Fits, Cleared;
      NobodyToDelete(db, id);
      if Inv(db) {
        CallInv(db, Delete(id));
      }
      var found := GetUserById(id);
      if found.None? {
        return NotFound;
      }
      DeletePersonUsers(db, id, found.value);
      DeletePersonClears(db, id, found.value);
      var ok := StoreDelete(found.value);
      outcome := if ok then Done(id) else NotFound;
    }

    static lemma NobodyToDelete(db: Db, id: int)
      ensures UserById(db, id) == None ==> UserRuns.DeletePerson(db, id) == (db, NotFound)
    {
      hide UserById, Deleted;
    }

    method StoreDelete(user: Person) returns (ok: bool)
      requires Typed(db)
      modifies this
      ensures (db, ok) == Deleted(old(db), user)
    {
      hide Typed, DropIndex, DropListed, Texts;
      KeysDropped(db, user);
      DeleteIndexKey(Uuid, user);
      DeleteIndexKey(Name, user);
      DeleteIndexKey(Password, user);
      ok := DeleteSkills(user.skills, user.email);
      if ok {
        DeleteKey(Key(Mail, user.email));
      }
    }

    static lemma KeysDropped(db: Db, user: Person)
      requires Typed(db)
      ensures Texts(DropKeys(db, user), SkillIndex)
    {
      hide RecordsOk, LastText, Texts, Untouched, Only, KeysMove, DropIndex, DropListed, FiveSteps;
      var a := DropIndex(db, Uuid, user);
      var b := DropIndex(a, Name, user);
      var c := DropIndex(b, Password, user);
      DeleteSplits(db, a, b, c, DropListed(c, user.skills, user.email).0, user);
      KeysUntouched(db, a, b, c, DropListed(c, user.skills, user.email).0);
      TextsKept(db, c, SkillIndex);
    }

    static lemma KeysUntouched(db: Db, a: Db, b: Db, c: Db, d: Db)
      requires FiveSteps(db, a, b, c, d, SkillIndex)
      ensures Untouched(db, c, SkillIndex)
    {
      hide Untouched;
    }
  }
}
