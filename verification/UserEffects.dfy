/** What savePerson, updateUser and deletePerson leave in the store, said by the fields of the request and the texts
    under the keys as they are spelled. */
module UserEffects {
  import opened Bytes
  import opened Decimals
  import opened Wrappers
  import opened MailLists
  import opened UserKeys
  import opened UserIndex
  import opened UserOps
  import opened UserUpdates
  import opened UserTyping
  import opened UserRuns

  // ---------- Small letters ----------

  /** `t` is `s` with its letters made small. */
  predicate Lowered(s: bytes, t: bytes) { SameLetters(s, t) && forall i :: 0 <= i < |t| ==> !(65 <= t[i] <= 90) }

  /** There is one such text, and Lower gives it. */
  lemma LowerIs(s: bytes, t: bytes)
    ensures Lowered(s, t) <==> t == Lower(s)
  {
    if Lowered(s, t) {
      forall i | 0 <= i < |s|
        ensures t[i] == Lower(s)[i]
      {
        assert SameLetter(s[i], t[i]);
      }
    }
  }

  /** Texts that differ in the case of letters only have the same one. */
  lemma LowerSame(s: bytes, t: bytes)
    ensures SameLetters(s, t) <==> Lower(s) == Lower(t)
  {
    if SameLetters(s, t) {
      forall i | 0 <= i < |s|
        ensures Lower(s)[i] == Lower(t)[i]
      {
        assert SameLetter(s[i], t[i]);
      }
      assert Lower(s) == Lower(t);
    } else if Lower(s) == Lower(t) {
      forall i | 0 <= i < |s|
        ensures SameLetter(s[i], t[i])
      {
        assert Lower(s)[i] == Lower(t)[i];
      }
    }
  }

  predicate LoweredAll(items: seq<bytes>, now: seq<bytes>) {
    |items| == |now| && forall i :: 0 <= i < |items| ==> Lowered(items[i], now[i])
  }

  // ---------- Records ----------

  /** The fields of `p` that are the request's: names, city and skills in small letters, the other texts as given. */
  predicate AsRequested(profile: Person, p: Person) {
    && Lowered(profile.firstName, p.firstName) && Lowered(profile.lastName, p.lastName)
    && Lowered(profile.city, p.city) && LoweredAll(profile.skills, p.skills) && p.other == profile.other
  }

  /** A user saved for a request: with a small mail, and with no recommendation yet. */
  predicate NewUser(profile: Person, id: int, p: Person) {
    && AsRequested(profile, p) && Lowered(profile.email, p.email)
    && p.id == id && p.recommendations == 0
    && p.password == profile.password
    && p.latitude == profile.latitude && p.longitude == profile.longitude
  }

  /** A user changed by a request: the mail and the recommendations stay, a password that is left out stays, and so
      does the position when both coordinates are left out. */
  predicate ChangedUser(profile: Person, was: Person, p: Person) {
    && AsRequested(profile, p) && p.email == was.email
    && p.id == profile.id && p.recommendations == was.recommendations
    && p.password == (if profile.password == [] then was.password else profile.password)
    && (if profile.latitude == 0.0 && profile.longitude == 0.0
        then p.latitude == was.latitude && p.longitude == was.longitude
        else p.latitude == profile.latitude && p.longitude == profile.longitude)
  }

  lemma FromJsonFields(profile: Person)
    ensures AsRequested(profile, FromJson(profile)) && Lowered(profile.email, FromJson(profile).email)
  {
    hide Lowered, Lower;
    LowerIs(profile.firstName, Lower(profile.firstName));
    LowerIs(profile.lastName, Lower(profile.lastName));
    LowerIs(profile.city, Lower(profile.city));
    LowerIs(profile.email, Lower(profile.email));
    forall i | 0 <= i < |profile.skills|
      ensures Lowered(profile.skills[i], Lower(profile.skills[i]))
    {
      LowerIs(profile.skills[i], Lower(profile.skills[i]));
    }
  }

  lemma NewFields(profile: Person, id: int)
    ensures NewUser(profile, id, NewRecord(profile, id))
  {
    hide Lowered, Lower, LoweredAll, LowerAll;
    FromJsonFields(profile);
  }

  lemma ChangedFields(profile: Person, was: Person)
    ensures ChangedUser(profile, was, UpdatedRecord(profile, was))
  {
    hide Lowered, Lower, LoweredAll, LowerAll;
    FromJsonFields(profile);
  }

  // ---------- Keys ----------

  /** The keys under which a user is found. */
  function MailKey(p: Person): bytes { Lit("user:mail_") + p.email }

  function IdKey(p: Person): bytes { Lit("user:uuid_") + IntText(p.id) }

  function PasswordKey(p: Person): bytes { Lit("user:password_") + p.email }

  function NameKey(p: Person): bytes {
    Lit("user:name_") + (p.firstName + (Lit("-") + (p.lastName + (Lit("_") + p.email))))
  }

  lemma KeyForms(p: Person)
    ensures MailKey(p) == Key(Mail, p.email)
    ensures IdKey(p) == Key(Uuid, PartFor(Uuid, p))
    ensures PasswordKey(p) == Key(Password, PartFor(Password, p))
    ensures NameKey(p) == Key(Name, PartFor(Name, p))
  {
    hide Lit, IntText;
    assert Lit("-") == [DASH] && Lit("_") == [UNDERSCORE];
    ConcatAssoc(p.firstName + [DASH] + p.lastName, [UNDERSCORE], p.email);
    ConcatAssoc(p.firstName + [DASH], p.lastName, [UNDERSCORE] + p.email);
    ConcatAssoc(p.firstName, [DASH], p.lastName + ([UNDERSCORE] + p.email));
  }

  /** The record of a user and the three texts that lead to it. */
  ghost predicate Stored(db: Db, p: Person) {
    && MailKey(p) in db && db[MailKey(p)] == Record(p)
    && Holds(db, IdKey(p), p.email) && Holds(db, NameKey(p), p.email) && Holds(db, PasswordKey(p), p.password)
  }

  lemma RecordThere(db: Db, p: Person)
    ensures IsUser(db, p.email) && User(db, p.email) == p ==> MailKey(p) in db && db[MailKey(p)] == Record(p)
  {
    hide Key, KindOf, PartOf, MailKey, IdKey, PasswordKey, NameKey, PartFor;
    KeyForms(p);
  }

  ghost predicate Indexed(db: Db, p: Person) {
    forall kind :: IsIndex(kind) ==> Holds(db, Key(kind, PartFor(kind, p)), ValueFor(kind, p))
  }

  lemma IndexedEntry(db: Db, p: Person, kind: Kind)
    requires Indexed(db, p) && IsIndex(kind)
    ensures Holds(db, Key(kind, PartFor(kind, p)), ValueFor(kind, p))
  {
    hide Key, PartFor, ValueFor, Holds;
  }

  lemma StoredBuilt(db: Db, p: Person)
    requires IsUser(db, p.email) && User(db, p.email) == p && Indexed(db, p)
    ensures Stored(db, p)
  {
    hide Key, KindOf, PartOf, PartFor, MailKey, IdKey, PasswordKey, NameKey, Holds, IsUser, User, Indexed;
    KeyForms(p);
    RecordThere(db, p);
    IndexedEntry(db, p, Uuid);
    IndexedEntry(db, p, Name);
    IndexedEntry(db, p, Password);
  }

  lemma MovedEntry(db: Db, now: Db, kind: Kind, pre: seq<Person>, post: seq<Person>, s: bytes)
    requires |pre| <= 1 && |post| <= 1 && KeysMove(db, now, kind, pre, post)
    ensures IsPart(kind, post, s) ==> Holds(now, Key(kind, s), ValueFor(kind, post[0]))
    ensures IsPart(kind, pre, s) && !IsPart(kind, post, s) ==> Key(kind, s) !in now
  {
    hide Key, PartFor, ValueFor;
    assert KeyMoves(db, now, kind, pre, post, s);
  }

  /** No key that this user has. */
  ghost predicate Cleared(db: Db, p: Person) {
    MailKey(p) !in db && IdKey(p) !in db && NameKey(p) !in db && PasswordKey(p) !in db
  }

  // ---------- Calls ----------

  /** A new user: the id is the forced one, or the next number after the text under lastID, which becomes the id. */
  predicate NextId(db: Db, now: Db, forceID: int, id: int) {
    if forceID != -1 then id == forceID
    else
      && Holds(now, Lit("lastID"), IntText(id))
      && (Lit("lastID") !in db ==> id == 1)
      && (Lit("lastID") in db ==> db[Lit("lastID")] == Text(IntText(id - 1)))
  }

  lemma NextIdForm(db: Db, now: Db)
    requires LastText(db) && Untouched(WithNextId(db), now, LastId)
    ensures NextId(db, now, -1, Last(db) + 1)
  {
    hide Decimal, Number, Untouched, AllDigits;
    var key := Key(LastId, []);
    assert Lit("lastID") == key by { hide Lit; assert Prefix(LastId) + [] == Prefix(LastId); }
    hide Lit, Key;
    SameKey(WithNextId(db), now, LastId, []);
  }

  /** savePerson, on any store that calls have left. */
  lemma SavePersonStores(db: Db, profile: Person, forceID: int)
    requires Typed(db)
    ensures var (now, outcome) := SavePerson(db, profile, forceID);
            outcome.Done? ==>
              var m := Lower(profile.email);
              && IsUser(now, m) && NewUser(profile, outcome.id, User(now, m)) && Stored(now, User(now, m))
              && NextId(db, now, forceID, outcome.id)
  {
    hide Typed, IsUser, User, Saved, NewRecord, WithNextId, Last, Lower, LowerAll, Stored, NextId, NewUser, FromJson;
    var (now, outcome) := SavePerson(db, profile, forceID);
    if outcome.Done? {
      var (chosen, id) := ChooseId(db, forceID);
      var p := NewRecord(profile, id);
      NewFields(profile, id);
      RecordFields(profile, id);
      FromJsonMail(profile);
      TypedRecords(db);
      NextIdTyped(db);
      SavedStores(chosen, p);
      if forceID == -1 {
        NextIdForm(db, now);
      } else {
        assert NextId(db, now, forceID, id) by { ForcedId(db, now, forceID); }
      }
    }
  }

  lemma ForcedId(db: Db, now: Db, forceID: int)
    requires forceID != -1
    ensures NextId(db, now, forceID, forceID)
  {
  }

  lemma FromJsonMail(profile: Person)
    ensures FromJson(profile).email == Lower(profile.email)
  {
  }

  lemma SavedStores(db: Db, p: Person)
    requires Typed(db)
    ensures var now := Saved(db, p);
            && IsUser(now, p.email) && User(now, p.email) == p && Stored(now, p) && Untouched(db, now, LastId)
  {
    hide Typed, IsUser, User, PutKeys, AddSkills, Stored, Untouched, KeysMove, UsersMove, AllRecords, Only, Holds, Key,
         PartFor, ValueFor;
    var mid, now := PutKeys(db, p), Saved(db, p);
    TypedRecords(db);
    RecordsAreUsers(db);
    PutKeysMoves(db, p);
    SavedUsers(db, p);
    UserMoved(db, now, p.email, [p], p.email);
    AddSkillsOnly(mid, p.skills, p.email);
    OnlyLeaves(mid, now, SkillIndex, LastId);
    UntouchedTwice(db, mid, now, LastId);
    forall kind | IsIndex(kind)
      ensures Holds(now, Key(kind, PartFor(kind, p)), ValueFor(kind, p))
    {
      MovedEntry(db, mid, kind, [], [p], PartFor(kind, p));
      OnlyLeaves(mid, now, SkillIndex, kind);
      EntryStays(mid, now, kind, p);
    }
    StoredBuilt(now, p);
  }

  /** updateUser, on any store that calls have left: the record. If records and keys agreed, its texts too; a name
      key that is not the old one any more is gone. */
  lemma UpdateUserStores(db: Db, profile: Person, was: Person)
    requires Typed(db) && UserById(db, profile.id) == Some(was)
    ensures var (now, outcome) := UpdateUser(db, profile);
            outcome.Done? ==>
              && IsUser(now, was.email) && ChangedUser(profile, was, User(now, was.email))
              && (RecordsAndKeysOk(db) ==>
                    && Stored(now, User(now, was.email))
                    && (NameKey(was) != NameKey(User(now, was.email)) ==> NameKey(was) !in now))
  {
    hide Typed, IsUser, User, UsersMove, Updated, UpdatedRecord, UserById, ChangedUser, Stored, NameKey, KeysMove,
         RecordsAndKeysOk;
    var (now, outcome) := UpdateUser(db, profile);
    if outcome.Done? {
      var p := UpdatedRecord(profile, was);
      UpdateUserUsers(db, profile, was);
      UserMoved(db, now, was.email, [p], was.email);
      ChangedFields(profile, was);
      if RecordsAndKeysOk(db) {
        UpdatedStores(db, profile, was);
      }
    }
  }

  lemma UpdatedStores(db: Db, profile: Person, was: Person)
    requires Typed(db) && UserById(db, profile.id) == Some(was) && RecordsAndKeysOk(db)
    requires UpdateUser(db, profile).1.Done?
    ensures var now, p := UpdateUser(db, profile).0, UpdatedRecord(profile, was);
            Stored(now, p) && (NameKey(was) != NameKey(p) ==> NameKey(was) !in now)
  {
    hide Typed, IsUser, User, UsersMove, Updated, UpdatedRecord, UserById, Stored, NameKey, KeysMove, MailKey, IdKey,
         PasswordKey, RecordsAndKeysOk, UpdatePath, AllRecords, Untouched, Normal, LowerAll, Key, PartFor, Indexed;
    var now, p := UpdateUser(db, profile).0, UpdatedRecord(profile, was);
    TypedRecords(db);
    FoundById(db, profile.id, was);
    IdFound(db, profile.id, was);
    UpdatedFields(profile, was);
    var d1, d2, d3, d4 := UpdatedForm(db, was, p);
    UpdateUsers(db, d1, d2, d3, d4, was, p);
    UserMoved(db, now, p.email, [p], p.email);
    IndexMoved(db, now, was, p);
    StoredBuilt(now, p);
    MovedName(db, now, was, p);
  }

  lemma IdFound(db: Db, id: int, p: Person)
    requires RecordsAndKeysOk(db) && UserById(db, id) == Some(p)
    ensures p.id == id
  {
    hide RecordsAndKeysOk, UserById;
    UserByIdFinds(db, id);
  }

  lemma IndexMoved(db: Db, now: Db, was: Person, p: Person)
    requires forall kind :: IsIndex(kind) ==> KeysMove(db, now, kind, [was], [p])
    ensures Indexed(now, p)
  {
    hide KeysMove, Key, PartFor, ValueFor, Holds;
    forall kind | IsIndex(kind)
      ensures Holds(now, Key(kind, PartFor(kind, p)), ValueFor(kind, p))
    {
      MovedEntry(db, now, kind, [was], [p], PartFor(kind, p));
    }
  }

  lemma MovedName(db: Db, now: Db, was: Person, p: Person)
    requires forall kind :: IsIndex(kind) ==> KeysMove(db, now, kind, [was], [p])
    ensures NameKey(was) != NameKey(p) ==> NameKey(was) !in now
  {
    hide KeysMove, Key, KindOf, PartOf, PartFor, ValueFor, Holds, NameKey, MailKey, IdKey, PasswordKey;
    KeyForms(was);
    KeyForms(p);
    assert IsIndex(Name);
    MovedEntry(db, now, Name, [was], [p], PartFor(Name, was));
  }

  /** deletePerson, on any store that calls have left, unless it fails half done. */
  lemma DeletePersonClears(db: Db, id: int, p: Person)
    requires Typed(db) && UserById(db, id) == Some(p)
    ensures var (now, outcome) := DeletePerson(db, id); outcome.Done? ==> Cleared(now, p)
  {
    hide Typed, IsUser, User, UserById, Deleted, Cleared, Normal;
    TypedRecords(db);
    FoundById(db, id, p);
    DeletedClears(db, p);
  }

  lemma DeletedClears(db: Db, p: Person)
    requires RecordsOk(db) && IsUser(db, p.email) && User(db, p.email) == p
    ensures var (now, ok) := Deleted(db, p); ok ==> Cleared(now, p)
  {
    hide RecordsOk, IsUser, User, Key, KindOf, PartOf, DropIndex, DropListed, KeysMove, UsersMove, AllRecords, Only,
         FiveSteps, PartFor, MailKey, IdKey, PasswordKey, NameKey;
    var a := DropIndex(db, Uuid, p);
    var b := DropIndex(a, Name, p);
    var c := DropIndex(b, Password, p);
    var (d, ok) := DropListed(c, p.skills, p.email);
    var e := d - {Key(Mail, p.email)};
    KeyForms(p);
    DeleteSplits(db, a, b, c, d, p);
    DropMailOnly(d, p.email);
    forall kind | IsIndex(kind)
      ensures Key(kind, PartFor(kind, p)) !in e
    {
      assert FiveSteps(db, a, b, c, d, kind);
      DeleteMoves(db, a, b, c, d, e, p, kind);
      MovedEntry(db, e, kind, [p], [], PartFor(kind, p));
    }
    assert IsIndex(Uuid) && IsIndex(Name) && IsIndex(Password);
  }

  lemma DropMailOnly(db: Db, m: bytes)
    ensures Only(db, db - {Key(Mail, m)}, Mail)
  {
    hide Key, KindOf, PartOf;
    assert KindOf(Key(Mail, m)) == Mail;
  }
}
