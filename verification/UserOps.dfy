/** savePerson, updateUser and deletePerson as changes of the store, and when savePerson keeps the agreement. */
module UserOps {
  import opened Bytes
  import opened Decimals
  import opened MailLists
  import opened UserKeys
  import opened UserIndex

  // ---------- The changes ----------

  /** generateID: the number is kept as text. */
  function WithNextId(db: Db): Db { db[Key(LastId, []) := Text(Decimal(Last(db) + 1))] }

  function PutRecord(db: Db, p: Person): Db { db[Key(Mail, p.email) := Record(p)] }

  function PutIndex(db: Db, kind: Kind, p: Person): Db {
    db[Key(kind, PartFor(kind, p)) := Text(ValueFor(kind, p))]
  }

  function DropIndex(db: Db, kind: Kind, p: Person): Db { db - {Key(kind, PartFor(kind, p))} }

  function PutKeys(db: Db, p: Person): Db {
    PutIndex(PutIndex(PutIndex(PutRecord(db, p), Name, p), Uuid, p), Password, p)
  }

  /** savePerson, once the id is chosen. */
  function Saved(db: Db, p: Person): Db { AddSkills(PutKeys(db, p), p.skills, p.email) }

  /** The items of `a` that are not in `b`, in order. */
  function Others(a: seq<bytes>, b: seq<bytes>): (r: seq<bytes>)
    ensures forall x :: x in r <==> x in a && x !in b
  {
    if a == [] then []
    else Others(a[..|a| - 1], b) + (if a[|a| - 1] in b then [] else [a[|a| - 1]])
  }

  /** updateName */
  function MoveName(db: Db, was: Person, p: Person): Db {
    if FullName(was) == FullName(p) then db else PutIndex(DropIndex(db, Name, was), Name, p)
  }

  /** updateSkills: new skills first, then the ones given up; false if that threw. */
  function MoveSkills(db: Db, was: Person, p: Person): (Db, bool) {
    DropListed(AddSkills(db, Others(p.skills, was.skills), p.email), Others(was.skills, p.skills), p.email)
  }

  /** updatePassword */
  function MovePassword(db: Db, was: Person, p: Person): Db {
    if was.password == p.password then db else PutIndex(DropIndex(db, Password, was), Password, p)
  }

  /** updateUser, once the new record is complete; false if an exception left it half done. */
  function Updated(db: Db, was: Person, p: Person): (Db, bool) {
    var (moved, ok) := MoveSkills(MoveName(db, was, p), was, p);
    if ok then (PutRecord(MovePassword(moved, was, p), p), true) else (moved, false)
  }

  function DropKeys(db: Db, p: Person): Db {
    DropIndex(DropIndex(DropIndex(db, Uuid, p), Name, p), Password, p)
  }

  /** deletePerson; false if an exception left it half done. */
  function Deleted(db: Db, p: Person): (Db, bool) {
    var (dropped, ok) := DropListed(DropKeys(db, p), p.skills, p.email);
    if ok then (dropped - {Key(Mail, p.email)}, true) else (dropped, false)
  }

  // ---------- What the indexes need of a change ----------

  /** Nobody has the id, and none will be given it. */
  predicate FreeId(db: Db, id: int) { id <= Last(db) && Key(Uuid, IntText(id)) !in db }

  predicate FreeName(db: Db, p: Person) { Key(Name, PartFor(Name, p)) !in db }

  /** The name is as before, or its key is free. */
  predicate NameFits(db: Db, was: Person, p: Person) { PartFor(Name, p) == PartFor(Name, was) || FreeName(db, p) }

  /** The mail can be put at the end of the lists of these skills. */
  predicate SkillsFit(mail: bytes, skills: seq<bytes>) {
    skills == [] || (mail != [] && CommaFree(mail) && Distinct(skills))
  }

  // ---------- Records and keys together ----------

  predicate IsIndex(kind: Kind) { kind == Uuid || kind == Name || kind == Password }

  /** The entries of an index tell users apart. */
  lemma PartsUnique(db: Db, kind: Kind, m: bytes, n: bytes)
    requires RecordsOk(db) && IndexOk(db, kind) && IsIndex(kind) && IsUser(db, m) && IsUser(db, n)
    requires PartFor(kind, User(db, m)) == PartFor(kind, User(db, n))
    ensures m == n
  {
    hide Key, RecordsOk, IndexOk, IsUser, User, PartFor, ValueFor;
    UserFacts(db, m);
    UserFacts(db, n);
    EntryOf(db, kind, m);
    EntryOf(db, kind, n);
    MailShown(kind, User(db, m));
    MailShown(kind, User(db, n));
  }

  /** An index entry shows the mail, in its key or in its text. */
  lemma MailShown(kind: Kind, p: Person)
    requires IsIndex(kind)
    ensures if kind == Password then PartFor(kind, p) == p.email else ValueFor(kind, p) == p.email
  {
  }

  /** No other user has the part. */
  ghost predicate PartFree(db: Db, m: bytes, kind: Kind, p: Person) {
    forall n :: n != m && IsUser(db, n) ==> PartFor(kind, User(db, n)) != PartFor(kind, p)
  }

  /** That shows in the keys. */
  lemma KeyFree(db: Db, m: bytes, kind: Kind, p: Person)
    requires RecordsOk(db) && IndexOk(db, kind) && IsIndex(kind)
    ensures PartFree(db, m, kind, p) <==>
            Key(kind, PartFor(kind, p)) !in db || (IsUser(db, m) && PartFor(kind, p) == PartFor(kind, User(db, m)))
  {
    hide Key, RecordsOk, IndexOk, IsUser, User, PartFor;
    if Key(kind, PartFor(kind, p)) in db {
      var owner := OwnerOf(db, kind, PartFor(kind, p));
      if owner == m {
        forall n | n != m && IsUser(db, n)
          ensures PartFor(kind, User(db, n)) != PartFor(kind, p)
        {
          if PartFor(kind, User(db, n)) == PartFor(kind, p) {
            PartsUnique(db, kind, n, m);
          }
        }
      } else if IsUser(db, m) && PartFor(kind, p) == PartFor(kind, User(db, m)) {
        PartsUnique(db, kind, owner, m);
      }
    } else {
      forall n | n != m && IsUser(db, n)
        ensures PartFor(kind, User(db, n)) != PartFor(kind, p)
      {
        EntryOf(db, kind, n);
      }
    }
  }

  lemma PasswordFree(db: Db, p: Person)
    requires RecordsOk(db)
    ensures PartFree(db, p.email, Password, p)
  {
    hide RecordsOk, IsUser, User;
    forall n | n != p.email && IsUser(db, n)
      ensures PartFor(Password, User(db, n)) != PartFor(Password, p)
    {
      UserFacts(db, n);
    }
  }

  /** All keys of one kind are as before. */
  ghost predicate Untouched(db: Db, now: Db, kind: Kind) {
    forall s :: (Key(kind, s) in now <==> Key(kind, s) in db)
                && (Key(kind, s) in db ==> now[Key(kind, s)] == db[Key(kind, s)])
  }

  ghost predicate AllRecords(db: Db) { forall m :: Key(Mail, m) in db ==> IsUser(db, m) }

  /** One user's record changes, appears or goes, and the three indexes with it: they agree again exactly when no
      other user has one of the new keys and the id is not above the last one. */
  lemma RecordsAndKeysMove(db: Db, now: Db, m: bytes, pre: seq<Person>, post: seq<Person>)
    requires |pre| <= 1 && |post| <= 1
    requires RecordsAndKeysOk(db) && UsersMove(db, db, m, pre) && UsersMove(db, now, m, post)
    requires AllRecords(now)
    requires forall kind :: IsIndex(kind) ==> KeysMove(db, now, kind, pre, post)
    requires Untouched(db, now, LastId)
    requires |post| == 1 ==> Normal(post[0]) && post[0].email == m
    ensures RecordsAndKeysOk(now) <==>
            post == [] || (post[0].id <= Last(db) && PartFree(db, m, Uuid, post[0]) && PartFree(db, m, Name, post[0]))
  {
    hide RecordsOk, IndexOk, LastOk, UsersMove, KeysMove, Normal, Key, IsUser, User, PartFor, Last, Untouched,
         AllRecords, PartFree;
    RecordsMove(db, now, m, post);
    LastMoves(db, now, m, post);
    assert IsIndex(Uuid) && IsIndex(Name) && IsIndex(Password);
    IndexMovesExactly(db, now, Uuid, m, pre, post);
    IndexMovesExactly(db, now, Name, m, pre, post);
    IndexMovesExactly(db, now, Password, m, pre, post);
    if post != [] {
      PasswordFree(db, post[0]);
    }
  }

  /** An index agrees with the records after a change of one of them exactly when no other user has its new key. */
  lemma IndexMovesExactly(db: Db, now: Db, kind: Kind, m: bytes, pre: seq<Person>, post: seq<Person>)
    requires |pre| <= 1 && |post| <= 1 && IsIndex(kind)
    requires RecordsOk(db) && IndexOk(db, kind) && UsersMove(db, db, m, pre)
    requires RecordsOk(now) && UsersMove(db, now, m, post) && KeysMove(db, now, kind, pre, post)
    ensures IndexOk(now, kind) <==> post == [] || PartFree(db, m, kind, post[0])
  {
    hide RecordsOk, IndexOk, UsersMove, KeysMove, Key, IsUser, User, PartFor;
    if post == [] || PartFree(db, m, kind, post[0]) {
      forall n | n != m && IsUser(db, n)
        ensures !IsPart(kind, pre, PartFor(kind, User(db, n))) && !IsPart(kind, post, PartFor(kind, User(db, n)))
      {
        UserMoved(db, db, m, pre, n);
        if pre != [] && PartFor(kind, User(db, n)) == PartFor(kind, pre[0]) {
          PartsUnique(db, kind, n, m);
        }
      }
      IndexMoves(db, now, kind, m, pre, post);
    }
    if IndexOk(now, kind) && post != [] {
      forall n | n != m && IsUser(db, n)
        ensures PartFor(kind, User(db, n)) != PartFor(kind, post[0])
      {
        UserMoved(db, now, m, post, n);
        if PartFor(kind, User(db, n)) == PartFor(kind, post[0]) {
          PartsUnique(now, kind, n, m);
        }
      }
    }
  }

  lemma RecordsMove(db: Db, now: Db, m: bytes, post: seq<Person>)
    requires |post| <= 1 && RecordsOk(db) && UsersMove(db, now, m, post)
    requires AllRecords(now)
    requires |post| == 1 ==> Normal(post[0]) && post[0].email == m
    ensures RecordsOk(now)
  {
    hide RecordsOk, Normal, Key, IsUser, User;
    forall n | Key(Mail, n) in now
      ensures IsUser(now, n) && Normal(User(now, n)) && User(now, n).email == n
    {
      if n != m {
        UserFacts(db, n);
      }
    }
    RecordsBuilt(now);
  }

  lemma RecordsBuilt(db: Db)
    requires forall m :: Key(Mail, m) in db ==> IsUser(db, m) && Normal(User(db, m)) && User(db, m).email == m
    ensures RecordsOk(db)
  {
    hide Key, IsUser, User, Normal;
  }

  lemma LastMoves(db: Db, now: Db, m: bytes, post: seq<Person>)
    requires |post| <= 1 && LastOk(db) && UsersMove(db, now, m, post) && Untouched(db, now, LastId)
    ensures LastOk(now) <==> post == [] || post[0].id <= Last(db)
  {
    hide Key, IsUser, User, Decimal, Number, AllDigits;
  }

  // ---------- Single steps ----------

  lemma OnlyLeaves(db: Db, now: Db, changed: Kind, kind: Kind)
    requires Only(db, now, changed) && kind != changed
    ensures Untouched(db, now, kind)
  {
    hide Key, KindOf;
    forall s
      ensures KindOf(Key(kind, s)) == kind
    {
    }
  }

  lemma UntouchedTwice(db: Db, mid: Db, now: Db, kind: Kind)
    requires Untouched(db, mid, kind) && Untouched(mid, now, kind)
    ensures Untouched(db, now, kind)
  {
    hide Key;
  }

  lemma PutIndexStep(db: Db, kind: Kind, p: Person)
    ensures Only(db, PutIndex(db, kind, p), kind) && KeysMove(db, PutIndex(db, kind, p), kind, [], [p])
  {
    hide Key, KindOf, PartOf, PartFor, ValueFor;
    assert KindOf(Key(kind, PartFor(kind, p))) == kind;
    forall s
      ensures PartOf(Key(kind, s)) == s
    {
    }
  }

  lemma DropIndexStep(db: Db, kind: Kind, p: Person)
    ensures Only(db, DropIndex(db, kind, p), kind) && KeysMove(db, DropIndex(db, kind, p), kind, [p], [])
  {
    hide Key, KindOf, PartOf, PartFor, ValueFor;
    assert KindOf(Key(kind, PartFor(kind, p))) == kind;
    forall s
      ensures PartOf(Key(kind, s)) == s
    {
    }
  }

  lemma PutRecordStep(db: Db, p: Person)
    requires AllRecords(db)
    ensures var now := PutRecord(db, p); Only(db, now, Mail) && UsersMove(db, now, p.email, [p]) && AllRecords(now)
  {
    hide Key, KindOf, PartOf;
    assert KindOf(Key(Mail, p.email)) == Mail;
    forall s
      ensures PartOf(Key(Mail, s)) == s
    {
    }
  }

  lemma DropRecordStep(db: Db, m: bytes)
    requires AllRecords(db)
    ensures var now := db - {Key(Mail, m)}; Only(db, now, Mail) && UsersMove(db, now, m, []) && AllRecords(now)
  {
    hide Key, KindOf, PartOf;
    assert KindOf(Key(Mail, m)) == Mail;
    forall s
      ensures PartOf(Key(Mail, s)) == s
    {
    }
  }

  /** Steps that leave an index alone, before and after one that moves it. */
  lemma KeysMoveBetween(a: Db, b: Db, c: Db, d: Db, kind: Kind, pre: seq<Person>, post: seq<Person>)
    requires |pre| <= 1 && |post| <= 1
    requires Untouched(a, b, kind) && KeysMove(b, c, kind, pre, post) && Untouched(c, d, kind)
    ensures KeysMove(a, d, kind, pre, post)
  {
    hide Untouched, KeysMove;
    KeysMoveLater(a, b, c, kind, pre, post);
    KeysMoveEarlier(a, c, d, kind, pre, post);
  }

  lemma KeysMoveLater(a: Db, b: Db, c: Db, kind: Kind, pre: seq<Person>, post: seq<Person>)
    requires |pre| <= 1 && |post| <= 1 && Untouched(a, b, kind) && KeysMove(b, c, kind, pre, post)
    ensures KeysMove(a, c, kind, pre, post)
  {
    hide Key, PartFor, ValueFor, IsPart;
    forall s
      ensures KeyMoves(a, c, kind, pre, post, s)
    {
      assert KeyMoves(b, c, kind, pre, post, s);
      SameKey(a, b, kind, s);
    }
  }

  lemma SameKey(db: Db, now: Db, kind: Kind, s: bytes)
    requires Untouched(db, now, kind)
    ensures Key(kind, s) in now <==> Key(kind, s) in db
    ensures Key(kind, s) in db ==> now[Key(kind, s)] == db[Key(kind, s)]
  {
    hide Key;
  }

  lemma KeysMoveEarlier(a: Db, c: Db, d: Db, kind: Kind, pre: seq<Person>, post: seq<Person>)
    requires |pre| <= 1 && |post| <= 1 && KeysMove(a, c, kind, pre, post) && Untouched(c, d, kind)
    ensures KeysMove(a, d, kind, pre, post)
  {
    hide Key, PartFor, ValueFor, IsPart;
    forall s
      ensures KeyMoves(a, d, kind, pre, post, s)
    {
      assert KeyMoves(a, c, kind, pre, post, s);
      SameKey(c, d, kind, s);
    }
  }

  lemma SameRecords(db: Db, now: Db)
    requires Untouched(db, now, Mail)
    ensures forall m :: (IsUser(now, m) <==> IsUser(db, m)) && (IsUser(db, m) ==> User(now, m) == User(db, m))
    ensures AllRecords(db) ==> AllRecords(now)
  {
    hide Key;
    forall m
      ensures Key(Mail, m) in now <==> Key(Mail, m) in db
      ensures Key(Mail, m) in db ==> now[Key(Mail, m)] == db[Key(Mail, m)]
    {
    }
  }

  lemma UsersMoveBetween(a: Db, b: Db, c: Db, d: Db, m: bytes, post: seq<Person>)
    requires |post| <= 1
    requires Untouched(a, b, Mail) && UsersMove(b, c, m, post) && AllRecords(c) && Untouched(c, d, Mail)
    ensures UsersMove(a, d, m, post) && AllRecords(d)
  {
    hide Key, IsUser, User, Untouched, AllRecords;
    SameRecords(a, b);
    SameRecords(c, d);
  }

  lemma RecordsAreUsers(db: Db)
    requires RecordsOk(db)
    ensures AllRecords(db)
  {
    hide Key, Normal;
  }

  lemma ListsKept(db: Db, now: Db)
    requires Untouched(db, now, SkillIndex)
    ensures forall skill :: ListOf(now, skill) == ListOf(db, skill)
    ensures TextsOk(db) <==> TextsOk(now)
    ensures ListsOk(db) <==> ListsOk(now)
  {
    hide Key, Split, IsList;
  }

  // ---------- savePerson ----------

  lemma NextIdInv(db: Db)
    requires Inv(db)
    ensures var now := WithNextId(db);
            && Inv(now) && Last(now) == Last(db) + 1 && FreeId(now, Last(db) + 1)
            && forall m :: (IsUser(now, m) <==> IsUser(db, m)) && (IsUser(db, m) ==> User(now, m) == User(db, m))
  {
    hide Key, KindOf, PartOf, RecordsOk, IndexOk, ListsOk, Decimal, Number, AllDigits, ListOf, Untouched, IntText;
    var now := WithNextId(db);
    NoIdAbove(db, Last(db) + 1);
    assert Only(db, now, LastId);
    SameUsers(db, now, LastId);
    OnlyKeepsRecords(db, now, LastId);
    OnlyKeepsIndex(db, now, Uuid, LastId);
    OnlyKeepsIndex(db, now, Name, LastId);
    OnlyKeepsIndex(db, now, Password, LastId);
    NumberOfDecimal(Last(db) + 1);
    DecimalDigits(Last(db) + 1);
    OnlyLeaves(db, now, LastId, SkillIndex);
    ListsKept(db, now);
  }

  lemma NoIdAbove(db: Db, id: int)
    requires IndexOk(db, Uuid) && LastOk(db) && id > Last(db)
    ensures Key(Uuid, IntText(id)) !in db
  {
    hide Key, IndexOk, IsUser, User, Last, LastText;
    if Key(Uuid, IntText(id)) in db {
      var m := OwnerOf(db, Uuid, IntText(id));
      IntTextInjective(User(db, m).id, id);
    }
  }

  lemma DecimalDigits(n: nat)
    ensures AllDigits(Decimal(n))
  {
  }

  /** The record, then the name, id and password keys. */
  lemma PutKeysMoves(db: Db, p: Person)
    requires AllRecords(db)
    ensures var now := PutKeys(db, p);
            && UsersMove(db, now, p.email, [p]) && AllRecords(now)
            && Untouched(db, now, LastId) && Untouched(db, now, SkillIndex)
            && forall kind :: IsIndex(kind) ==> KeysMove(db, now, kind, [], [p])
  {
    hide Only, Untouched, KeysMove, UsersMove, AllRecords, PutIndex, PutRecord;
    var a := PutRecord(db, p);
    var b := PutIndex(a, Name, p);
    var c := PutIndex(b, Uuid, p);
    var d := PutIndex(c, Password, p);
    PutRecordStep(db, p);
    PutIndexStep(a, Name, p);
    PutIndexStep(b, Uuid, p);
    PutIndexStep(c, Password, p);
    forall kind
      ensures kind != Mail ==> Untouched(db, a, kind)
      ensures kind != Name && kind != Uuid && kind != Password ==> Untouched(a, d, kind)
      ensures IsIndex(kind) ==> KeysMove(db, d, kind, [], [p])
    {
      FourSteps(db, a, b, c, d, kind);
      if kind == Name {
        UntouchedTwice(b, c, d, kind);
        KeysMoveBetween(db, a, b, d, kind, [], [p]);
      } else if kind == Uuid {
        UntouchedTwice(db, a, b, kind);
        KeysMoveBetween(db, b, c, d, kind, [], [p]);
      } else if kind == Password {
        UntouchedTwice(db, a, b, kind);
        UntouchedTwice(db, b, c, kind);
        UntouchedItself(d, kind);
        KeysMoveBetween(db, c, d, d, kind, [], [p]);
      } else {
        UntouchedTwice(a, b, c, kind);
        UntouchedTwice(a, c, d, kind);
      }
    }
    UntouchedItself(db, Mail);
    UsersMoveBetween(db, db, a, d, p.email, [p]);
    UntouchedTwice(db, a, d, LastId);
    UntouchedTwice(db, a, d, SkillIndex);
  }

  lemma UntouchedItself(db: Db, kind: Kind)
    ensures Untouched(db, db, kind)
  {
  }

  lemma FourSteps(db: Db, a: Db, b: Db, c: Db, d: Db, kind: Kind)
    requires Only(db, a, Mail) && Only(a, b, Name) && Only(b, c, Uuid) && Only(c, d, Password)
    ensures kind != Mail ==> Untouched(db, a, kind)
    ensures kind != Name ==> Untouched(a, b, kind)
    ensures kind != Uuid ==> Untouched(b, c, kind)
    ensures kind != Password ==> Untouched(c, d, kind)
  {
    hide Only, Untouched;
    if kind != Mail { OnlyLeaves(db, a, Mail, kind); }
    if kind != Name { OnlyLeaves(a, b, Name, kind); }
    if kind != Uuid { OnlyLeaves(b, c, Uuid, kind); }
    if kind != Password { OnlyLeaves(c, d, Password, kind); }
  }

  lemma OnlyItself(db: Db, kind: Kind)
    ensures Only(db, db, kind)
  {
  }

  lemma OnlyTwice(db: Db, mid: Db, now: Db, kind: Kind)
    requires Only(db, mid, kind) && Only(mid, now, kind)
    ensures Only(db, now, kind)
  {
    hide KindOf;
  }

  lemma AddSkillOnly(db: Db, skill: bytes, mail: bytes)
    ensures Only(db, AddSkill(db, skill, mail), SkillIndex)
  {
    hide Key, KindOf, PartOf;
    assert KindOf(Key(SkillIndex, skill)) == SkillIndex;
  }

  lemma DropSkillOnly(db: Db, skill: bytes, mail: bytes)
    ensures Only(db, DropSkill(db, skill, mail), SkillIndex)
  {
    hide Key, KindOf, PartOf, ListOf, Join, Without;
    assert KindOf(Key(SkillIndex, skill)) == SkillIndex;
  }

  lemma {:induction false} AddSkillsOnly(db: Db, skills: seq<bytes>, mail: bytes)
    ensures Only(db, AddSkills(db, skills, mail), SkillIndex)
    decreases |skills|
  {
    hide AddSkill, Only;
    if skills == [] {
      OnlyItself(db, SkillIndex);
    } else {
      var mid := AddSkills(db, skills[..|skills| - 1], mail);
      AddSkillsOnly(db, skills[..|skills| - 1], mail);
      AddSkillOnly(mid, skills[|skills| - 1], mail);
      OnlyTwice(db, mid, AddSkills(db, skills, mail), SkillIndex);
    }
  }

  lemma SavedKeys(db: Db, p: Person)
    requires RecordsAndKeysOk(db) && Normal(p) && !IsUser(db, p.email)
    ensures RecordsAndKeysOk(PutKeys(db, p)) <==> FreeId(db, p.id) && FreeName(db, p)
  {
    hide RecordsOk, IndexOk, LastOk, PutKeys, Normal, Untouched, KeysMove, AllRecords, Key, IsUser, User, Last,
         PartFree;
    RecordsAreUsers(db);
    PutKeysMoves(db, p);
    NoUser(db, p.email);
    RecordsAndKeysMove(db, PutKeys(db, p), p.email, [], [p]);
    KeyFree(db, p.email, Uuid, p);
    KeyFree(db, p.email, Name, p);
  }

  lemma NoUser(db: Db, m: bytes)
    requires !IsUser(db, m)
    ensures UsersMove(db, db, m, [])
  {
  }

  /** The name index agrees with the records after savePerson exactly when the name key was free. */
  lemma SavedNames(db: Db, p: Person)
    requires RecordsOk(db) && IndexOk(db, Name) && Normal(p) && !IsUser(db, p.email)
    ensures IndexOk(Saved(db, p), Name) <==> FreeName(db, p)
  {
    hide RecordsOk, IndexOk, PutKeys, Normal, Untouched, KeysMove, AllRecords, Key, IsUser, User, UsersMove, PartFree,
         AddSkills, Only;
    var mid, now := PutKeys(db, p), Saved(db, p);
    RecordsAreUsers(db);
    PutKeysMoves(db, p);
    NoUser(db, p.email);
    assert IsIndex(Name);
    RecordsMove(db, mid, p.email, [p]);
    IndexMovesExactly(db, mid, Name, p.email, [], [p]);
    KeyFree(db, p.email, Name, p);
    AddSkillsOnly(mid, p.skills, p.email);
    OnlyBack(mid, now, SkillIndex);
    if IndexOk(mid, Name) {
      OnlyKeepsIndex(mid, now, Name, SkillIndex);
    }
    if IndexOk(now, Name) {
      OnlyKeepsIndex(now, mid, Name, SkillIndex);
    }
  }

  lemma OnlyBack(db: Db, now: Db, kind: Kind)
    requires Only(db, now, kind)
    ensures Only(now, db, kind)
  {
    hide KindOf;
  }

  lemma UsersMoveOn(db: Db, mid: Db, now: Db, m: bytes, post: seq<Person>)
    requires |post| <= 1 && UsersMove(db, mid, m, post)
    requires forall n :: (IsUser(now, n) <==> IsUser(mid, n)) && (IsUser(mid, n) ==> User(now, n) == User(mid, n))
    ensures UsersMove(db, now, m, post)
  {
    hide IsUser, User;
  }

  /** Whatever the profile, savePerson changes no other record. */
  lemma SavedUsers(db: Db, p: Person)
    requires RecordsOk(db)
    ensures UsersMove(db, Saved(db, p), p.email, [p])
  {
    hide RecordsOk, PutKeys, IsUser, User, AddSkills, Untouched, UsersMove, Only, AllRecords, KeysMove;
    RecordsAreUsers(db);
    PutKeysMoves(db, p);
    AddSkillsOnly(PutKeys(db, p), p.skills, p.email);
    SameUsers(PutKeys(db, p), Saved(db, p), SkillIndex);
    UsersMoveOn(db, PutKeys(db, p), Saved(db, p), p.email, [p]);
  }

  /** The skill lists agree with the records after savePerson exactly when the profile has no skill, or its mail can
      be an item of a list and no skill is named twice. */
  lemma SavedSkills(db: Db, p: Person)
    requires RecordsOk(db) && SkillsOk(db) && !IsUser(db, p.email)
    ensures SkillsOk(Saved(db, p)) <==> SkillsFit(p.email, p.skills)
  {
    hide RecordsOk, SkillsOk, PutKeys, IsUser, User, AddSkills, Untouched, UsersMove, Only, AllRecords, KeysMove,
         Distinct;
    var mid, now := PutKeys(db, p), Saved(db, p);
    RecordsAreUsers(db);
    PutKeysMoves(db, p);
    SavedUsers(db, p);
    if p.skills == [] || (p.email != [] && CommaFree(p.email)) {
      SavedLists(db, mid, p);
    } else {
      UserMoved(db, now, p.email, [p], p.email);
      SavedLost(now, p.email, p);
    }
  }

  lemma SavedLists(db: Db, mid: Db, p: Person)
    requires SkillsOk(db) && !IsUser(db, p.email) && Untouched(db, mid, SkillIndex)
    requires var now := AddSkills(mid, p.skills, p.email); UsersMove(db, now, p.email, [p])
    requires p.skills == [] || (p.email != [] && CommaFree(p.email))
    ensures SkillsOk(AddSkills(mid, p.skills, p.email)) <==> p.skills == [] || Distinct(p.skills)
  {
    hide IsUser, User, ListOf, TextsOk, AddSkills, Untouched, Only, Key, Distinct;
    var now := AddSkills(mid, p.skills, p.email);
    ListsKept(db, mid);
    if p.skills == [] {
      AddNoSkills(mid, p.email);
      ListsFollow(db, now, p.email, [], [p]);
    } else if Distinct(p.skills) {
      AddSkillsLists(mid, p.skills, p.email);
      ListsFollow(db, now, p.email, [], [p]);
    } else {
      AddSkillsTexts(mid, p.skills, p.email);
    }
  }

  lemma SavedLost(now: Db, m: bytes, p: Person)
    requires IsUser(now, m) && User(now, m) == p && p.skills != [] && !(m != [] && CommaFree(m))
    ensures !SkillsOk(now)
  {
    hide IsUser, User, ListOf, ListsOk;
    if SkillsOk(now) {
      ListedMail(now, p.skills[0], m);
    }
  }

  /** savePerson puts exactly the new record into the store. Whatever the profile, it keeps the agreement exactly when
      the id and the name key are free, and the profile has no skill or its mail can be an item of a list and no
      skill is named twice. */
  lemma SavedInv(db: Db, p: Person)
    requires Inv(db) && Normal(p) && !IsUser(db, p.email)
    ensures UsersMove(db, Saved(db, p), p.email, [p])
    ensures Inv(Saved(db, p)) <==> FreeId(db, p.id) && FreeName(db, p) && SkillsFit(p.email, p.skills)
  {
    hide RecordsOk, IndexOk, LastOk, SkillsOk, PutKeys, Normal, IsUser, User, AddSkills, UsersMove, Only, FreeId,
         FreeName, SkillsFit;
    var mid, now := PutKeys(db, p), Saved(db, p);
    SavedUsers(db, p);
    SavedKeys(db, p);
    SavedSkills(db, p);
    AddSkillsOnly(mid, p.skills, p.email);
    SameAgreement(mid, now);
  }

  lemma SameAgreement(db: Db, now: Db)
    requires Only(db, now, SkillIndex)
    ensures RecordsAndKeysOk(now) <==> RecordsAndKeysOk(db)
  {
    hide RecordsAndKeysOk, Only, IsUser, User;
    OnlyBack(db, now, SkillIndex);
    if RecordsAndKeysOk(db) {
      OnlySkillsKeep(db, now);
    }
    if RecordsAndKeysOk(now) {
      OnlySkillsKeep(now, db);
    }
  }

  lemma ListedMail(db: Db, skill: bytes, m: bytes)
    requires SkillsOk(db) && IsUser(db, m) && skill in User(db, m).skills
    ensures m != [] && CommaFree(m) && m in ListOf(db, skill)
  {
    hide IsUser, User, ListOf, TextsOk;
    ItemsOfList(db, skill);
    assert m in ListOf(db, skill);
  }

  lemma AddNoSkills(db: Db, mail: bytes)
    ensures AddSkills(db, [], mail) == db
  {
  }
}
