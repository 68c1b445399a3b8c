/** pkg/auth/base.go: the user database and the logged-in set. The database
    is a CSV file of `<user>,<base64 of password>` lines; reading and
    writing it is not part of this model, which takes the parsed records
    (or the read error) as input. */
module Auth {
  import opened Common
  import Base64

  /** One CSV line, split into fields. */
  type Record = seq<Bytes>

  /** The users currently logged in (Go keeps them as map keys). */
  datatype AuthMgr = AuthMgr(authedUser: set<Bytes>)

  /** A record the manager looks at: one with at least a name and a password. */
  predicate IsUserRecord(rec: Record) {
    |rec| >= 2
  }

  /** The names of the well-formed records, in file order. */
  function Names(users: seq<Record>): (r: seq<Bytes>)
    ensures |r| <= |users|
    ensures forall n :: n in r <==> exists i :: 0 <= i < |users| && IsUserRecord(users[i]) && users[i][0] == n
  {
    if |users| == 0 then []
    else
      var rest := Names(users[1..]);
      assert forall i :: 1 <= i < |users| ==> users[i] == users[1..][i - 1];
      if IsUserRecord(users[0]) then [users[0][0]] + rest else rest
  }

  /** Appending a record appends its name, when it is well formed. */
  lemma {:induction false} NamesAppend(users: seq<Record>, rec: Record)
    ensures Names(users + [rec]) == Names(users) + (if IsUserRecord(rec) then [rec[0]] else [])
  {
    if |users| > 0 {
      assert (users + [rec])[1..] == users[1..] + [rec];
      NamesAppend(users[1..], rec);
    }
  }

  /** ListUser: the first field of each well-formed record, in order; a
      database read error is passed on. */
  function ListUser(db: Result<seq<Record>>): (r: Result<seq<Bytes>>)
    ensures r.Err? <==> db.Err?
    ensures db.Err? ==> r.msg == db.msg
    ensures db.Ok? ==> r.value == Names(db.value)
  {
    match db
    case Err(msg) => Err(msg)
    case Ok(users) => Ok(Names(users))
  }

  /** The position of the first well-formed record named `user`. */
  function FindUser(users: seq<Record>, user: Bytes): (r: Option<nat>)
    ensures r.Some? ==> r.value < |users| && IsUserRecord(users[r.value]) && users[r.value][0] == user
    ensures r.Some? ==> forall i :: 0 <= i < r.value ==> !(IsUserRecord(users[i]) && users[i][0] == user)
    ensures r.None? <==> user !in Names(users)
  {
    if |users| == 0 then None
    else if IsUserRecord(users[0]) && users[0][0] == user then Some(0)
    else match FindUser(users[1..], user)
      case None => None
      case Some(i) => Some(i + 1)
  }

  function LoggedInError(user: Bytes): Bytes { Lit("user ") + user + Lit(" already logged in") }
  function WrongPasswdError(user: Bytes): Bytes { Lit("wrong passwd for user ") + user }
  function NotExistError(user: Bytes): Bytes { Lit("user ") + user + Lit(" not exist") }
  function ExistedError(user: Bytes): Bytes { Lit("user ") + user + Lit(" existed") }

  /** ValidateUser: a logged-in user is refused before the database is read;
      then the first well-formed record with the user's name decides, by
      comparing its password field with the base64 encoding of `passwd`. */
  function ValidateUser(mgr: AuthMgr, db: Result<seq<Record>>, user: Bytes, passwd: Bytes): (r: Result<AuthMgr>)
    ensures user in mgr.authedUser ==> r == Err(LoggedInError(user))
    ensures r.Ok? ==> r.value.authedUser == mgr.authedUser + {user} && user !in mgr.authedUser
    ensures r.Ok? <==>
      && user !in mgr.authedUser
      && db.Ok?
      && FindUser(db.value, user).Some?
      && db.value[FindUser(db.value, user).value][1] == Base64.Encode(passwd)
    ensures user !in mgr.authedUser && db.Ok? && FindUser(db.value, user).None? ==>
      r == Err(NotExistError(user))
    ensures user !in mgr.authedUser && db.Ok? && FindUser(db.value, user).Some? && r.Err? ==>
      r == Err(WrongPasswdError(user))
  {
    if user in mgr.authedUser then Err(LoggedInError(user))
    else match db
      case Err(msg) => Err(msg)
      case Ok(users) =>
        match FindUser(users, user)
        case None => Err(NotExistError(user))
        case Some(i) =>
          if users[i][1] == Base64.Encode(passwd) then Ok(AuthMgr(mgr.authedUser + {user}))
          else Err(WrongPasswdError(user))
  }

  /** AddUser: refuse a name some well-formed record already has; otherwise
      the database gains the record `[user, base64(passwd)]`. */
  function AddUser(db: Result<seq<Record>>, user: Bytes, passwd: Bytes): (r: Result<seq<Record>>)
    ensures db.Err? ==> r == db
    ensures db.Ok? && user in Names(db.value) ==> r == Err(ExistedError(user))
    ensures db.Ok? && user !in Names(db.value) ==> r == Ok(db.value + [[user, Base64.Encode(passwd)]])
  {
    match db
    case Err(msg) => Err(msg)
    case Ok(users) =>
      if FindUser(users, user).Some? then Err(ExistedError(user))
      else Ok(users + [[user, Base64.Encode(passwd)]])
  }

  /** LogoutUser: the user is no longer logged in; nobody else is affected. */
  function LogoutUser(mgr: AuthMgr, user: Bytes): (r: AuthMgr)
    ensures user !in r.authedUser
    ensures forall u :: u != user ==> (u in r.authedUser <==> u in mgr.authedUser)
  {
    AuthMgr(mgr.authedUser - {user})
  }

  /** Logging out twice is logging out once; logging out a user that just
      logged in restores the set it started from. */
  lemma LogoutIdempotent(mgr: AuthMgr, user: Bytes)
    ensures LogoutUser(LogoutUser(mgr, user), user) == LogoutUser(mgr, user)
    ensures user !in mgr.authedUser ==> LogoutUser(mgr, user) == mgr
  {
  }

  /** A name the CSV line `<user>,<password>` carries through unchanged:
      no comma, no double quote, no line break. */
  predicate CsvPlain(user: Bytes) {
    forall b :: b in user ==> b != 44 && b != 34 && b != 13 && b != 10
  }

  /** After AddUser, the new user lists last, and logs in with exactly the
      password that was added, for a name the appended line reads back as
      written. */
  lemma AddThenValidate(mgr: AuthMgr, users: seq<Record>, user: Bytes, passwd: Bytes, attempt: Bytes)
    requires AddUser(Ok(users), user, passwd).Ok?
    requires CsvPlain(user)
    requires user !in mgr.authedUser
    ensures ListUser(AddUser(Ok(users), user, passwd)) == Ok(Names(users) + [user])
    ensures ValidateUser(mgr, AddUser(Ok(users), user, passwd), user, attempt).Ok? <==> attempt == passwd
  {
    var db := users + [[user, Base64.Encode(passwd)]];
    NamesAppend(users, [user, Base64.Encode(passwd)]);
    assert FindUser(db, user) == Some(|users|) by {
      FindUserAppend(users, [user, Base64.Encode(passwd)], user);
    }
    if Base64.Encode(attempt) == Base64.Encode(passwd) {
      Base64.EncodeInjective(attempt, passwd);
    }
  }

  /** A name absent from the database is found at the record appended for it. */
  lemma {:induction false} FindUserAppend(users: seq<Record>, rec: Record, user: Bytes)
    requires FindUser(users, user).None? && IsUserRecord(rec) && rec[0] == user
    ensures FindUser(users + [rec], user) == Some(|users|)
  {
    if |users| > 0 {
      assert (users + [rec])[1..] == users[1..] + [rec];
      FindUserAppend(users[1..], rec, user);
    }
  }

  /** A successful login followed by a logout restores the logged-in set. */
  lemma ValidateThenLogout(mgr: AuthMgr, db: Result<seq<Record>>, user: Bytes, passwd: Bytes)
    requires ValidateUser(mgr, db, user, passwd).Ok?
    ensures LogoutUser(ValidateUser(mgr, db, user, passwd).value, user) == mgr
  {
  }

  /** The login scenario of the package's unit test, for any three distinct
      names and two different passwords: both users store `base64(p)`; the
      second logs in with `p`, an unknown third does not exist, and the
      first is refused with another password. */
  lemma LoginScenario(u1: Bytes, u2: Bytes, u3: Bytes, p: Bytes, w: Bytes)
    requires u1 != u2 && u1 != u3 && u2 != u3 && p != w
    ensures
      var db := Ok([[u1, Base64.Encode(p)], [u2, Base64.Encode(p)]]);
      var r1 := ValidateUser(AuthMgr({}), db, u2, p);
      && r1 == Ok(AuthMgr({u2}))
      && ValidateUser(r1.value, db, u3, p) == Err(NotExistError(u3))
      && ValidateUser(r1.value, db, u1, w) == Err(WrongPasswdError(u1))
  {
    var db := [[u1, Base64.Encode(p)], [u2, Base64.Encode(p)]];
    assert FindUser(db, u2) == Some(1);
    assert FindUser(db, u1) == Some(0);
    assert FindUser(db, u3) == None;
    if Base64.Encode(w) == Base64.Encode(p) {
      Base64.EncodeInjective(w, p);
    }
    var r1 := ValidateUser(AuthMgr({}), Ok(db), u2, p);
    assert db[1][1] == Base64.Encode(p);
    assert r1.Ok?;
    assert r1.value.authedUser == {u2};
    assert ValidateUser(r1.value, Ok(db), u3, p) == Err(NotExistError(u3));
    assert ValidateUser(r1.value, Ok(db), u1, w) == Err(WrongPasswdError(u1));
  }

  /** The password of the unit test's users, "LaughOutLoudly", in bytes. */
  const LaughOutLoudly: Bytes := [76, 97, 117, 103, 104, 79, 117, 116, 76, 111, 117, 100, 108, 121]

  /** Its stored form in the unit test's database, "TGF1Z2hPdXRMb3VkbHk=". */
  const StoredLaughOutLoudly: Bytes :=
    [84, 71, 70, 49, 90, 50, 104, 80, 100, 88, 82, 77, 98, 51, 86, 107, 98, 72, 107, 61]

  /** The stored text is exactly the base64 encoding of the password. */
  lemma StoredPassword()
    ensures Base64.Encode(LaughOutLoudly) == StoredLaughOutLoudly
  {
    FourteenBytes(LaughOutLoudly);
    StoredGroups();
    StoredConcat();
  }

  /** The stored text, group by group. */
  lemma StoredConcat()
    ensures [84, 71, 70, 49] + [90, 50, 104, 80] + [100, 88, 82, 77] + [98, 51, 86, 107] + [98, 72, 107, 61]
      == StoredLaughOutLoudly
  {
  }

  /** Fourteen bytes encode as four full groups and a final pair. */
  lemma FourteenBytes(x: Bytes)
    requires |x| == 14
    ensures Base64.Encode(x) ==
      Base64.Quad(x[0], x[1], x[2]) + Base64.Quad(x[3], x[4], x[5]) + Base64.Quad(x[6], x[7], x[8])
      + Base64.Quad(x[9], x[10], x[11]) + Base64.Pair(x[12], x[13])
  {
    assert x[0..] == x;
    Base64.EncodeAt(x, 0);
    Base64.EncodeAt(x, 3);
    Base64.EncodeAt(x, 6);
    Base64.EncodeAt(x, 9);
    assert Base64.Encode(x[12..]) == Base64.Pair(x[12], x[13]);
  }

  /** The five groups of the stored text, one at a time. */
  lemma StoredGroups()
    ensures Base64.Quad(76, 97, 117) == [84, 71, 70, 49]
    ensures Base64.Quad(103, 104, 79) == [90, 50, 104, 80]
    ensures Base64.Quad(117, 116, 76) == [100, 88, 82, 77]
    ensures Base64.Quad(111, 117, 100) == [98, 51, 86, 107]
    ensures Base64.Pair(108, 121) == [98, 72, 107, 61]
  {
  }
}
