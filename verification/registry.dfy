/**
  The list-backed user registry of auth.py.

  `load_users` / `save_users` (module `database`) read and write one list of
  `{username, email, password}` records; here that list is the field `users` of
  class `Registry`, so loading reads the field and saving assigns it.
  `hash_password(p).decode()` and `check_password(p, s.encode())` (module
  `utils`) are the function-valued fields `hash` and `checkPassword`: both are
  deterministic and nothing is assumed about how they relate.
 */
module AuthRegistry {
  import opened Options

  /** One saved record. */
  datatype UserRecord = UserRecord(username: string, email: string, password: string)

  /** Some record carries `email`. */
  predicate EmailTaken(users: seq<UserRecord>, email: string)
  {
    exists i :: 0 <= i < |users| && users[i].email == email
  }

  /** No two records carry the same email. */
  predicate DistinctEmails(users: seq<UserRecord>)
  {
    forall i, j :: 0 <= i < j < |users| ==> users[i].email != users[j].email
  }

  /** The position of the first record carrying `email`, the one a front-to-back
      scan stops at. */
  function FirstWithEmail(users: seq<UserRecord>, email: string): (r: Option<nat>)
    ensures r.None? <==> !EmailTaken(users, email)
    ensures r.Some? ==> r.value < |users| && users[r.value].email == email
    ensures r.Some? ==> forall j :: 0 <= j < r.value ==> users[j].email != email
  {
    if |users| == 0 then None
    else if users[0].email == email then Some(0)
    else match FirstWithEmail(users[1..], email)
      case None => None
      case Some(k) => Some(k + 1)
  }

  /** What `login_user` answers for a given list: the password check against the
      first record with that email, False when there is none. */
  function LoginOutcome(users: seq<UserRecord>, check: (string, string) -> bool,
                        email: string, password: string): (ok: bool)
    ensures !EmailTaken(users, email) ==> !ok
    ensures ok ==> exists i :: 0 <= i < |users| && users[i].email == email && check(password, users[i].password)
  {
    match FirstWithEmail(users, email)
    case None => false
    case Some(i) => check(password, users[i].password)
  }

  /** Login reads only the first record with the email, and its answer is the
      password check against that record. */
  lemma LoginChecksFirstMatch(users: seq<UserRecord>, check: (string, string) -> bool,
                              email: string, password: string)
    requires EmailTaken(users, email)
    ensures FirstWithEmail(users, email).Some?
    ensures LoginOutcome(users, check, email, password)
         == check(password, users[FirstWithEmail(users, email).value].password)
  {
  }

  /** Appending a record whose email is not yet taken keeps emails distinct. */
  lemma AppendKeepsDistinct(users: seq<UserRecord>, rec: UserRecord)
    requires DistinctEmails(users) && !EmailTaken(users, rec.email)
    ensures DistinctEmails(users + [rec])
  {
    var s := users + [rec];
    forall i, j | 0 <= i < j < |s|
      ensures s[i].email != s[j].email
    {
      if j < |users| {
        assert s[i] == users[i] && s[j] == users[j];
      } else {
        assert s[i] == users[i];
        assert !(users[i].email == rec.email);
      }
    }
  }

  /** When emails are distinct, the record with a given email is the one login reads. */
  lemma DistinctFirstIsOnly(users: seq<UserRecord>, email: string, i: nat)
    requires DistinctEmails(users) && i < |users| && users[i].email == email
    ensures FirstWithEmail(users, email) == Some(i)
  {
  }

  /** After a successful registration the new record is the one login checks,
      whatever the earlier records hold. */
  lemma RegisterThenLogin(users: seq<UserRecord>, check: (string, string) -> bool,
                          rec: UserRecord, password: string)
    requires !EmailTaken(users, rec.email)
    ensures FirstWithEmail(users + [rec], rec.email) == Some(|users|)
    ensures LoginOutcome(users + [rec], check, rec.email, password) == check(password, rec.password)
  {
    var s := users + [rec];
    assert s[|users|] == rec;
    assert forall j :: 0 <= j < |users| ==> s[j] == users[j];
  }

  /** The saved list of users. */
  class Registry {
    var users: seq<UserRecord>
    /** `hash_password(password).decode()`, left uninterpreted. */
    const hash: string -> string
    /** `check_password(password, stored.encode())`, left uninterpreted. */
    const checkPassword: (string, string) -> bool

    /** A registry over whatever list the store currently holds. */
    constructor (saved: seq<UserRecord>, hash: string -> string, checkPassword: (string, string) -> bool)
      ensures users == saved && this.hash == hash && this.checkPassword == checkPassword
    {
      users := saved;
      this.hash := hash;
      this.checkPassword := checkPassword;
    }

    /** `register_user(username, email, password)`: refuses a taken email without
        saving; otherwise appends one record and saves. */
    method RegisterUser(username: string, email: string, password: string) returns (ok: bool)
      modifies this
      ensures ok <==> !EmailTaken(old(users), email)
      ensures users == if ok then old(users) + [UserRecord(username, email, hash(password))] else old(users)
      ensures ok ==> |users| == |old(users)| + 1
      ensures old(DistinctEmails(users)) ==> DistinctEmails(users)
    {
      var loaded := users;
      var i := 0;
      while i < |loaded|
        invariant 0 <= i <= |loaded|
        invariant forall j :: 0 <= j < i ==> loaded[j].email != email
      {
        if loaded[i].email == email {
          return false;
        }
        i := i + 1;
      }
      var hashed := hash(password);
      var rec := UserRecord(username, email, hashed);
      if DistinctEmails(loaded) {
        AppendKeepsDistinct(loaded, rec);
      }
      loaded := loaded + [rec];
      users := loaded;
      ok := true;
    }

    /** `login_user(email, password)`: scans for the first record with that email
        and returns the password check against it, or False. Reads only. */
    method LoginUser(email: string, password: string) returns (ok: bool)
      ensures ok == LoginOutcome(users, checkPassword, email, password)
    {
      var loaded := users;
      var i := 0;
      while i < |loaded|
        invariant 0 <= i <= |loaded|
        invariant forall j :: 0 <= j < i ==> loaded[j].email != email
      {
        if loaded[i].email == email {
          return checkPassword(password, loaded[i].password);
        }
        i := i + 1;
      }
      return false;
    }
  }
}
