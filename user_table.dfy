/**
 * The user table of the notes service: a map from e-mail address to `User`
 * (main.go:47-50). Accounts are added by signup and looked up by login; no
 * code path ever removes or updates one.
 */
module UserTable {
  import opened Types
  import opened Digits

  type Users = map<string, User>

  /** The ID signup gives the next account: `uint32(len(users) + 1)`. */
  function NextUserId(users: Users): uint32 {
    ToU32(|users| + 1)
  }

  /**
   * Signup of the decoded body `u`: `None` when the e-mail is already
   * registered, otherwise the new table. Whatever ID the client sent is
   * replaced by the next ID.
   */
  function Signup(users: Users, u: User): (r: Option<Users>)
    ensures r.None? <==> u.email in users
    ensures r.Some? ==>
      && u.email in r.value
      && r.value[u.email] == u.(id := NextUserId(users))
      && |r.value| == |users| + 1
      && (forall e | e != u.email :: e in r.value <==> e in users)
      && (forall e | e in users :: r.value[e] == users[e])
  {
    if u.email in users then None else Some(users[u.email := u.(id := NextUserId(users))])
  }

  /**
   * Login: the session identifier is the decimal form of the account's ID,
   * handed out exactly when the e-mail is registered and the stored password
   * is equal to the one given.
   */
  function Login(users: Users, email: string, password: string): (r: Option<string>)
    ensures r.Some? <==> email in users && users[email].password == password
    ensures r.Some? ==> r.value != [] && IsDigits(r.value) && ParseDecimal(r.value) == users[email].id as nat
  {
    if email in users && users[email].password == password then
      ParseDecimalInverts(users[email].id as nat);
      Some(Decimal(users[email].id as nat))
    else
      None
  }

  /** The set of account IDs in use. */
  ghost function Ids(users: Users): set<uint32> {
    set e | e in users :: users[e].id
  }

  /** The i-th account to sign up (from 0) carries the ID `uint32(i + 1)`. */
  ghost predicate IdsFollowOrder(users: Users, order: seq<string>) {
    forall i | 0 <= i < |order| :: order[i] in users && users[order[i]].id == ToU32(i + 1)
  }

  /** Every account is stored under its own e-mail, and appears in the signup order. */
  ghost predicate KeyedAndListed(users: Users, order: seq<string>) {
    forall e | e in users :: users[e].email == e && e in order
  }

  /** No e-mail signed up twice. */
  ghost predicate NoRepeats(order: seq<string>) {
    forall i, j | 0 <= i < j < |order| :: order[i] != order[j]
  }

  /**
   * The invariant of the user table, stated against the order in which the
   * accounts were created.
   */
  ghost predicate Registered(users: Users, order: seq<string>) {
    && |order| == |users|
    && IdsFollowOrder(users, order)
    && KeyedAndListed(users, order)
    && NoRepeats(order)
  }

  lemma EmptyIsRegistered()
    ensures Registered(map[], [])
  {
  }

  /** A successful signup keeps the invariant, with the new e-mail appended to the order. */
  lemma SignupKeepsRegistered(users: Users, order: seq<string>, u: User)
    requires Registered(users, order)
    requires u.email !in users
    ensures Signup(users, u).Some?
    ensures Registered(Signup(users, u).value, order + [u.email])
  {
    var users' := Signup(users, u).value;
    SignupKeepsIdsFollowOrder(users, order, u, users');
    SignupKeepsKeyedAndListed(users, order, u, users');
    SignupKeepsNoRepeats(users, order, u);
  }

  lemma SignupKeepsIdsFollowOrder(users: Users, order: seq<string>, u: User, users': Users)
    requires |order| == |users| && IdsFollowOrder(users, order)
    requires u.email !in users && users' == users[u.email := u.(id := NextUserId(users))]
    ensures IdsFollowOrder(users', order + [u.email])
  {
    var order' := order + [u.email];
    forall i | 0 <= i < |order'|
      ensures order'[i] in users' && users'[order'[i]].id == ToU32(i + 1)
    {
      if i < |order| {
        assert order'[i] == order[i];
      }
    }
  }

  lemma SignupKeepsKeyedAndListed(users: Users, order: seq<string>, u: User, users': Users)
    requires KeyedAndListed(users, order)
    requires users' == users[u.email := u.(id := NextUserId(users))]
    ensures KeyedAndListed(users', order + [u.email])
  {
    var order' := order + [u.email];
    forall e | e in users'
      ensures users'[e].email == e && e in order'
    {
      if e != u.email {
        var i :| 0 <= i < |order| && order[i] == e;
        assert order'[i] == e;
      }
      else {
        assert order'[|order|] == e;
      }
    }
  }

  lemma SignupKeepsNoRepeats(users: Users, order: seq<string>, u: User)
    requires NoRepeats(order)
    requires forall i | 0 <= i < |order| :: order[i] in users
    requires u.email !in users
    ensures NoRepeats(order + [u.email])
  {
    var order' := order + [u.email];
    forall i, j | 0 <= i < j < |order'|
      ensures order'[i] != order'[j]
    {
      assert order'[i] == order[i];
      if j < |order| {
        assert order'[j] == order[j];
      }
    }
  }

  /** While IDs have not wrapped, the i-th account to sign up carries ID i + 1. */
  lemma RegisteredIdByIndex(users: Users, order: seq<string>, i: nat)
    requires Registered(users, order)
    requires |users| < U32_MODULUS
    requires i < |order|
    ensures order[i] in users && users[order[i]].id as int == i + 1
  {
  }

  /** While fewer than 2^32 accounts exist, every account ID lies in 1..|users|. */
  lemma RegisteredIdsInRange(users: Users, order: seq<string>)
    requires Registered(users, order)
    requires |users| < U32_MODULUS
    ensures forall e | e in users :: 1 <= users[e].id as int <= |users|
  {
    forall e | e in users
      ensures 1 <= users[e].id as int <= |users|
    {
      var i :| 0 <= i < |order| && order[i] == e;
      RegisteredIdByIndex(users, order, i);
    }
  }

  /** While fewer than 2^32 accounts exist, every ID in 1..|users| belongs to an account. */
  lemma RegisteredIdsCovered(users: Users, order: seq<string>)
    requires Registered(users, order)
    requires |users| < U32_MODULUS
    ensures forall k: uint32 | 1 <= k as int <= |users| :: k in Ids(users)
  {
    forall k: uint32 | 1 <= k as int <= |users|
      ensures k in Ids(users)
    {
      RegisteredIdByIndex(users, order, k as nat - 1);
    }
  }

  /** While fewer than 2^32 accounts exist, no two accounts share an ID. */
  lemma RegisteredIdsUnique(users: Users, order: seq<string>)
    requires Registered(users, order)
    requires |users| < U32_MODULUS
    ensures forall e1, e2 | e1 in users && e2 in users && e1 != e2 :: users[e1].id != users[e2].id
  {
    forall e1, e2 | e1 in users && e2 in users && e1 != e2
      ensures users[e1].id != users[e2].id
    {
      var i :| 0 <= i < |order| && order[i] == e1;
      var j :| 0 <= j < |order| && order[j] == e2;
      RegisteredIdByIndex(users, order, i);
      RegisteredIdByIndex(users, order, j);
    }
  }

  /**
   * The ID arithmetic wraps: once 2^32 accounts exist, the next signup is
   * given ID 1 again, which the first account already carries.
   */
  lemma SignupIdWrapsAround(users: Users, order: seq<string>, u: User)
    requires Registered(users, order)
    requires |users| == U32_MODULUS
    requires u.email !in users
    ensures Signup(users, u).value[u.email].id == 1
    ensures order[0] in users && users[order[0]].id == 1 && order[0] != u.email
  {
  }

  /** Logging in right after a successful signup with the same credentials succeeds with the new ID. */
  lemma LoginAfterSignup(users: Users, u: User)
    requires u.email !in users
    ensures Login(Signup(users, u).value, u.email, u.password) == Some(Decimal(NextUserId(users) as nat))
  {
  }

  /**
   * Session identifiers tell accounts apart while IDs have not wrapped:
   * two successful logins under different e-mails yield different sids.
   */
  lemma SessionIdsDistinct(users: Users, order: seq<string>, e1: string, p1: string, e2: string, p2: string)
    requires Registered(users, order)
    requires |users| < U32_MODULUS
    requires Login(users, e1, p1).Some? && Login(users, e2, p2).Some?
    requires e1 != e2
    ensures Login(users, e1, p1).value != Login(users, e2, p2).value
  {
    RegisteredIdsUnique(users, order);
  }
}
