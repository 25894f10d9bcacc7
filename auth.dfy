/**
 * `Auth` (auth.py): registration with several passwords and threshold
 * verification. A user passes when at least `required_passwords` of the presented
 * passwords each match one of their stored hashes; a hash may be matched by any
 * number of presented passwords. bcrypt is abstract: a pair of functions whose
 * only relied-on property, `Sound`, is a hypothesis of the lemmas that need it.
 */
module Auth {
  import opened Wrappers
  import opened Ordering
  import opened DateTimes
  import opened Store

  /** `bcrypt.hashpw(password, salt)` and `bcrypt.checkpw(password, hash)`. */
  datatype Hasher = Hasher(hashpw: (string, string) -> string, checkpw: (string, string) -> bool)

  /** A password checks against every hash made from it, whatever the salt. */
  ghost predicate Sound(h: Hasher) {
    forall password, salt :: h.checkpw(password, h.hashpw(password, salt))
  }

  /** `get_security_requirements(user_id)`: the stored row, or 1 password and 0 passkeys. */
  function SecurityRequirements(t: Tables, userId: int): (r: Requirements)
    ensures userId in t.requirements ==> r == t.requirements[userId]
    ensures userId !in t.requirements ==> r == Requirements(1, 0)
  {
    if userId in t.requirements then t.requirements[userId] else Requirements(1, 0)
  }

  /** `SELECT password_hash FROM passwords WHERE user_id = ?`, in insertion order. */
  function HashesOf(rows: seq<PasswordRow>, userId: int): (r: seq<string>)
    ensures |r| <= |rows|
  {
    if rows == [] then []
    else HashesOf(rows[..|rows| - 1], userId) + (if rows[|rows| - 1].userId == userId then [rows[|rows| - 1].passwordHash] else [])
  }

  /** The hashes selected are exactly those of the rows stored for that user. */
  lemma {:induction false} HashesOfMembers(rows: seq<PasswordRow>, userId: int)
    ensures forall h :: h in HashesOf(rows, userId) <==>
      exists i :: 0 <= i < |rows| && rows[i].userId == userId && rows[i].passwordHash == h
  {
    if rows != [] {
      var init, last := rows[..|rows| - 1], rows[|rows| - 1];
      HashesOfMembers(init, userId);
      forall h
        ensures h in HashesOf(rows, userId) <==>
          exists i :: 0 <= i < |rows| && rows[i].userId == userId && rows[i].passwordHash == h
      {
        if h in HashesOf(init, userId) {
          var i :| 0 <= i < |init| && init[i].userId == userId && init[i].passwordHash == h;
          assert rows[i] == init[i];
        }
        if exists i :: 0 <= i < |rows| && rows[i].userId == userId && rows[i].passwordHash == h {
          var i :| 0 <= i < |rows| && rows[i].userId == userId && rows[i].passwordHash == h;
          if i < |init| {
            assert init[i] == rows[i];
          }
        }
      }
    }
  }

  function StoredHashes(t: Tables, userId: int): seq<string> {
    HashesOf(t.passwords, userId)
  }

  /** `SELECT * FROM users WHERE username = ?`: the matching user's id, if any. */
  function UserIdByName(t: Tables, username: string): (r: Option<int>)
    ensures r.Some? ==> r.value in t.users && t.users[r.value].username == username
  {
    var ids := IdsWhere(t.lastUserId, id => id in t.users && t.users[id].username == username);
    if ids == [] then None else assert ids[0] in ids; Some(ids[0])
  }

  /** The inner loop: some stored hash accepts the password. */
  predicate Matches(checkpw: (string, string) -> bool, password: string, hashes: seq<string>) {
    exists k :: 0 <= k < |hashes| && checkpw(password, hashes[k])
  }

  /** `verified_count`: how many presented passwords match some stored hash. */
  function CountVerified(presented: seq<string>, hashes: seq<string>, checkpw: (string, string) -> bool): (n: nat)
    ensures n <= |presented|
  {
    if presented == [] then 0
    else CountVerified(presented[..|presented| - 1], hashes, checkpw)
         + (if Matches(checkpw, presented[|presented| - 1], hashes) then 1 else 0)
  }

  /**
   * `verify_user(username, passwords)`: the user's id when verification passes, None
   * otherwise. An absent list (Python None) is the empty one.
   */
  function VerifyOutcome(t: Tables, username: string, presented: seq<string>, checkpw: (string, string) -> bool): Option<int> {
    match UserIdByName(t, username)
    case None => None
    case Some(userId) =>
      var required := SecurityRequirements(t, userId).requiredPasswords;
      if required > 0 && |presented| > 0 then
        if |presented| < required then None
        else if CountVerified(presented, StoredHashes(t, userId), checkpw) < required then None
        else Some(userId)
      else Some(userId)
  }

  /** `verify_user`, step by step: the lookups, then the counting loop with its early `break`. */
  method VerifyUser(db: Database, username: string, presented: seq<string>, checkpw: (string, string) -> bool)
    returns (r: Option<int>)
    ensures r == VerifyOutcome(db.Snapshot(), username, presented, checkpw)
  {
    var user := UserIdByName(db.Snapshot(), username);
    if user.None? {
      return None;
    }
    var userId := user.value;
    var requiredPasswords := SecurityRequirements(db.Snapshot(), userId).requiredPasswords;
    if requiredPasswords > 0 && |presented| > 0 {
      var hashes := StoredHashes(db.Snapshot(), userId);
      if |presented| < requiredPasswords {
        return None;
      }
      var verified := 0;
      var i := 0;
      while i < |presented|
        invariant 0 <= i <= |presented|
        invariant verified == CountVerified(presented[..i], hashes, checkpw)
      {
        ghost var before := verified;
        var j := 0;
        while j < |hashes|
          invariant 0 <= j <= |hashes|
          invariant verified == before
          invariant forall k :: 0 <= k < j ==> !checkpw(presented[i], hashes[k])
        {
          if checkpw(presented[i], hashes[j]) {
            verified := verified + 1;
            break;
          }
          j := j + 1;
        }
        assert presented[..i + 1][..i] == presented[..i];
        i := i + 1;
      }
      assert presented[..i] == presented;
      if verified < requiredPasswords {
        return None;
      }
    }
    r := Some(userId);
  }

  // ---- what verification promises ----

  lemma UserIdByNameCorrect(t: Tables, username: string)
    requires Consistent(t)
    ensures UserIdByName(t, username).None? <==> username !in Usernames(t.users)
    ensures forall id :: id in t.users && t.users[id].username == username ==> UserIdByName(t, username) == Some(id)
  {
    if username in Usernames(t.users) {
      var id :| id in t.users && t.users[id].username == username;
      assert id in IdsWhere(t.lastUserId, id => id in t.users && t.users[id].username == username);
    } else {
      assert forall id :: id in t.users ==> t.users[id].username in Usernames(t.users);
    }
  }

  /** An unknown username never verifies. */
  lemma UnknownUserFails(t: Tables, username: string, presented: seq<string>, checkpw: (string, string) -> bool)
    requires Consistent(t) && username !in Usernames(t.users)
    ensures VerifyOutcome(t, username, presented, checkpw) == None
  {
    UserIdByNameCorrect(t, username);
  }

  /**
   * The password check is skipped, and the user returned, when no password is
   * presented or none is required, whatever the stored hashes.
   */
  lemma CheckSkipped(t: Tables, userId: int, presented: seq<string>, checkpw: (string, string) -> bool)
    requires Consistent(t) && userId in t.users
    requires presented == [] || SecurityRequirements(t, userId).requiredPasswords <= 0
    ensures VerifyOutcome(t, t.users[userId].username, presented, checkpw) == Some(userId)
  {
    UserIdByNameCorrect(t, t.users[userId].username);
  }

  /** A non-empty list shorter than the requirement fails before any hash is checked. */
  lemma ShortListFails(t: Tables, userId: int, presented: seq<string>, checkpw: (string, string) -> bool)
    requires Consistent(t) && userId in t.users
    requires 0 < |presented| < SecurityRequirements(t, userId).requiredPasswords
    ensures VerifyOutcome(t, t.users[userId].username, presented, checkpw) == None
  {
    UserIdByNameCorrect(t, t.users[userId].username);
  }

  /** On the checked path, verification passes exactly when enough presented passwords match. */
  lemma ThresholdDecides(t: Tables, userId: int, presented: seq<string>, checkpw: (string, string) -> bool)
    requires Consistent(t) && userId in t.users
    requires SecurityRequirements(t, userId).requiredPasswords > 0 && presented != []
    ensures VerifyOutcome(t, t.users[userId].username, presented, checkpw) == Some(userId) <==>
      CountVerified(presented, StoredHashes(t, userId), checkpw) >= SecurityRequirements(t, userId).requiredPasswords
    ensures VerifyOutcome(t, t.users[userId].username, presented, checkpw) in {None, Some(userId)}
  {
    UserIdByNameCorrect(t, t.users[userId].username);
  }

  /** Without a requirements row, one matching password among those presented is enough. */
  lemma MissingRequirementsNeedOne(t: Tables, userId: int, presented: seq<string>, checkpw: (string, string) -> bool)
    requires Consistent(t) && userId in t.users && userId !in t.requirements && presented != []
    ensures SecurityRequirements(t, userId) == Requirements(1, 0)
    ensures VerifyOutcome(t, t.users[userId].username, presented, checkpw) == Some(userId) <==>
      exists i :: 0 <= i < |presented| && Matches(checkpw, presented[i], StoredHashes(t, userId))
  {
    ThresholdDecides(t, userId, presented, checkpw);
    CountPositive(presented, StoredHashes(t, userId), checkpw);
  }

  /** The passkey requirement never changes the outcome. */
  lemma PasskeysIgnored(t: Tables, userId: int, passkeys: int, username: string, presented: seq<string>,
                        checkpw: (string, string) -> bool)
    requires userId in t.requirements
    ensures var t' := t.(requirements := t.requirements[userId := t.requirements[userId].(requiredPasskeys := passkeys)]);
      VerifyOutcome(t', username, presented, checkpw) == VerifyOutcome(t, username, presented, checkpw)
  {
    var t' := t.(requirements := t.requirements[userId := t.requirements[userId].(requiredPasskeys := passkeys)]);
    assert UserIdByName(t', username) == UserIdByName(t, username);
    forall u
      ensures SecurityRequirements(t', u).requiredPasswords == SecurityRequirements(t, u).requiredPasswords
    {
    }
  }

  // ---- the count ----

  lemma {:induction false} CountAppend(a: seq<string>, b: seq<string>, hashes: seq<string>, checkpw: (string, string) -> bool)
    ensures CountVerified(a + b, hashes, checkpw) == CountVerified(a, hashes, checkpw) + CountVerified(b, hashes, checkpw)
    decreases |b|
  {
    if b == [] {
      assert a + b == a;
    } else {
      var b' := b[..|b| - 1];
      CountAppend(a, b', hashes, checkpw);
      assert (a + b)[..|a + b| - 1] == a + b';
    }
  }

  /** The count is positive exactly when some presented password matches. */
  lemma {:induction false} CountPositive(presented: seq<string>, hashes: seq<string>, checkpw: (string, string) -> bool)
    ensures CountVerified(presented, hashes, checkpw) > 0 <==>
      exists i :: 0 <= i < |presented| && Matches(checkpw, presented[i], hashes)
  {
    if presented != [] {
      var init := presented[..|presented| - 1];
      CountPositive(init, hashes, checkpw);
      if exists i :: 0 <= i < |init| && Matches(checkpw, init[i], hashes) {
        var i :| 0 <= i < |init| && Matches(checkpw, init[i], hashes);
        assert presented[i] == init[i];
      }
      if exists i :: 0 <= i < |presented| && Matches(checkpw, presented[i], hashes) {
        var i :| 0 <= i < |presented| && Matches(checkpw, presented[i], hashes);
        if i < |init| {
          assert init[i] == presented[i];
        }
      }
    }
  }

  /** Each presented password counts once however many hashes it matches: the count is the number of matching positions. */
  lemma {:induction false} CountOfMatching(presented: seq<string>, hashes: seq<string>, checkpw: (string, string) -> bool)
    requires forall i :: 0 <= i < |presented| ==> Matches(checkpw, presented[i], hashes)
    ensures CountVerified(presented, hashes, checkpw) == |presented|
  {
    if presented != [] {
      CountOfMatching(presented[..|presented| - 1], hashes, checkpw);
    }
  }

  /** One correct password repeated k times meets a threshold of k: hashes are not used up. */
  lemma RepeatedPasswordCounts(password: string, k: nat, hashes: seq<string>, checkpw: (string, string) -> bool)
    requires Matches(checkpw, password, hashes)
    ensures CountVerified(seq(k, _ => password), hashes, checkpw) == k
  {
    CountOfMatching(seq(k, _ => password), hashes, checkpw);
  }

  /** The count, and so the outcome, does not depend on the order of the presented passwords. */
  lemma {:induction false} CountPermutation(ps: seq<string>, qs: seq<string>, hashes: seq<string>, checkpw: (string, string) -> bool)
    requires multiset(ps) == multiset(qs)
    ensures CountVerified(ps, hashes, checkpw) == CountVerified(qs, hashes, checkpw)
    decreases |ps|
  {
    if ps != [] {
      var x := ps[|ps| - 1];
      var init := ps[..|ps| - 1];
      assert ps == init + [x];
      assert x in multiset(qs);
      var k :| 0 <= k < |qs| && qs[k] == x;
      var rest := qs[..k] + qs[k + 1..];
      assert qs == qs[..k] + [x] + qs[k + 1..];
      assert multiset(init) == multiset(rest) by {
        assert multiset(ps) == multiset(init) + multiset{x};
        assert multiset(qs) == multiset(qs[..k]) + multiset{x} + multiset(qs[k + 1..]);
        assert multiset(rest) == multiset(qs[..k]) + multiset(qs[k + 1..]);
        assert multiset(init) == multiset(ps) - multiset{x};
        assert multiset(rest) == multiset(qs) - multiset{x};
      }
      CountPermutation(init, rest, hashes, checkpw);
      CountAppend(qs[..k], [x], hashes, checkpw);
      CountAppend(qs[..k] + [x], qs[k + 1..], hashes, checkpw);
      CountAppend(qs[..k], qs[k + 1..], hashes, checkpw);
      assert [x][..0] == [];
    }
  }

  lemma OrderIrrelevant(t: Tables, username: string, ps: seq<string>, qs: seq<string>, checkpw: (string, string) -> bool)
    requires multiset(ps) == multiset(qs)
    ensures VerifyOutcome(t, username, ps, checkpw) == VerifyOutcome(t, username, qs, checkpw)
  {
    assert |ps| == |qs| by {
      assert |multiset(ps)| == |multiset(qs)|;
    }
    if UserIdByName(t, username).Some? {
      CountPermutation(ps, qs, StoredHashes(t, UserIdByName(t, username).value), checkpw);
    }
  }

  // ---- registration ----

  /** The rows `create_user` adds: one hash per given password, in order, each with its own salt. */
  function HashedRows(userId: int, passwords: seq<string>, h: Hasher, salt: nat -> string): (r: seq<PasswordRow>)
    ensures |r| == |passwords|
    ensures forall i :: 0 <= i < |passwords| ==> r[i] == PasswordRow(userId, h.hashpw(passwords[i], salt(i)))
  {
    seq(|passwords|, i requires 0 <= i < |passwords| => PasswordRow(userId, h.hashpw(passwords[i], salt(i))))
  }

  /**
   * `create_user`: the user under the next id, its requirements as given (not
   * checked against the number of passwords), and one hashed row per password. A
   * taken username makes the first INSERT raise; the transaction is rolled back.
   */
  function Register(t: Tables, username: string, passwords: seq<string>, requiredPasswords: int, requiredPasskeys: int,
                    h: Hasher, salt: nat -> string, now: DateTime): (Result<int, StoreError>, Tables)
  {
    if username in Usernames(t.users) then (Err(DuplicateUsername), t)
    else
      var userId := t.lastUserId + 1;
      (Ok(userId), t.(users := t.users[userId := User(username, now)], lastUserId := userId,
                      requirements := t.requirements[userId := Requirements(requiredPasswords, requiredPasskeys)],
                      passwords := t.passwords + HashedRows(userId, passwords, h, salt)))
  }

  /** `create_user`, step by step: the two INSERTs, then one INSERT per password. */
  method CreateUser(db: Database, username: string, passwords: seq<string>, requiredPasswords: int, requiredPasskeys: int,
                    h: Hasher, salt: nat -> string, now: DateTime) returns (r: Result<int, StoreError>)
    requires db.Valid()
    modifies db
    ensures db.Valid()
    ensures (r, db.Snapshot()) == Register(old(db.Snapshot()), username, passwords, requiredPasswords, requiredPasskeys, h, salt, now)
  {
    if username in Usernames(db.users) {
      return Err(DuplicateUsername);
    }
    ghost var t0 := db.Snapshot();
    var userId := db.lastUserId + 1;
    db.users := db.users[userId := User(username, now)];
    db.lastUserId := userId;
    db.requirements := db.requirements[userId := Requirements(requiredPasswords, requiredPasskeys)];
    var i := 0;
    while i < |passwords|
      invariant 0 <= i <= |passwords|
      invariant db.passwords == t0.passwords + HashedRows(userId, passwords[..i], h, salt)
      invariant db.Snapshot().(passwords := t0.passwords) == Register(t0, username, passwords, requiredPasswords, requiredPasskeys, h, salt, now).1.(passwords := t0.passwords)
    {
      db.passwords := db.passwords + [PasswordRow(userId, h.hashpw(passwords[i], salt(i)))];
      assert HashedRows(userId, passwords[..i + 1], h, salt) == HashedRows(userId, passwords[..i], h, salt) + [PasswordRow(userId, h.hashpw(passwords[i], salt(i)))];
      i := i + 1;
    }
    assert passwords[..i] == passwords;
    RegisterConsistent(t0, username, passwords, requiredPasswords, requiredPasskeys, h, salt, now);
    r := Ok(userId);
  }

  /** Registration keeps the store's invariant; a taken username leaves the store unchanged. */
  lemma RegisterConsistent(t: Tables, username: string, passwords: seq<string>, requiredPasswords: int, requiredPasskeys: int,
                           h: Hasher, salt: nat -> string, now: DateTime)
    requires Consistent(t)
    ensures var (r, t') := Register(t, username, passwords, requiredPasswords, requiredPasskeys, h, salt, now);
      && Consistent(t')
      && (r.Err? <==> username in Usernames(t.users))
      && (r.Err? ==> t' == t)
  {
    var (r, t') := Register(t, username, passwords, requiredPasswords, requiredPasskeys, h, salt, now);
    if r.Ok? {
      var userId := t.lastUserId + 1;
      forall a, b | a in t'.users && b in t'.users && a != b
        ensures t'.users[a].username != t'.users[b].username
      {
        if a == userId {
          assert t.users[b].username in Usernames(t.users);
        } else if b == userId {
          assert t.users[a].username in Usernames(t.users);
        }
      }
    }
  }

  lemma {:induction false} HashesOfAppend(a: seq<PasswordRow>, b: seq<PasswordRow>, userId: int)
    ensures HashesOf(a + b, userId) == HashesOf(a, userId) + HashesOf(b, userId)
    decreases |b|
  {
    if b == [] {
      assert a + b == a;
    } else {
      HashesOfAppend(a, b[..|b| - 1], userId);
      assert (a + b)[..|a + b| - 1] == a + b[..|b| - 1];
    }
  }

  lemma {:induction false} HashesOfOthers(rows: seq<PasswordRow>, userId: int)
    requires forall i :: 0 <= i < |rows| ==> rows[i].userId < userId
    ensures HashesOf(rows, userId) == []
  {
    if rows != [] {
      HashesOfOthers(rows[..|rows| - 1], userId);
    }
  }

  lemma {:induction false} HashesOfOwn(rows: seq<PasswordRow>, userId: int)
    requires forall i :: 0 <= i < |rows| ==> rows[i].userId == userId
    ensures HashesOf(rows, userId) == seq(|rows|, i requires 0 <= i < |rows| => rows[i].passwordHash)
  {
    if rows != [] {
      HashesOfOwn(rows[..|rows| - 1], userId);
    }
  }

  /** A new user's stored hashes are exactly the hashes of the passwords given, one each, in order. */
  lemma RegisteredHashes(t: Tables, username: string, passwords: seq<string>, requiredPasswords: int, requiredPasskeys: int,
                         h: Hasher, salt: nat -> string, now: DateTime)
    requires Consistent(t) && username !in Usernames(t.users)
    ensures var t' := Register(t, username, passwords, requiredPasswords, requiredPasskeys, h, salt, now).1;
      var userId := t.lastUserId + 1;
      && |StoredHashes(t', userId)| == |passwords|
      && (forall i :: 0 <= i < |passwords| ==> StoredHashes(t', userId)[i] == h.hashpw(passwords[i], salt(i)))
      && SecurityRequirements(t', userId) == Requirements(requiredPasswords, requiredPasskeys)
  {
    var userId := t.lastUserId + 1;
    var rows := HashedRows(userId, passwords, h, salt);
    HashesOfAppend(t.passwords, rows, userId);
    HashesOfOthers(t.passwords, userId);
    HashesOfOwn(rows, userId);
    assert t.passwords + [] == t.passwords;
  }

  /**
   * With a sound hash, a freshly registered user presenting the passwords they
   * registered with passes verification exactly when the check is skipped or there
   * are at least as many passwords as required (the condition the registration
   * form enforces).
   */
  lemma RegisteredUserVerifies(t: Tables, username: string, passwords: seq<string>, requiredPasswords: int, requiredPasskeys: int,
                               h: Hasher, salt: nat -> string, now: DateTime)
    requires Consistent(t) && username !in Usernames(t.users) && Sound(h)
    ensures var t' := Register(t, username, passwords, requiredPasswords, requiredPasskeys, h, salt, now).1;
      VerifyOutcome(t', username, passwords, h.checkpw) == Some(t.lastUserId + 1) <==>
        (passwords == [] || requiredPasswords <= |passwords|)
  {
    var t' := Register(t, username, passwords, requiredPasswords, requiredPasskeys, h, salt, now).1;
    var userId := t.lastUserId + 1;
    RegisterConsistent(t, username, passwords, requiredPasswords, requiredPasskeys, h, salt, now);
    RegisteredHashes(t, username, passwords, requiredPasswords, requiredPasskeys, h, salt, now);
    UserIdByNameCorrect(t', username);
    assert t'.users[userId].username == username;
    var hashes := StoredHashes(t', userId);
    forall i | 0 <= i < |passwords|
      ensures Matches(h.checkpw, passwords[i], hashes)
    {
      assert h.checkpw(passwords[i], hashes[i]);
    }
    CountOfMatching(passwords, hashes, h.checkpw);
  }
}
