/** The verification-code lifecycle of sign-in: a six-digit code is
    generated from a random number, stored for five minutes (replacing any
    earlier code of the same identifier), checked with an attempt counter,
    and consumed on success, when the user is found or created. Expired
    codes can be swept.

    The code and user tables are immutable values; identifiers the
    database would generate are taken from a counter. Time is milliseconds
    since the epoch, passed in. */
module VerificationCodes {
  import opened Wrappers
  import opened Text

  const CodeLifetimeMs: nat := 300000

  datatype Code = Code(id: nat, identifier: string, code: string, expiresAt: int, attempts: nat, createdAt: int)

  datatype User = User(id: nat, email: Option<string>, phone: Option<string>, lastLoginAt: int)

  datatype AuthStore = AuthStore(codes: seq<Code>, users: seq<User>, nextId: nat)

  // ---------------------------------------------------------------------
  // generateVerificationCode
  // ---------------------------------------------------------------------

  /** `Math.floor(100000 + r * 900000)` for the random number `r`. */
  function CodeNumber(r: real): (n: nat)
    requires 0.0 <= r < 1.0
    ensures 100000 <= n <= 999999
  {
    (100000.0 + r * 900000.0).Floor
  }

  /** `generateVerificationCode()`, with `Math.random()` as the parameter. */
  function GenerateVerificationCode(r: real): (code: string)
    requires 0.0 <= r < 1.0
    ensures |code| == 6 && AllDigits(code)
    ensures DecimalValue(code) == CodeNumber(r)
  {
    var n := CodeNumber(r);
    assert Pow10(5) == 100000 && Pow10(6) == 1000000;
    NatToStringLength(n, 6);
    NatToStringRoundTrip(n);
    NatToString(n)
  }

  // ---------------------------------------------------------------------
  // createVerificationCode
  // ---------------------------------------------------------------------

  function CodesOf(codes: seq<Code>, identifier: string): (r: seq<Code>)
    ensures forall c :: c in r <==> c in codes && c.identifier == identifier
  {
    if |codes| == 0 then []
    else
      var rest := CodesOf(codes[1..], identifier);
      assert forall c :: c in codes <==> c == codes[0] || c in codes[1..];
      if codes[0].identifier == identifier then [codes[0]] + rest else rest
  }

  /** `deleteMany({ where })` keeping the rows for which `keep` holds. */
  function RemoveIdentifier(codes: seq<Code>, identifier: string): (r: seq<Code>)
    ensures forall c :: c in r <==> c in codes && c.identifier != identifier
    ensures |r| <= |codes|
  {
    if |codes| == 0 then []
    else
      var rest := RemoveIdentifier(codes[1..], identifier);
      assert forall c :: c in codes <==> c == codes[0] || c in codes[1..];
      if codes[0].identifier != identifier then [codes[0]] + rest else rest
  }

  /** At most one stored code per identifier. */
  predicate OneCodePerIdentifier(codes: seq<Code>) {
    forall i, j | 0 <= i < j < |codes| :: codes[i].identifier != codes[j].identifier
  }

  /** Row ids are unique and below the next id to hand out. */
  predicate IdsFresh(st: AuthStore) {
    (forall i | 0 <= i < |st.codes| :: st.codes[i].id < st.nextId)
    && (forall i | 0 <= i < |st.users| :: st.users[i].id < st.nextId)
  }

  lemma {:induction false} RemoveKeepsOne(codes: seq<Code>, identifier: string)
    requires OneCodePerIdentifier(codes)
    ensures OneCodePerIdentifier(RemoveIdentifier(codes, identifier))
    decreases |codes|
  {
    if |codes| > 0 {
      RemoveKeepsOne(codes[1..], identifier);
      var rest := RemoveIdentifier(codes[1..], identifier);
      if codes[0].identifier != identifier {
        forall j | 0 <= j < |rest| ensures codes[0].identifier != rest[j].identifier {
          assert rest[j] in codes[1..];
        }
      }
    }
  }

  datatype Created = Created(expiresAt: int, store: AuthStore)

  /** `createVerificationCode(identifier)` at time `now` with random `r`:
      every earlier code of the identifier is deleted and a new one with
      no attempts, expiring five minutes later, is stored. */
  function CreateVerificationCode(st: AuthStore, identifier: string, r: real, now: int): (c: Created)
    requires 0.0 <= r < 1.0
    ensures c.expiresAt == now + CodeLifetimeMs
    ensures CodesOf(c.store.codes, identifier) == [Code(st.nextId, identifier, GenerateVerificationCode(r), now + CodeLifetimeMs, 0, now)]
    ensures forall x | x in st.codes && x.identifier != identifier :: x in c.store.codes
    ensures forall x | x in c.store.codes && x.identifier != identifier :: x in st.codes
    ensures c.store.users == st.users
    ensures OneCodePerIdentifier(st.codes) ==> OneCodePerIdentifier(c.store.codes)
  {
    var newCode := Code(st.nextId, identifier, GenerateVerificationCode(r), now + CodeLifetimeMs, 0, now);
    var kept := RemoveIdentifier(st.codes, identifier);
    var codes := kept + [newCode];
    CodesOfAppendOnly(kept, newCode, identifier);
    assert OneCodePerIdentifier(st.codes) ==> OneCodePerIdentifier(codes) by {
      if OneCodePerIdentifier(st.codes) {
        RemoveKeepsOne(st.codes, identifier);
        assert forall x | x in kept :: x.identifier != identifier;
      }
    }
    Created(now + CodeLifetimeMs, AuthStore(codes, st.users, st.nextId + 1))
  }

  lemma {:induction false} CodesOfAppendOnly(kept: seq<Code>, newCode: Code, identifier: string)
    requires forall x | x in kept :: x.identifier != identifier
    requires newCode.identifier == identifier
    ensures CodesOf(kept + [newCode], identifier) == [newCode]
    decreases |kept|
  {
    if |kept| == 0 {
      assert [newCode][1..] == [];
    } else {
      assert (kept + [newCode])[1..] == kept[1..] + [newCode];
      CodesOfAppendOnly(kept[1..], newCode, identifier);
    }
  }

  // ---------------------------------------------------------------------
  // verifyCode
  // ---------------------------------------------------------------------

  /** The identifier's newest code, as `findFirst(orderBy createdAt desc)`
      finds it (on equal creation times, the later row). */
  function Newest(codes: seq<Code>, identifier: string): (r: Option<Code>)
    ensures r.None? <==> forall i | 0 <= i < |codes| :: codes[i].identifier != identifier
    ensures r.Some? ==> r.value in codes && r.value.identifier == identifier
    ensures r.Some? ==> forall i | 0 <= i < |codes| && codes[i].identifier == identifier :: codes[i].createdAt <= r.value.createdAt
  {
    if |codes| == 0 then None
    else
      var init := codes[..|codes| - 1];
      var last := codes[|codes| - 1];
      var before := Newest(init, identifier);
      assert forall i | 0 <= i < |init| :: codes[i] == init[i];
      if last.identifier != identifier then before
      else if before.Some? && before.value.createdAt > last.createdAt then before
      else Some(last)
  }

  /** `delete({ where: { id } })`. */
  function DeleteCode(codes: seq<Code>, id: nat): (r: seq<Code>)
    ensures forall c :: c in r <==> c in codes && c.id != id
  {
    if |codes| == 0 then []
    else
      var rest := DeleteCode(codes[1..], id);
      assert forall c :: c in codes <==> c == codes[0] || c in codes[1..];
      if codes[0].id == id then rest else [codes[0]] + rest
  }

  /** `update({ where: { id }, data: { attempts } })`. */
  function SetAttempts(codes: seq<Code>, id: nat, attempts: nat): (r: seq<Code>)
    ensures |r| == |codes|
    ensures forall i | 0 <= i < |codes| ::
      r[i] == if codes[i].id == id then codes[i].(attempts := attempts) else codes[i]
  {
    seq(|codes|, i requires 0 <= i < |codes| => if codes[i].id == id then codes[i].(attempts := attempts) else codes[i])
  }

  /** The user lookup: by e-mail when the identifier contains '@', else by
      phone. */
  function FindUser(users: seq<User>, identifier: string): (r: Option<User>)
    ensures r.Some? ==> r.value in users
    ensures r.Some? && Contains(identifier, "@") ==> r.value.email == Some(identifier)
    ensures r.Some? && !Contains(identifier, "@") ==> r.value.phone == Some(identifier)
    ensures r.None? ==> forall u | u in users ::
      (if Contains(identifier, "@") then u.email else u.phone) != Some(identifier)
  {
    if |users| == 0 then None
    else
      var u := users[0];
      var key := if Contains(identifier, "@") then u.email else u.phone;
      if key == Some(identifier) then Some(u)
      else
        var rest := FindUser(users[1..], identifier);
        assert forall v | v in users :: v == u || v in users[1..];
        rest
  }

  /** `update({ where: { id }, data: { lastLoginAt } })` on users. */
  function TouchUser(users: seq<User>, id: nat, now: int): (r: seq<User>)
    ensures |r| == |users|
    ensures forall i | 0 <= i < |users| ::
      r[i] == if users[i].id == id then users[i].(lastLoginAt := now) else users[i]
  {
    seq(|users|, i requires 0 <= i < |users| => if users[i].id == id then users[i].(lastLoginAt := now) else users[i])
  }

  datatype Verification = Verified(userId: nat) | Rejected(message: string)

  const NoCodeMessage := "No verification code found for this identifier"
  const ExpiredMessage := "Verification code has expired"
  const InvalidMessage := "Invalid verification code"

  datatype Verify = Verify(result: Verification, store: AuthStore)

  /** `verifyCode(identifier, code)` at time `now`: the identifier's newest
      code is checked; without one the request is rejected and nothing
      changes. */
  function VerifyCode(st: AuthStore, identifier: string, code: string, now: int): (v: Verify)
    ensures Newest(st.codes, identifier).None? ==> v == Verify(Rejected(NoCodeMessage), st)
    ensures var f := Newest(st.codes, identifier);
      v.result.Verified? <==> f.Some? && now <= f.value.expiresAt && f.value.code == code
    ensures v.result.Verified? ==> exists u | u in v.store.users ::
      u.id == v.result.userId && (if Contains(identifier, "@") then u.email else u.phone) == Some(identifier)
  {
    var found := Newest(st.codes, identifier);
    if found.None? then Verify(Rejected(NoCodeMessage), st)
    else CheckCode(st, identifier, found.value, code, now)
  }

  /** The checks on the code `vc` that was found: expiry first (the code is
      deleted), then the attempt counter is raised, then the comparison;
      on a match the user signs in and the code is deleted. */
  function CheckCode(st: AuthStore, identifier: string, vc: Code, code: string, now: int): (v: Verify)
    ensures v.result.Verified? <==> now <= vc.expiresAt && vc.code == code
    ensures now > vc.expiresAt ==>
      v == Verify(Rejected(ExpiredMessage), st.(codes := DeleteCode(st.codes, vc.id)))
    ensures now <= vc.expiresAt && vc.code != code ==>
      v == Verify(Rejected(InvalidMessage), st.(codes := SetAttempts(st.codes, vc.id, vc.attempts + 1)))
    ensures v.result.Verified? ==> v.store.codes == DeleteCode(SetAttempts(st.codes, vc.id, vc.attempts + 1), vc.id)
    ensures v.result.Verified? ==> exists u | u in v.store.users ::
      u.id == v.result.userId && (if Contains(identifier, "@") then u.email else u.phone) == Some(identifier)
  {
    if now > vc.expiresAt then
      Verify(Rejected(ExpiredMessage), st.(codes := DeleteCode(st.codes, vc.id)))
    else
      var counted := SetAttempts(st.codes, vc.id, vc.attempts + 1);
      if vc.code != code then Verify(Rejected(InvalidMessage), st.(codes := counted))
      else
        var s := SignIn(st.users, identifier, st.nextId, now);
        Verify(Verified(s.userId), AuthStore(DeleteCode(counted, vc.id), s.users, s.nextId))
  }

  datatype SignedIn = SignedIn(userId: nat, users: seq<User>, nextId: nat)

  /** The user half of a successful verification: the user found by
      e-mail or phone has its last login set to `now`; otherwise a user
      with that e-mail or phone is created under the next id. */
  function SignIn(users: seq<User>, identifier: string, nextId: nat, now: int): (s: SignedIn)
    ensures exists u | u in s.users ::
      u.id == s.userId && (if Contains(identifier, "@") then u.email else u.phone) == Some(identifier)
    ensures FindUser(users, identifier).Some? ==>
      s.userId == FindUser(users, identifier).value.id && s.nextId == nextId && |s.users| == |users|
    ensures FindUser(users, identifier).None? ==>
      s.userId == nextId && s.nextId == nextId + 1 && |s.users| == |users| + 1 && s.users[..|users|] == users
  {
    var isEmail := Contains(identifier, "@");
    var existing := FindUser(users, identifier);
    if existing.Some? then
      var user := existing.value;
      var touched := TouchUser(users, user.id, now);
      assert exists u | u in touched :: u.id == user.id && (if isEmail then u.email else u.phone) == Some(identifier) by {
        var k :| 0 <= k < |users| && users[k] == user;
        assert touched[k].id == user.id && touched[k].email == user.email && touched[k].phone == user.phone;
      }
      SignedIn(user.id, touched, nextId)
    else
      var user := User(nextId, if isEmail then Some(identifier) else None, if isEmail then None else Some(identifier), now);
      var added := users + [user];
      assert added[|users|] == user;
      SignedIn(nextId, added, nextId + 1)
  }

  // ---------------------------------------------------------------------
  // cleanupExpiredCodes
  // ---------------------------------------------------------------------

  datatype Cleanup = Cleanup(count: nat, codes: seq<Code>)

  /** `cleanupExpiredCodes()`: deletes the codes with `expiresAt < now` and
      returns how many were deleted. */
  function CleanupExpiredCodes(codes: seq<Code>, now: int): (c: Cleanup)
    ensures forall x :: x in c.codes <==> x in codes && x.expiresAt >= now
    ensures c.count + |c.codes| == |codes|
    ensures |c.codes| <= |codes|
  {
    if |codes| == 0 then Cleanup(0, [])
    else
      var rest := CleanupExpiredCodes(codes[1..], now);
      assert forall x :: x in codes <==> x == codes[0] || x in codes[1..];
      if codes[0].expiresAt < now then Cleanup(rest.count + 1, rest.codes)
      else Cleanup(rest.count, [codes[0]] + rest.codes)
  }

  // ---------------------------------------------------------------------
  // The lifecycle
  // ---------------------------------------------------------------------

  /** Within five minutes of creation, the generated code verifies; it is
      then consumed. */
  lemma CreateThenVerify(st: AuthStore, identifier: string, r: real, now: int, later: int)
    requires 0.0 <= r < 1.0 && now <= later <= now + CodeLifetimeMs
    ensures var c := CreateVerificationCode(st, identifier, r, now);
      var v := VerifyCode(c.store, identifier, GenerateVerificationCode(r), later);
      v.result.Verified? && CodesOf(v.store.codes, identifier) == []
  {
    var c := CreateVerificationCode(st, identifier, r, now);
    var newCode := Code(st.nextId, identifier, GenerateVerificationCode(r), now + CodeLifetimeMs, 0, now);
    VerifyOnlyCode(c.store, identifier, newCode, later);
  }

  /** The only, unexpired code of an identifier verifies and is consumed. */
  lemma VerifyOnlyCode(st: AuthStore, identifier: string, only: Code, now: int)
    requires CodesOf(st.codes, identifier) == [only] && now <= only.expiresAt
    ensures var v := VerifyCode(st, identifier, only.code, now);
      v.result.Verified? && CodesOf(v.store.codes, identifier) == []
  {
    assert VerifyCode(st, identifier, only.code, now) == CheckCode(st, identifier, only, only.code, now) by {
      NewestIsOnly(st.codes, identifier, only);
    }
    CheckConsumes(st, identifier, only, now);
  }

  lemma CheckConsumes(st: AuthStore, identifier: string, only: Code, now: int)
    requires CodesOf(st.codes, identifier) == [only] && now <= only.expiresAt
    ensures var v := CheckCode(st, identifier, only, only.code, now);
      v.result.Verified? && CodesOf(v.store.codes, identifier) == []
  {
    var counted := SetAttempts(st.codes, only.id, only.attempts + 1);
    MatchedCodeDeleted(st, identifier, only, now);
    OnlyCodeConsumed(st.codes, counted, identifier, only);
  }

  /** A matching, unexpired code is counted and then deleted. */
  lemma MatchedCodeDeleted(st: AuthStore, identifier: string, vc: Code, now: int)
    requires now <= vc.expiresAt
    ensures var v := CheckCode(st, identifier, vc, vc.code, now);
      v.result.Verified? && v.store.codes == DeleteCode(SetAttempts(st.codes, vc.id, vc.attempts + 1), vc.id)
  {
  }

  /** When the identifier has exactly one code, it is the newest. */
  lemma NewestIsOnly(codes: seq<Code>, identifier: string, only: Code)
    requires CodesOf(codes, identifier) == [only]
    ensures Newest(codes, identifier) == Some(only)
  {
    var n := Newest(codes, identifier);
    assert only in CodesOf(codes, identifier);
    assert n.Some?;
    assert n.value in CodesOf(codes, identifier);
  }

  /** Deleting the only code of an identifier leaves it with none. */
  lemma OnlyCodeConsumed(codes: seq<Code>, counted: seq<Code>, identifier: string, only: Code)
    requires CodesOf(codes, identifier) == [only]
    requires counted == SetAttempts(codes, only.id, only.attempts + 1)
    ensures CodesOf(DeleteCode(counted, only.id), identifier) == []
  {
    var after := DeleteCode(counted, only.id);
    forall x | x in after ensures x.identifier != identifier {
      var i :| 0 <= i < |counted| && counted[i] == x;
      if codes[i].id != only.id {
        assert x == codes[i];
        assert x.identifier == identifier ==> x in CodesOf(codes, identifier);
      }
    }
    if CodesOf(after, identifier) != [] {
      assert CodesOf(after, identifier)[0] in CodesOf(after, identifier);
    }
  }

  /** After the lifetime, the code is rejected as expired and deleted, and
      its attempt count is not raised. */
  lemma ExpiredIsDeleted(st: AuthStore, identifier: string, code: string, now: int)
    requires Newest(st.codes, identifier).Some? && now > Newest(st.codes, identifier).value.expiresAt
    ensures var v := VerifyCode(st, identifier, code, now);
      && v.result == Rejected(ExpiredMessage)
      && v.store.codes == DeleteCode(st.codes, Newest(st.codes, identifier).value.id)
      && v.store.users == st.users
  {
  }

  /** A wrong code is rejected, the code is kept, and exactly its attempt
      count goes up by one. */
  lemma WrongCodeCounts(st: AuthStore, identifier: string, code: string, now: int)
    requires Newest(st.codes, identifier).Some?
    requires var n := Newest(st.codes, identifier).value; now <= n.expiresAt && n.code != code
    ensures var n := Newest(st.codes, identifier).value;
      var v := VerifyCode(st, identifier, code, now);
      && v.result == Rejected(InvalidMessage)
      && |v.store.codes| == |st.codes|
      && (forall i | 0 <= i < |st.codes| && st.codes[i].id != n.id :: v.store.codes[i] == st.codes[i])
      && (forall i | 0 <= i < |st.codes| && st.codes[i].id == n.id :: v.store.codes[i].attempts == n.attempts + 1)
      && v.store.users == st.users
  {
  }

  /** Creating a code keeps every invariant of the store. */
  lemma CreateKeepsInvariants(st: AuthStore, identifier: string, r: real, now: int)
    requires 0.0 <= r < 1.0 && IdsFresh(st) && OneCodePerIdentifier(st.codes)
    ensures var c := CreateVerificationCode(st, identifier, r, now);
      IdsFresh(c.store) && OneCodePerIdentifier(c.store.codes)
  {
    var c := CreateVerificationCode(st, identifier, r, now);
    forall i | 0 <= i < |c.store.codes| ensures c.store.codes[i].id < c.store.nextId {
      var x := c.store.codes[i];
      if x.identifier != identifier {
        assert x in st.codes;
      } else {
        assert x in CodesOf(c.store.codes, identifier);
      }
    }
  }
}
