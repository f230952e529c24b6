/** The two sign-in endpoints: `POST /send-code` and `POST /verify-code`.
    Both run the lockout check on `body.identifier` first, then validate the
    body, then call the verification-code service; verify-code records a
    failed attempt on every rejected code and clears the lockout on
    success. The server state is the lockout map and the code/user store;
    the request body fields are `None` when absent. */
module AuthRoutes {
  import opened Wrappers
  import opened Text
  import opened RateLimit
  import opened VerificationCodes

  // ---------------------------------------------------------------------
  // The e-mail pattern /^[^\s@]+@[^\s@]+\.[^\s@]+$/
  // ---------------------------------------------------------------------

  /** The class `[^\s@]`. */
  predicate Plain(c: char) {
    !IsJsSpace(c) && c != '@'
  }

  /** Every character of `s[lo..hi]` is in the class `[^\s@]`. */
  predicate PlainBetween(s: string, lo: int, hi: int)
    requires 0 <= lo && hi <= |s|
  {
    forall i | lo <= i < hi :: Plain(s[i])
  }

  /** What the e-mail pattern accepts: a non-empty local part, '@', a
      non-empty label, '.', a non-empty rest, none of which holds a space
      or a further '@' (the '.' may be any dot of the domain). */
  predicate EmailMatches(s: string) {
    exists k, j | 0 < k && k + 1 < j < |s| - 1 ::
      s[k] == '@' && s[j] == '.' && PlainBetween(s, 0, k) && PlainBetween(s, k + 1, j) && PlainBetween(s, j + 1, |s|)
  }

  /** The position of the first '@', or `|s|` when there is none. */
  function FirstAt(s: string): (k: nat)
    ensures k <= |s|
    ensures k < |s| ==> s[k] == '@'
    ensures forall i | 0 <= i < k :: s[i] != '@'
  {
    if |s| == 0 then 0
    else if s[0] == '@' then 0
    else 1 + FirstAt(s[1..])
  }

  /** Some '.' lies in `s[lo..hi]`. */
  function HasDotBetween(s: string, lo: nat, hi: int): (b: bool)
    requires hi <= |s|
    ensures b <==> exists j | lo <= j < hi :: s[j] == '.'
    decreases hi - lo
  {
    if hi <= lo then false
    else s[lo] == '.' || HasDotBetween(s, lo + 1, hi)
  }

  /** A direct test of the e-mail pattern: the first '@' splits the string,
      no space or second '@' follows, and a '.' has a character on each
      side within the domain. */
  predicate IsEmail(s: string) {
    var k := FirstAt(s);
    0 < k < |s| && PlainBetween(s, 0, k) && PlainBetween(s, k + 1, |s|) && HasDotBetween(s, k + 2, |s| - 1)
  }

  /** The direct test decides exactly the language of the pattern. */
  lemma IsEmailIffMatches(s: string)
    ensures IsEmail(s) <==> EmailMatches(s)
  {
    if IsEmail(s) { DirectTestMatches(s); }
    if EmailMatches(s) { MatchPassesDirectTest(s); }
  }

  lemma DirectTestMatches(s: string)
    requires IsEmail(s)
    ensures EmailMatches(s)
  {
    var k := FirstAt(s);
    var j :| k + 2 <= j < |s| - 1 && s[j] == '.';
    assert PlainBetween(s, k + 1, j) && PlainBetween(s, j + 1, |s|);
  }

  lemma MatchPassesDirectTest(s: string)
    requires EmailMatches(s)
    ensures IsEmail(s)
  {
    var k, j :| 0 < k && k + 1 < j < |s| - 1 && s[k] == '@' && s[j] == '.'
      && PlainBetween(s, 0, k) && PlainBetween(s, k + 1, j) && PlainBetween(s, j + 1, |s|);
    FirstAtOfMatch(s, k);
    PlainAround(s, k + 1, j, |s|);
    DotBetween(s, k + 2, j, |s| - 1);
  }

  /** An '@' with only plain characters before it is the first '@'. */
  lemma FirstAtOfMatch(s: string, k: nat)
    requires k < |s| && s[k] == '@' && PlainBetween(s, 0, k)
    ensures FirstAt(s) == k
  {
  }

  /** Two plain runs around a '.' make one plain run. */
  lemma PlainAround(s: string, lo: nat, mid: nat, hi: nat)
    requires lo <= mid < hi <= |s| && s[mid] == '.'
    requires PlainBetween(s, lo, mid) && PlainBetween(s, mid + 1, hi)
    ensures PlainBetween(s, lo, hi)
  {
  }

  lemma DotBetween(s: string, lo: nat, j: nat, hi: int)
    requires lo <= j < hi <= |s| && s[j] == '.'
    ensures HasDotBetween(s, lo, hi)
  {
  }

  // ---------------------------------------------------------------------
  // The phone pattern /^\+?[1-9]\d{1,14}$/
  // ---------------------------------------------------------------------

  /** `[1-9]\d{1,14}`: two to fifteen ASCII digits, the first not 0. */
  predicate PhoneDigits(d: string) {
    2 <= |d| <= 15 && '1' <= d[0] <= '9' && AllDigits(d)
  }

  /** What the phone pattern accepts: the digits, optionally after '+'. */
  predicate PhoneMatches(s: string) {
    PhoneDigits(s) || (|s| >= 1 && s[0] == '+' && PhoneDigits(s[1..]))
  }

  /** A direct test of the phone pattern: a leading '+' is dropped and the
      rest must be the digits. */
  function IsPhone(s: string): (b: bool)
    ensures b <==> PhoneMatches(s)
    ensures b ==> 2 <= |s| <= 16
  {
    var digits := if |s| >= 1 && s[0] == '+' then s[1..] else s;
    PhoneDigits(digits)
  }

  /** An accepted phone number has at most the 15 digits of the ITU-T E.164
      international format (clause 6 of Recommendation E.164), and at least
      two. */
  lemma PhoneDigitBounds(s: string)
    requires IsPhone(s)
    ensures var d := if s[0] == '+' then s[1..] else s;
      2 <= |d| <= 15 && AllDigits(d) && d[0] != '0'
  {
  }

  /** No identifier is both: an e-mail holds '@', a phone number does not. */
  lemma EmailIsNotPhone(s: string)
    requires IsEmail(s)
    ensures !IsPhone(s)
  {
  }

  // ---------------------------------------------------------------------
  // The body schemas
  // ---------------------------------------------------------------------

  /** `sendCodeSchema`: a non-empty identifier that is an e-mail address
      or a phone number. */
  predicate SendCodeValid(identifier: string) {
    |identifier| >= 1 && (IsEmail(identifier) || IsPhone(identifier))
  }

  /** `z.string().length(6).regex(/^\d{6}$/)`. */
  predicate IsCode(code: string) {
    |code| == 6 && AllDigits(code)
  }

  /** `verifyCodeSchema`: a non-empty identifier and a six-digit code. */
  predicate VerifyCodeValid(identifier: Option<string>, code: Option<string>) {
    identifier.Some? && |identifier.value| >= 1 && code.Some? && IsCode(code.value)
  }

  /** Every generated code passes the verify-code schema. */
  lemma GeneratedCodeIsValid(r: real)
    requires 0.0 <= r < 1.0
    ensures IsCode(GenerateVerificationCode(r))
  {
  }

  // ---------------------------------------------------------------------
  // The handlers
  // ---------------------------------------------------------------------

  datatype Server = Server(limits: Limits, auth: AuthStore)

  datatype Response = Response(status: int, message: string, userId: Option<nat>, expiresAt: Option<int>)

  datatype Handled = Handled(response: Response, server: Server)

  const ValidationMessage := "Validation error"
  const SentMessage := "Verification code sent successfully"
  const VerifiedMessage := "Verification successful"
  const UserMissingMessage := "User not found after verification"

  /** The identifier is locked out at `now`: `checkRateLimit` answers 429. */
  predicate Locked(m: Limits, identifier: Option<string>, now: int) {
    identifier.Some? && identifier.value != "" && identifier.value in m
    && BlockSet(m[identifier.value]) && m[identifier.value].blockedUntil.value > now
  }

  /** The 429 response of the lockout check. */
  function TooMany(seconds: int): Response {
    Response(429, BlockedMessage(if seconds < 0 then 0 else seconds), None, None)
  }

  /** `POST /send-code` at time `now`, with `r` as the random number. */
  function SendCode(srv: Server, identifier: Option<string>, r: real, now: int): (h: Handled)
    requires 0.0 <= r < 1.0
    ensures h.response.status in {429, 400, 200}
    ensures h.response.status == 429 <==> Locked(srv.limits, identifier, now)
    ensures h.response.status == 400 <==>
      !Locked(srv.limits, identifier, now) && !(identifier.Some? && SendCodeValid(identifier.value))
    ensures h.server.limits == CheckRateLimit(srv.limits, identifier, now).limits
    ensures h.response.status != 200 ==> h.server.auth == srv.auth
    ensures h.response.status == 200 ==>
      && h.response.expiresAt == Some(now + CodeLifetimeMs)
      && CodesOf(h.server.auth.codes, identifier.value)
         == [Code(srv.auth.nextId, identifier.value, GenerateVerificationCode(r), now + CodeLifetimeMs, 0, now)]
  {
    var c := CheckRateLimit(srv.limits, identifier, now);
    if c.decision.Blocked? then Handled(TooMany(c.decision.seconds), srv.(limits := c.limits))
    else if !(identifier.Some? && SendCodeValid(identifier.value)) then
      Handled(Response(400, ValidationMessage, None, None), srv.(limits := c.limits))
    else
      var created := CreateVerificationCode(srv.auth, identifier.value, r, now);
      Handled(Response(200, SentMessage, None, Some(created.expiresAt)), Server(c.limits, created.store))
  }

  /** `prisma.user.findUnique({ where: { id } })`. */
  function UserById(users: seq<User>, id: nat): (r: Option<User>)
    ensures r.Some? ==> r.value in users && r.value.id == id
    ensures r.None? ==> forall u | u in users :: u.id != id
  {
    if |users| == 0 then None
    else if users[0].id == id then Some(users[0])
    else
      var rest := UserById(users[1..], id);
      assert forall u | u in users :: u == users[0] || u in users[1..];
      rest
  }

  /** `POST /verify-code` at time `now`. */
  function VerifyCodeRoute(srv: Server, identifier: Option<string>, code: Option<string>, now: int): (h: Handled)
    ensures h.response.status in {429, 400, 401, 200}
    ensures h.response.status == 429 <==> Locked(srv.limits, identifier, now)
    ensures h.response.status == 400 <==>
      !Locked(srv.limits, identifier, now) && !VerifyCodeValid(identifier, code)
    ensures h.response.status in {429, 400} ==>
      h.server == srv.(limits := CheckRateLimit(srv.limits, identifier, now).limits)
    ensures h.response.status in {401, 200} ==>
      var v := VerifyCode(srv.auth, identifier.value, code.value, now);
      && VerifyCodeValid(identifier, code)
      && h.server.auth == v.store
      && (h.response.status == 200 <==> v.result.Verified?)
    ensures h.response.status == 401 ==>
      h.server.limits == RecordFailedAttempt(CheckRateLimit(srv.limits, identifier, now).limits, identifier.value, now)
    ensures h.response.status == 200 ==>
      && identifier.value !in h.server.limits
      && h.response.userId.Some?
      && exists u | u in h.server.auth.users :: u.id == h.response.userId.value
  {
    var c := CheckRateLimit(srv.limits, identifier, now);
    if c.decision.Blocked? then Handled(TooMany(c.decision.seconds), srv.(limits := c.limits))
    else if !VerifyCodeValid(identifier, code) then
      Handled(Response(400, ValidationMessage, None, None), srv.(limits := c.limits))
    else
      var id := identifier.value;
      var v := VerifyCode(srv.auth, id, code.value, now);
      if v.result.Rejected? then
        Handled(Response(401, v.result.message, None, None), Server(RecordFailedAttempt(c.limits, id, now), v.store))
      else
        var limits := ClearRateLimit(c.limits, id);
        var user := UserById(v.store.users, v.result.userId);
        if user.None? then
          Handled(Response(500, UserMissingMessage, None, None), Server(limits, v.store))
        else
          Handled(Response(200, VerifiedMessage, Some(user.value.id), None), Server(limits, v.store))
  }

  // ---------------------------------------------------------------------
  // Properties of the wiring
  // ---------------------------------------------------------------------

  /** Three rejected codes for an identifier with no lockout history lock
      it out: any request in the next 60 seconds gets 429, whatever its
      code (an end of block at time 0 would read as unset). */
  lemma ThreeFailuresLockOut(srv: Server, id: string, c1: Option<string>, c2: Option<string>, c3: Option<string>,
                             c4: Option<string>, t1: int, t2: int, t3: int, now: int)
    requires id !in srv.limits
    requires VerifyCodeRoute(srv, Some(id), c1, t1).response.status == 401
    requires var s1 := VerifyCodeRoute(srv, Some(id), c1, t1).server;
      VerifyCodeRoute(s1, Some(id), c2, t2).response.status == 401
    requires var s1 := VerifyCodeRoute(srv, Some(id), c1, t1).server;
      var s2 := VerifyCodeRoute(s1, Some(id), c2, t2).server;
      VerifyCodeRoute(s2, Some(id), c3, t3).response.status == 401
    requires t3 <= now < t3 + BlockMs && t3 + BlockMs != 0
    ensures var s1 := VerifyCodeRoute(srv, Some(id), c1, t1).server;
      var s2 := VerifyCodeRoute(s1, Some(id), c2, t2).server;
      var s3 := VerifyCodeRoute(s2, Some(id), c3, t3).server;
      VerifyCodeRoute(s3, Some(id), c4, now).response.status == 429
  {
    var s1 := VerifyCodeRoute(srv, Some(id), c1, t1).server;
    assert id != "";
    assert s1.limits[id] == Entry(1, None);
    var s2 := VerifyCodeRoute(s1, Some(id), c2, t2).server;
    assert CheckRateLimit(s1.limits, Some(id), t2).limits == s1.limits;
    assert s2.limits[id] == Entry(2, None);
    var s3 := VerifyCodeRoute(s2, Some(id), c3, t3).server;
    assert CheckRateLimit(s2.limits, Some(id), t3).limits == s2.limits;
    assert s3.limits[id] == Entry(3, Some(t3 + BlockMs));
    assert Locked(s3.limits, Some(id), now);
  }

  /** A code sent to a valid identifier that is not locked out verifies
      within five minutes, signs the user in and lifts any lockout. */
  lemma SendThenVerify(srv: Server, id: string, r: real, now: int, later: int)
    requires 0.0 <= r < 1.0 && SendCodeValid(id)
    requires !Locked(srv.limits, Some(id), now)
    requires now <= later <= now + CodeLifetimeMs
    requires !Locked(SendCode(srv, Some(id), r, now).server.limits, Some(id), later)
    ensures var sent := SendCode(srv, Some(id), r, now);
      var h := VerifyCodeRoute(sent.server, Some(id), Some(GenerateVerificationCode(r)), later);
      sent.response.status == 200 && h.response.status == 200 && id !in h.server.limits
  {
    var sent := SendCode(srv, Some(id), r, now);
    var code := GenerateVerificationCode(r);
    CreateThenVerify(srv.auth, id, r, now, later);
    assert sent.server.auth == CreateVerificationCode(srv.auth, id, r, now).store;
    assert VerifyCodeValid(Some(id), Some(code));
    assert VerifyCode(sent.server.auth, id, code, later).result.Verified?;
  }
}
