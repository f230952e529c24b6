/** The per-identifier lockout of failed sign-in attempts: a map from
    identifier to an attempt count and an optional end of block. The third
    and every later failure block the identifier for 60 seconds; an entry
    whose block has passed is removed the next time its status is read.
    There is no time window: failures below three never expire. Time is
    milliseconds since the epoch, passed in. */
module RateLimit {
  import opened Wrappers
  import opened Text

  const MaxAttempts: nat := 3
  const BlockMs: nat := 60000

  datatype Entry = Entry(attempts: nat, blockedUntil: Option<int>)

  type Limits = map<string, Entry>

  /** `blockedUntil` used as a condition: unset and 0 are falsy. */
  predicate BlockSet(e: Entry) {
    e.blockedUntil.Some? && e.blockedUntil.value != 0
  }

  /** The shape every entry has when only these operations built the map:
      at least one attempt, and a block exactly from the third attempt on. */
  predicate WellFormed(m: Limits) {
    forall k | k in m :: m[k].attempts >= 1 && (m[k].blockedUntil.Some? <==> m[k].attempts >= MaxAttempts)
  }

  /** No block lasts more than 60 seconds beyond `now`. */
  predicate BlocksWithin(m: Limits, now: int) {
    forall k | k in m && m[k].blockedUntil.Some? :: m[k].blockedUntil.value <= now + BlockMs
  }

  /** `recordFailedAttempt(identifier)` at time `now`. */
  function RecordFailedAttempt(m: Limits, id: string, now: int): (m': Limits)
    ensures m'.Keys == m.Keys + {id}
    ensures forall k | k in m && k != id :: m'[k] == m[k]
    ensures m'[id].attempts == (if id in m then m[id].attempts else 0) + 1
    ensures m'[id].attempts >= MaxAttempts ==> m'[id].blockedUntil == Some(now + BlockMs)
    ensures m'[id].attempts < MaxAttempts ==> m'[id].blockedUntil == (if id in m then m[id].blockedUntil else None)
    ensures WellFormed(m) ==> WellFormed(m')
  {
    var current := if id in m then m[id] else Entry(0, None);
    var attempts := current.attempts + 1;
    m[id := Entry(attempts, if attempts >= MaxAttempts then Some(now + BlockMs) else current.blockedUntil)]
  }

  datatype Status = Status(entry: Option<Entry>, limits: Limits)

  /** `getRateLimitStatus(identifier)`: the entry, unless its block has
      passed, in which case the entry is deleted. */
  function GetRateLimitStatus(m: Limits, id: string, now: int): (s: Status)
    ensures id !in m ==> s == Status(None, m)
    ensures s.entry.Some? <==> id in m && !(BlockSet(m[id]) && now > m[id].blockedUntil.value)
    ensures s.entry.Some? ==> s.entry.value == m[id] && s.limits == m
    ensures s.entry.None? ==> s.limits == m - {id}
  {
    if id !in m then Status(None, m)
    else
      var e := m[id];
      if BlockSet(e) && now > e.blockedUntil.value then Status(None, m - {id})
      else Status(Some(e), m)
  }

  /** `clearRateLimit(identifier)`. */
  function ClearRateLimit(m: Limits, id: string): (m': Limits)
    ensures id !in m' && m'.Keys == m.Keys - {id}
    ensures forall k | k in m' :: m'[k] == m[k]
  {
    m - {id}
  }

  /** `clearAllRateLimits()`. */
  function ClearAllRateLimits(m: Limits): (m': Limits)
    ensures forall k :: k !in m'
  {
    map[]
  }

  /** `Math.ceil(ms / 1000)` for a positive count of milliseconds. */
  function CeilSeconds(ms: int): (s: int)
    requires ms > 0
    ensures (s - 1) * 1000 < ms <= s * 1000
  {
    (ms + 999) / 1000
  }

  datatype Decision = Pass | Blocked(seconds: int)

  /** The 429 message of a blocked request. */
  function BlockedMessage(seconds: nat): string {
    "Muitas tentativas. Tente novamente em " + NatToString(seconds) + " segundos."
  }

  datatype Check = Check(decision: Decision, limits: Limits)

  /** `checkRateLimit`: a request without an identifier passes; otherwise
      it is blocked iff the identifier's block has not yet passed. */
  function CheckRateLimit(m: Limits, identifier: Option<string>, now: int): (c: Check)
    ensures identifier.None? || identifier.value == "" ==> c == Check(Pass, m)
    ensures c.decision.Blocked? <==>
      identifier.Some? && identifier.value != "" && identifier.value in m
      && BlockSet(m[identifier.value]) && m[identifier.value].blockedUntil.value > now
    ensures c.decision.Blocked? ==>
      c.decision.seconds == CeilSeconds(m[identifier.value].blockedUntil.value - now) && c.limits == m
  {
    if identifier.None? || identifier.value == "" then Check(Pass, m)
    else
      var s := GetRateLimitStatus(m, identifier.value, now);
      if s.entry.Some? && BlockSet(s.entry.value) && s.entry.value.blockedUntil.value > now then
        Check(Blocked(CeilSeconds(s.entry.value.blockedUntil.value - now)), s.limits)
      else Check(Pass, s.limits)
  }

  // ---------------------------------------------------------------------
  // Properties
  // ---------------------------------------------------------------------

  /** A blocked request is told to wait between 1 and 60 seconds. */
  lemma BlockedSecondsInRange(m: Limits, identifier: Option<string>, now: int)
    requires BlocksWithin(m, now)
    ensures var c := CheckRateLimit(m, identifier, now);
      c.decision.Blocked? ==> 1 <= c.decision.seconds <= 60
  {
  }

  /** Time only moves forward, and every operation keeps the 60-second
      bound on blocks. */
  lemma BlocksWithinPreserved(m: Limits, id: string, now: int, later: int)
    requires BlocksWithin(m, now) && now <= later
    ensures BlocksWithin(RecordFailedAttempt(m, id, now), later)
    ensures BlocksWithin(GetRateLimitStatus(m, id, now).limits, later)
    ensures BlocksWithin(ClearRateLimit(m, id), later)
  {
  }

  /** Failures below the third never expire: the status of such an entry
      is the entry itself at any later time. */
  lemma NoTimeWindow(m: Limits, id: string, now: int)
    requires WellFormed(m) && id in m && m[id].attempts < MaxAttempts
    ensures GetRateLimitStatus(m, id, now) == Status(Some(m[id]), m)
  {
  }

  /** Three failures block a non-empty identifier for the next 60 seconds
      from the third, whatever happened to it before (an end of block at
      time 0 would read as unset). */
  lemma ThirdFailureBlocks(m: Limits, id: string, t1: int, t2: int, t3: int, now: int)
    requires id != "" && t3 + BlockMs != 0
    requires t3 <= now < t3 + BlockMs
    ensures var m3 := RecordFailedAttempt(RecordFailedAttempt(RecordFailedAttempt(m, id, t1), id, t2), id, t3);
      CheckRateLimit(m3, Some(id), now).decision.Blocked?
  {
  }

  /** Two failures on a fresh identifier never block it. */
  lemma TwoFailuresPass(m: Limits, id: string, t1: int, t2: int, now: int)
    requires id !in m
    ensures var m2 := RecordFailedAttempt(RecordFailedAttempt(m, id, t1), id, t2);
      CheckRateLimit(m2, Some(id), now).decision == Pass
  {
  }

  /** Once a block has passed, reading the status drops the entry, so the
      next failure counts from one again. */
  lemma ExpiredBlockRestarts(m: Limits, id: string, now: int)
    requires id in m && BlockSet(m[id]) && now > m[id].blockedUntil.value
    ensures var s := GetRateLimitStatus(m, id, now);
      s.entry.None? && RecordFailedAttempt(s.limits, id, now)[id].attempts == 1
  {
  }

  /** The check touches at most the requesting identifier's entry. */
  lemma CheckFrame(m: Limits, identifier: Option<string>, now: int, k: string)
    requires k in m && (identifier.None? || k != identifier.value)
    ensures var c := CheckRateLimit(m, identifier, now); k in c.limits && c.limits[k] == m[k]
  {
  }
}
