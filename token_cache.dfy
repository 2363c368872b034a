/** The single-slot, time-based embed-token cache of the backend, as a pure
    state machine: `Obtain` is one call of `getEmbedToken` against a slot, a
    clock reading and the outcomes of the two upstream calls it may make. */
module TokenCache {
  import opened Outcomes
  import Js = JsValues

  /** A freshly generated embed token is trusted for 60 minutes, in milliseconds. */
  const LifetimeMs: int := 60 * 60 * 1000

  /** The two module-level variables: the cached token and its expiry in epoch
      milliseconds. Both start out `null`. */
  datatype Slot = Slot(cachedToken: Option<string>, tokenExpiry: Option<int>)

  const EmptySlot: Slot := Slot(None, None)

  /** An upstream request, with the Authorization header it carries. */
  datatype Call =
    | AccessToken                          // client-credentials token request
    | GenerateToken(authorization: string) // POST .../reports/<id>/GenerateToken
    | ReportInfo(authorization: string)    // GET .../reports/<id>

  /** The Authorization header built from an access token. */
  function Bearer(accessToken: string): string {
    "Bearer " + accessToken
  }

  /** The cache guard `cachedToken && tokenExpiry && currentTime < tokenExpiry`,
      evaluated with JavaScript semantics. */
  function Guard(slot: Slot, now: int): Js.JsValue {
    var token := Js.OfString(slot.cachedToken);
    var expiry := Js.OfNumber(slot.tokenExpiry);
    Js.And(Js.And(token, expiry), Js.LessThan(now, expiry))
  }

  /** The cache is a hit when it holds a non-empty token and a non-zero expiry
      that lies strictly after `now`. */
  predicate IsHit(slot: Slot, now: int) {
    && slot.cachedToken.Some? && slot.cachedToken.value != ""
    && slot.tokenExpiry.Some? && slot.tokenExpiry.value != 0
    && now < slot.tokenExpiry.value
  }

  /** The JavaScript guard is truthy exactly on a hit: an absent or empty token,
      an absent or zero expiry, or `now >= expiry` all make it a miss. */
  lemma GuardIsHit(slot: Slot, now: int)
    ensures Js.Truthy(Guard(slot, now)) <==> IsHit(slot, now)
  {
  }

  /** What one call of `getEmbedToken` produces: the returned token or the
      rethrown error, the upstream calls made in order, and the new slot. */
  datatype Outcome = Outcome(result: Result<Option<string>>, calls: seq<Call>, slot: Slot)

  /** One call of `getEmbedToken` at clock reading `now`. `access` is what the
      access-token request yields if it is made, `generate` what `GenerateToken`
      yields (the `token` field of its response, absent or present). */
  function Obtain(slot: Slot, now: int, access: Result<string>, generate: Result<Option<string>>): (r: Outcome)
    // Hit: the cached token comes back, nothing goes upstream, the slot stays.
    ensures IsHit(slot, now) ==> r.result == Ok(slot.cachedToken) && r.calls == [] && r.slot == slot
    // Miss: the access token is requested first, and GenerateToken is issued
    // only once it is in hand, carrying it as a Bearer header.
    ensures !IsHit(slot, now) ==>
      r.calls == if access.Err? then [AccessToken] else [AccessToken, GenerateToken(Bearer(access.value))]
    // Miss with both calls succeeding: the slot is overwritten with the new
    // token and an expiry one lifetime after the clock reading taken on entry,
    // and the stored token is what is returned.
    ensures !IsHit(slot, now) && access.Ok? && generate.Ok? ==>
      r.slot == Slot(generate.value, Some(now + LifetimeMs)) && r.result == Ok(r.slot.cachedToken)
    // Failure: the first upstream error is rethrown and the slot is untouched.
    ensures r.result.Err? <==> !IsHit(slot, now) && (access.Err? || generate.Err?)
    ensures r.result.Err? ==>
      r.slot == slot && r.result.error == (if access.Err? then access.error else generate.error)
    // The slot only ever changes by a successful regeneration.
    ensures r.slot != slot ==> r.calls != [] && r.result.Ok? && generate.Ok?
  {
    if IsHit(slot, now) then
      Outcome(Ok(slot.cachedToken), [], slot)
    else
      match access
      case Err(e) => Outcome(Err(e), [AccessToken], slot)
      case Ok(accessToken) =>
        var calls := [AccessToken, GenerateToken(Bearer(accessToken))];
        match generate
        case Err(e) => Outcome(Err(e), calls, slot)
        case Ok(token) => Outcome(Ok(token), calls, Slot(token, Some(now + LifetimeMs)))
  }

  /** After a successful regeneration at `now` that stored a non-empty token,
      a later call at `t` is served from the cache exactly when `t` is strictly
      before `now + LifetimeMs`; it then returns that same token. (The expiry
      must itself be truthy, which holds for every clock reading other than
      one lifetime before the epoch.) */
  lemma RegeneratedTokenLifetime(slot: Slot, now: int, access: Result<string>, token: string,
                                 t: int, access': Result<string>, generate': Result<Option<string>>)
    requires !IsHit(slot, now) && access.Ok? && token != ""
    requires now + LifetimeMs != 0
    ensures var stored := Obtain(slot, now, access, Ok(Some(token))).slot;
            var next := Obtain(stored, t, access', generate');
            (next.calls == [] <==> t < now + LifetimeMs) &&
            (t < now + LifetimeMs ==> next.result == Ok(Some(token)) && next.slot == stored)
  {
  }

  /** A regeneration that stored an empty or absent token never yields a hit:
      every later call goes upstream again. */
  lemma FalsyTokenNeverCached(slot: Slot, now: int, access: Result<string>, token: Option<string>,
                              t: int, access': Result<string>, generate': Result<Option<string>>)
    requires !IsHit(slot, now) && access.Ok?
    requires token == None || token == Some("")
    ensures var stored := Obtain(slot, now, access, Ok(token)).slot;
            Obtain(stored, t, access', generate').calls != []
  {
  }
}
