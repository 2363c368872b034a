/** The backend's mutable state and its request handler: the cache slot is an
    object whose two fields `getEmbedToken` reads and overwrites in place. */
module Backend {
  import opened Outcomes
  import Js = JsValues
  import opened TokenCache
  import opened EmbedDashboard

  class EmbedTokenCache {
    var cachedToken: Option<string>
    var tokenExpiry: Option<int>

    /** The slot's current contents, as the pure functions see them. */
    function Current(): Slot
      reads this
    {
      Slot(cachedToken, tokenExpiry)
    }

    /** Both fields start out `null`. */
    constructor ()
      ensures Current() == EmptySlot
    {
      cachedToken := None;
      tokenExpiry := None;
    }

    /** `getEmbedToken`: reuse the cached token while it is valid, otherwise
        request an access token, then GenerateToken with it, and only when both
        succeed overwrite the slot. Returns the token or the rethrown error and
        the upstream calls made, in order. */
    method GetEmbedToken(now: int, accessOutcome: Result<string>, generateOutcome: Result<Option<string>>)
      returns (r: Result<Option<string>>, calls: seq<Call>)
      modifies this
      ensures Outcome(r, calls, Current()) == Obtain(old(Current()), now, accessOutcome, generateOutcome)
      ensures r.Err? ==> cachedToken == old(cachedToken) && tokenExpiry == old(tokenExpiry)
    {
      var currentTime := now;
      GuardIsHit(Current(), currentTime);
      var token := Js.OfString(cachedToken);
      var expiry := Js.OfNumber(tokenExpiry);
      if Js.Truthy(Js.And(Js.And(token, expiry), Js.LessThan(currentTime, expiry))) {
        r, calls := Ok(cachedToken), [];
        return;
      }
      calls := [AccessToken];
      if accessOutcome.Err? {
        r := Err(accessOutcome.error);
        return;
      }
      var accessToken := accessOutcome.value;
      calls := calls + [GenerateToken(Bearer(accessToken))];
      if generateOutcome.Err? {
        r := Err(generateOutcome.error);
        return;
      }
      cachedToken := generateOutcome.value;
      tokenExpiry := Some(currentTime + LifetimeMs);
      r := Ok(cachedToken);
    }
  }

  /** GET /api/embed-dashboard: the embed token (cached or regenerated), a fresh
      access token, then the report's embedUrl; any failure is answered with the
      fixed 500. Returns the response and every upstream call made, in order. */
  method HandleEmbedDashboard(cache: EmbedTokenCache, req: Request) returns (response: Response, calls: seq<Call>)
    modifies cache
    ensures Exchange(response, calls, cache.Current()) == Handle(old(cache.Current()), req)
  {
    var token, embedCalls := cache.GetEmbedToken(req.now, req.accessForEmbed, req.generate);
    calls := embedCalls;
    if token.Err? {
      response := Failed;
      return;
    }
    calls := calls + [AccessToken];
    if req.accessForInfo.Err? {
      response := Failed;
      return;
    }
    var accessToken := req.accessForInfo.value;
    calls := calls + [ReportInfo(Bearer(accessToken))];
    if req.reportInfo.Err? {
      response := Failed;
      return;
    }
    var embedUrl := req.reportInfo.value;
    response := EmbedJson(embedUrl, token.value);
  }
}
