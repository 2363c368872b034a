/** The `/api/embed-dashboard` handler as a pure function of the cache slot and
    the outcomes of its upstream calls, and a sequence of such requests served
    one after another over the process lifetime. */
module EmbedDashboard {
  import opened Outcomes
  import opened TokenCache

  /** The status and fixed plain-text body sent on any failure. */
  const ErrorStatus: int := 500
  const ErrorBody: string := "Failed to generate embed token"

  /** A 200 JSON body `{embedUrl, token}` (`None` is a missing or null field), or a
      plain-text status reply. */
  datatype Response =
    | EmbedJson(embedUrl: Option<string>, token: Option<string>)
    | PlainText(status: int, body: string)

  const Failed: Response := PlainText(ErrorStatus, ErrorBody)

  /** One request: the clock reading `getEmbedToken` takes and the outcome each
      upstream call would have if it is made. */
  datatype Request = Request(
    now: int,
    accessForEmbed: Result<string>,       // access token inside getEmbedToken
    generate: Result<Option<string>>,     // `token` of the GenerateToken response
    accessForInfo: Result<string>,        // the handler's own access token
    reportInfo: Result<Option<string>>)   // `embedUrl` of the report GET response

  /** What serving one request produces. */
  datatype Exchange = Exchange(response: Response, calls: seq<Call>, slot: Slot)

  /** The embed token step of a request: `getEmbedToken` on the slot. */
  function EmbedStep(slot: Slot, req: Request): Outcome {
    Obtain(slot, req.now, req.accessForEmbed, req.generate)
  }

  /** Serving one request: `getEmbedToken`, then a fresh access token that
      bypasses the cache, then the report GET; any failure becomes the fixed 500. */
  function Handle(slot: Slot, req: Request): (x: Exchange)
    // The cache ends up as getEmbedToken left it: a later failure does not undo
    // a regeneration.
    ensures x.slot == EmbedStep(slot, req).slot
    // Success exactly when all three steps succeed.
    ensures x.response.EmbedJson? <==>
      EmbedStep(slot, req).result.Ok? && req.accessForInfo.Ok? && req.reportInfo.Ok?
    // Any failure yields status 500 with the fixed body and no JSON.
    ensures !x.response.EmbedJson? ==> x.response == Failed
    // Success: the token is exactly what getEmbedToken returned and the URL is
    // the report's embedUrl.
    ensures x.response.EmbedJson? ==>
      x.response.token == EmbedStep(slot, req).result.value &&
      x.response.embedUrl == req.reportInfo.value
    // Call sequence: the embed token calls come first; only if they succeed is
    // a fresh access token requested, and only if that succeeds is the report
    // fetched with it. Nothing is called after the first failure.
    ensures var e := EmbedStep(slot, req);
      x.calls == e.calls +
        if e.result.Err? then []
        else [AccessToken] + if req.accessForInfo.Err? then [] else [ReportInfo(Bearer(req.accessForInfo.value))]
    ensures |x.calls| <= 4
  {
    var embed := EmbedStep(slot, req);
    match embed.result
    case Err(_) => Exchange(Failed, embed.calls, embed.slot)
    case Ok(token) =>
      match req.accessForInfo
      case Err(_) => Exchange(Failed, embed.calls + [AccessToken], embed.slot)
      case Ok(accessToken) =>
        var calls := embed.calls + [AccessToken, ReportInfo(Bearer(accessToken))];
        match req.reportInfo
        case Err(_) => Exchange(Failed, calls, embed.slot)
        case Ok(embedUrl) => Exchange(EmbedJson(embedUrl, token), calls, embed.slot)
  }

  /** The number of access-token requests in a call sequence. */
  function AccessTokenCount(calls: seq<Call>): nat {
    if calls == [] then 0
    else (if calls[0] == AccessToken then 1 else 0) + AccessTokenCount(calls[1..])
  }

  /** Counting access-token requests distributes over concatenation. */
  lemma {:induction false} AccessTokenCountAppend(a: seq<Call>, b: seq<Call>)
    ensures AccessTokenCount(a + b) == AccessTokenCount(a) + AccessTokenCount(b)
    decreases |a|
  {
    if a == [] {
      assert a + b == b;
    } else {
      assert (a + b)[1..] == a[1..] + b;
      AccessTokenCountAppend(a[1..], b);
    }
  }

  /** No GenerateToken request appears in a call sequence. */
  predicate NoRegeneration(calls: seq<Call>) {
    forall k :: 0 <= k < |calls| ==> !calls[k].GenerateToken?
  }

  /** Once getEmbedToken has returned, the handler asks for an access token once
      in all when the cache hit and twice when it missed, whether or not the
      later steps fail; a fully successful request makes two, respectively
      four, upstream calls. */
  lemma AccessTokensPerRequest(slot: Slot, req: Request)
    requires EmbedStep(slot, req).result.Ok?
    ensures var calls := Handle(slot, req).calls;
            AccessTokenCount(calls) == (if IsHit(slot, req.now) then 1 else 2) &&
            (Handle(slot, req).response.EmbedJson? ==> |calls| == (if IsHit(slot, req.now) then 2 else 4))
  {
    var e := EmbedStep(slot, req);
    var tail := if req.accessForInfo.Err? then [] else [ReportInfo(Bearer(req.accessForInfo.value))];
    assert Handle(slot, req).calls == e.calls + ([AccessToken] + tail);
    AccessTokenCountAppend(e.calls, [AccessToken] + tail);
    AccessTokenCountAppend([AccessToken], tail);
    assert AccessTokenCount(tail) == 0 by {
      if tail != [] {
        assert tail[1..] == [];
      }
    }
    assert AccessTokenCount([AccessToken]) == 1 by {
      assert [AccessToken][1..] == [];
    }
    if !IsHit(slot, req.now) {
      var gen := GenerateToken(Bearer(req.accessForEmbed.value));
      assert e.calls == [AccessToken, gen];
      assert e.calls[1..] == [gen] && e.calls[1..][1..] == [];
    }
  }

  /** The responses, per-request upstream calls and final slot of serving a
      sequence of requests one after another. */
  datatype Trace = Trace(responses: seq<Response>, calls: seq<seq<Call>>, slot: Slot)

  function Serve(slot: Slot, reqs: seq<Request>): (t: Trace)
    ensures |t.responses| == |reqs| && |t.calls| == |reqs|
    ensures forall i :: 0 <= i < |reqs| ==> t.responses[i].EmbedJson? || t.responses[i] == Failed
    ensures forall i :: 0 <= i < |reqs| ==> |t.calls[i]| <= 4
    decreases |reqs|
  {
    if reqs == [] then Trace([], [], slot)
    else
      var x := Handle(slot, reqs[0]);
      var rest := Serve(x.slot, reqs[1..]);
      Trace([x.response] + rest.responses, [x.calls] + rest.calls, rest.slot)
  }

  /** While every request's clock reading lies before the cached token's expiry,
      no request regenerates: none issues GenerateToken, every successful
      response carries the cached token, and the slot never changes. */
  lemma {:induction false} ServedFromCache(slot: Slot, reqs: seq<Request>)
    requires forall i :: 0 <= i < |reqs| ==> IsHit(slot, reqs[i].now)
    ensures Serve(slot, reqs).slot == slot
    ensures forall i :: 0 <= i < |reqs| ==> NoRegeneration(Serve(slot, reqs).calls[i])
    ensures forall i :: 0 <= i < |reqs| && Serve(slot, reqs).responses[i].EmbedJson? ==>
      Serve(slot, reqs).responses[i].token == slot.cachedToken
  {
    if reqs != [] {
      var x := Handle(slot, reqs[0]);
      assert x.slot == slot;
      ServedFromCache(slot, reqs[1..]);
      var t := Serve(slot, reqs);
      var rest := Serve(slot, reqs[1..]);
      forall i | 0 <= i < |reqs|
        ensures NoRegeneration(t.calls[i])
        ensures t.responses[i].EmbedJson? ==> t.responses[i].token == slot.cachedToken
      {
        if i > 0 {
          assert reqs[i] == reqs[1..][i - 1];
          assert t.calls[i] == rest.calls[i - 1];
          assert t.responses[i] == rest.responses[i - 1];
        }
      }
    }
  }

  /** Once a request regenerates a non-empty token at clock reading `first.now`,
      every following request whose clock reading is before `first.now +
      LifetimeMs` is answered with that token and makes no GenerateToken call:
      at most one regeneration per token lifetime. */
  lemma OneRegenerationPerLifetime(slot: Slot, first: Request, rest: seq<Request>)
    requires !IsHit(slot, first.now) && first.accessForEmbed.Ok?
    requires first.generate.Ok? && first.generate.value.Some? && first.generate.value.value != ""
    requires first.now + LifetimeMs != 0
    requires forall i :: 0 <= i < |rest| ==> rest[i].now < first.now + LifetimeMs
    ensures var t := Serve(slot, [first] + rest);
            forall i :: 1 <= i < |t.calls| ==> NoRegeneration(t.calls[i])
    ensures var t := Serve(slot, [first] + rest);
            forall i :: 0 <= i < |t.responses| && t.responses[i].EmbedJson? ==> t.responses[i].token == first.generate.value
  {
    var reqs := [first] + rest;
    var stored := Handle(slot, first).slot;
    assert stored == Slot(first.generate.value, Some(first.now + LifetimeMs));
    ServedFromCache(stored, rest);
    assert reqs[1..] == rest;
    var t := Serve(slot, reqs);
    var tail := Serve(stored, rest);
    forall i | 1 <= i < |t.calls|
      ensures NoRegeneration(t.calls[i])
      ensures t.responses[i].EmbedJson? ==> t.responses[i].token == first.generate.value
    {
      assert t.calls[i] == tail.calls[i - 1];
      assert t.responses[i] == tail.responses[i - 1];
    }
  }

  /** Request `req` regenerates against `slot`: it misses the cache and both
      of getEmbedToken's upstream calls succeed. */
  predicate Regenerates(slot: Slot, req: Request) {
    !IsHit(slot, req.now) && req.accessForEmbed.Ok? && req.generate.Ok?
  }

  /** The pair a regenerating request writes into the slot. */
  function Stored(req: Request): Slot
    requires req.generate.Ok?
  {
    Slot(req.generate.value, Some(req.now + LifetimeMs))
  }

  /** The slot that request `k` of `reqs` sees. */
  function SlotBefore(slot: Slot, reqs: seq<Request>, k: nat): Slot
    requires k <= |reqs|
  {
    Serve(slot, reqs[..k]).slot
  }

  /** Serving one more request continues from the slot the earlier requests
      left behind. */
  lemma {:induction false} ServeAppend(slot: Slot, reqs: seq<Request>, r: Request)
    ensures var before := Serve(slot, reqs);
            var x := Handle(before.slot, r);
            Serve(slot, reqs + [r]) == Trace(before.responses + [x.response], before.calls + [x.calls], x.slot)
    decreases |reqs|
  {
    if reqs == [] {
      assert [] + [r] == [r];
    } else {
      var x0 := Handle(slot, reqs[0]);
      assert (reqs + [r])[0] == reqs[0];
      assert (reqs + [r])[1..] == reqs[1..] + [r];
      ServeAppend(x0.slot, reqs[1..], r);
    }
  }

  /** Last write wins: after any sequence of requests the slot is the pair
      written by the last request that regenerated, or the initial slot when
      none did. It never holds a partial update. */
  lemma {:induction false} SlotIsLastRegeneration(slot: Slot, reqs: seq<Request>)
    ensures var s := Serve(slot, reqs).slot;
            (s == slot && forall k :: 0 <= k < |reqs| ==> !Regenerates(SlotBefore(slot, reqs, k), reqs[k])) ||
            exists j :: 0 <= j < |reqs| && Regenerates(SlotBefore(slot, reqs, j), reqs[j]) && s == Stored(reqs[j]) &&
              forall k :: j < k < |reqs| ==> !Regenerates(SlotBefore(slot, reqs, k), reqs[k])
    decreases |reqs|
  {
    if reqs != [] {
      var n := |reqs| - 1;
      var p, r := reqs[..n], reqs[n];
      assert reqs == p + [r];
      SlotIsLastRegeneration(slot, p);
      ServeAppend(slot, p, r);
      var mid := Serve(slot, p).slot;
      var s := Serve(slot, reqs).slot;
      assert s == Obtain(mid, r.now, r.accessForEmbed, r.generate).slot;
      forall k | 0 <= k <= n
        ensures SlotBefore(slot, reqs, k) == SlotBefore(slot, p, k)
      {
        assert reqs[..k] == p[..k];
      }
      assert SlotBefore(slot, reqs, n) == mid by {
        assert p[..n] == p;
      }
      if Regenerates(mid, r) {
        assert s == Stored(reqs[n]);
      } else {
        assert s == mid;
        if mid == slot && forall k :: 0 <= k < |p| ==> !Regenerates(SlotBefore(slot, p, k), p[k]) {
          assert forall k :: 0 <= k < |reqs| ==> !Regenerates(SlotBefore(slot, reqs, k), reqs[k]);
        } else {
          var j :| 0 <= j < |p| && Regenerates(SlotBefore(slot, p, j), p[j]) && mid == Stored(p[j]) &&
            forall k :: j < k < |p| ==> !Regenerates(SlotBefore(slot, p, k), p[k]);
          assert reqs[j] == p[j];
          assert forall k :: j < k < |reqs| ==> !Regenerates(SlotBefore(slot, reqs, k), reqs[k]);
        }
      }
    }
  }
}
