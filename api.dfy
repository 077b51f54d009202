/** `make_api_request`: a GET with at most `max_retries` attempts. A 200
    returns its JSON, a 429 waits and tries again, any other status gives
    up, and an exception (a failed request or a 200 whose body is not JSON)
    waits and tries again unless it was the last attempt. Every attempt is
    followed by the rate-limit pause.

    The network is an oracle: `replies(k)` is what the request of attempt
    `k` gets. The requests and the pauses are returned as a trace. */
module ApiUtils {
  import opened Common
  import opened JsonValue

  type Headers = seq<(string, string)>

  /** `get_headers(user_agent)` */
  function GetHeaders(userAgent: string): (h: Headers)
    ensures |h| == 2
  {
    [("User-Agent", userAgent), ("Accept-Encoding", "gzip, deflate")]
  }

  /** `headers[name]` when present. */
  function Header(h: Headers, name: string): (r: Option<string>)
    ensures r.Some? <==> exists i :: 0 <= i < |h| && h[i].0 == name
  {
    if h == [] then None
    else if h[0].0 == name then Some(h[0].1)
    else
      var r := Header(h[1..], name);
      assert forall i :: 1 <= i < |h| ==> h[i] == h[1..][i - 1];
      r
  }

  /** The two headers hold the user agent and the accepted encodings, and
      name different fields. */
  lemma HeadersHold(userAgent: string)
    ensures Header(GetHeaders(userAgent), "User-Agent") == Some(userAgent)
    ensures Header(GetHeaders(userAgent), "Accept-Encoding") == Some("gzip, deflate")
    ensures GetHeaders(userAgent)[0].0 != GetHeaders(userAgent)[1].0
  {
    assert "Accept-Encoding"[0] != "User-Agent"[0];
  }

  /** What a request of one attempt gets: a status with the body's JSON
      (`None` when `response.json()` raises), or an exception. */
  datatype Reply = Status(code: int, json: Option<Json>) | Raised

  datatype Pause = RetryDelay | RateLimit

  datatype Event = Get(url: string, headers: Headers, params: Option<Headers>) | Sleep(pause: Pause)

  datatype Outcome = Outcome(result: Option<Json>, trace: seq<Event>)

  /** The attempt raises: the request failed, or the 200 body is not JSON. */
  predicate Raises(reply: Reply) {
    reply.Raised? || (reply.code == 200 && reply.json.None?)
  }

  /** The attempts from `attempt` on, as the loop runs them. */
  function Attempts(url: string, headers: Headers, params: Option<Headers>,
                    maxRetries: int, replies: nat -> Reply, attempt: nat): Outcome
    decreases maxRetries - attempt
  {
    if attempt >= maxRetries then Outcome(None, [])
    else
      var get := Get(url, headers, params);
      var reply := replies(attempt);
      if Raises(reply) then
        if attempt < maxRetries - 1 then
          var rest := Attempts(url, headers, params, maxRetries, replies, attempt + 1);
          Outcome(rest.result, [get, Sleep(RetryDelay), Sleep(RateLimit)] + rest.trace)
        else Outcome(None, [get, Sleep(RateLimit)])
      else if reply.code == 200 then Outcome(reply.json, [get, Sleep(RateLimit)])
      else if reply.code == 429 then
        var rest := Attempts(url, headers, params, maxRetries, replies, attempt + 1);
        Outcome(rest.result, [get, Sleep(RetryDelay), Sleep(RateLimit)] + rest.trace)
      else Outcome(None, [get, Sleep(RateLimit)])
  }

  /** An attempt that is retried leaves the request and both pauses ahead
      of the following attempts. */
  lemma RetryStep(url: string, headers: Headers, params: Option<Headers>,
                  maxRetries: int, replies: nat -> Reply, attempt: nat, trace: seq<Event>)
    requires attempt < maxRetries
    requires Raises(replies(attempt)) ==> attempt < maxRetries - 1
    requires !Raises(replies(attempt)) ==> replies(attempt).code == 429
    ensures var now := Attempts(url, headers, params, maxRetries, replies, attempt);
            var next := Attempts(url, headers, params, maxRetries, replies, attempt + 1);
            && now.result == next.result
            && trace + now.trace == (trace + [Get(url, headers, params), Sleep(RetryDelay), Sleep(RateLimit)]) + next.trace
  {
  }

  /** `make_api_request(url, headers, params, max_retries)`: the loop with
      its early returns, `continue`s and `finally` pause. */
  method MakeApiRequest(url: string, headers: Headers, params: Option<Headers>,
                        maxRetries: int, replies: nat -> Reply)
    returns (result: Option<Json>, trace: seq<Event>)
    ensures Outcome(result, trace) == Attempts(url, headers, params, maxRetries, replies, 0)
  {
    trace := [];
    var attempt: nat := 0;
    while attempt < maxRetries
      invariant attempt == 0 || attempt <= maxRetries
      invariant Attempts(url, headers, params, maxRetries, replies, 0) ==
                Outcome(Attempts(url, headers, params, maxRetries, replies, attempt).result,
                        trace + Attempts(url, headers, params, maxRetries, replies, attempt).trace)
      decreases maxRetries - attempt
    {
      var get := Get(url, headers, params);
      var reply := replies(attempt);
      if Raises(reply) {
        if attempt < maxRetries - 1 {
          RetryStep(url, headers, params, maxRetries, replies, attempt, trace);
          trace := trace + [get, Sleep(RetryDelay), Sleep(RateLimit)];
          attempt := attempt + 1;
          continue;
        }
        trace := trace + [get, Sleep(RateLimit)];
        return None, trace;
      } else if reply.code == 200 {
        trace := trace + [get, Sleep(RateLimit)];
        return reply.json, trace;
      } else if reply.code == 429 {
        RetryStep(url, headers, params, maxRetries, replies, attempt, trace);
        trace := trace + [get, Sleep(RetryDelay), Sleep(RateLimit)];
        attempt := attempt + 1;
      } else {
        trace := trace + [get, Sleep(RateLimit)];
        return None, trace;
      }
    }
    result := None;
  }

  // ---------------------------------------------------------------------
  // What the retry policy promises

  function Requests(trace: seq<Event>): (n: nat)
    ensures n <= |trace|
  {
    if trace == [] then 0 else Requests(trace[1..]) + (if trace[0].Get? then 1 else 0)
  }

  function RateLimitPauses(trace: seq<Event>): (n: nat)
    ensures n <= |trace|
  {
    if trace == [] then 0 else RateLimitPauses(trace[1..]) + (if trace[0] == Sleep(RateLimit) then 1 else 0)
  }

  lemma {:induction false} CountsAppend(a: seq<Event>, b: seq<Event>)
    ensures Requests(a + b) == Requests(a) + Requests(b)
    ensures RateLimitPauses(a + b) == RateLimitPauses(a) + RateLimitPauses(b)
  {
    if a != [] {
      assert (a + b)[0] == a[0];
      assert (a + b)[1..] == a[1..] + b;
      CountsAppend(a[1..], b);
      assert Requests(a + b) == Requests(a[1..] + b) + (if a[0].Get? then 1 else 0);
      assert RateLimitPauses(a + b) == RateLimitPauses(a[1..] + b) + (if a[0] == Sleep(RateLimit) then 1 else 0);
    } else {
      assert a + b == b;
    }
  }

  /** The events of one attempt: one request and one rate-limit pause. */
  lemma Blocks(get: Event)
    requires get.Get?
    ensures Requests([get, Sleep(RetryDelay), Sleep(RateLimit)]) == 1
    ensures RateLimitPauses([get, Sleep(RetryDelay), Sleep(RateLimit)]) == 1
    ensures Requests([get, Sleep(RateLimit)]) == 1 && RateLimitPauses([get, Sleep(RateLimit)]) == 1
  {
    var last: seq<Event> := [Sleep(RateLimit)];
    assert last[1..] == [];
    assert [Sleep(RetryDelay), Sleep(RateLimit)][1..] == last;
    assert [get, Sleep(RetryDelay), Sleep(RateLimit)][1..] == [Sleep(RetryDelay), Sleep(RateLimit)];
    assert [get, Sleep(RateLimit)][1..] == last;
  }

  /** At most `max_retries` requests are made (none when it is not
      positive), and every one is followed by exactly one rate-limit
      pause. */
  lemma {:induction false} AttemptsBounded(url: string, headers: Headers, params: Option<Headers>,
                                           maxRetries: int, replies: nat -> Reply, attempt: nat)
    ensures var o := Attempts(url, headers, params, maxRetries, replies, attempt);
            && Requests(o.trace) <= (if maxRetries > attempt then maxRetries - attempt else 0)
            && RateLimitPauses(o.trace) == Requests(o.trace)
    decreases maxRetries - attempt
  {
    if attempt < maxRetries {
      var get := Get(url, headers, params);
      var reply := replies(attempt);
      var rest := Attempts(url, headers, params, maxRetries, replies, attempt + 1);
      AttemptsBounded(url, headers, params, maxRetries, replies, attempt + 1);
      Blocks(get);
      CountsAppend([get, Sleep(RetryDelay), Sleep(RateLimit)], rest.trace);
    }
  }

  /** `max_retries <= 0`: no request is made and the result is `None`. */
  lemma NoRetriesNoRequest(url: string, headers: Headers, params: Option<Headers>,
                           maxRetries: int, replies: nat -> Reply)
    requires maxRetries <= 0
    ensures Attempts(url, headers, params, maxRetries, replies, 0) == Outcome(None, [])
  {
  }

  /** The JSON of a 200 is returned at once, after one request. */
  lemma FirstOkReturns(url: string, headers: Headers, params: Option<Headers>,
                       maxRetries: int, replies: nat -> Reply, j: Json)
    requires maxRetries >= 1 && replies(0) == Status(200, Some(j))
    ensures Attempts(url, headers, params, maxRetries, replies, 0) ==
            Outcome(Some(j), [Get(url, headers, params), Sleep(RateLimit)])
  {
  }

  /** A status other than 200 and 429 gives up at once. */
  lemma OtherStatusGivesUp(url: string, headers: Headers, params: Option<Headers>,
                           maxRetries: int, replies: nat -> Reply, attempt: nat)
    requires attempt < maxRetries && replies(attempt).Status?
    requires replies(attempt).code != 200 && replies(attempt).code != 429
    ensures Attempts(url, headers, params, maxRetries, replies, attempt) ==
            Outcome(None, [Get(url, headers, params), Sleep(RateLimit)])
  {
  }

  /** An exception on the last attempt gives up, without the retry wait. */
  lemma LastExceptionGivesUp(url: string, headers: Headers, params: Option<Headers>,
                             maxRetries: int, replies: nat -> Reply)
    requires maxRetries >= 1 && Raises(replies(maxRetries - 1))
    ensures Attempts(url, headers, params, maxRetries, replies, maxRetries - 1) ==
            Outcome(None, [Get(url, headers, params), Sleep(RateLimit)])
  {
  }

  /** The attempt may be followed by another: a 429, or an exception. */
  predicate Retries(reply: Reply) {
    Raises(reply) || reply.code == 429
  }

  /** Rate-limited on every attempt: `None` after exactly `max_retries`
      requests. */
  lemma {:induction false} AlwaysLimited(url: string, headers: Headers, params: Option<Headers>,
                                         maxRetries: int, replies: nat -> Reply, attempt: nat)
    requires forall k :: attempt <= k < maxRetries ==> replies(k) == Status(429, None)
    ensures Attempts(url, headers, params, maxRetries, replies, attempt).result == None
    ensures Requests(Attempts(url, headers, params, maxRetries, replies, attempt).trace) ==
            if maxRetries > attempt then maxRetries - attempt else 0
    decreases maxRetries - attempt
  {
    if attempt < maxRetries {
      var get := Get(url, headers, params);
      var rest := Attempts(url, headers, params, maxRetries, replies, attempt + 1);
      AlwaysLimited(url, headers, params, maxRetries, replies, attempt + 1);
      Blocks(get);
      CountsAppend([get, Sleep(RetryDelay), Sleep(RateLimit)], rest.trace);
    }
  }

  /** The first attempt that gets a 200 with a JSON body at `k`, every
      earlier one from `attempt` getting a 429 or raising. */
  predicate FirstOkAt(maxRetries: int, replies: nat -> Reply, attempt: nat, k: nat, j: Json) {
    && attempt <= k < maxRetries && replies(k) == Status(200, Some(j))
    && forall i :: attempt <= i < k ==> Retries(replies(i))
  }

  /** A returned JSON body comes from such an attempt. */
  lemma {:induction false} ResultFromFirstOk(url: string, headers: Headers, params: Option<Headers>,
                                             maxRetries: int, replies: nat -> Reply, attempt: nat, j: Json)
      returns (k: nat)
    requires Attempts(url, headers, params, maxRetries, replies, attempt).result == Some(j)
    ensures FirstOkAt(maxRetries, replies, attempt, k, j)
    decreases maxRetries - attempt
  {
    var reply := replies(attempt);
    if Retries(reply) {
      k := ResultFromFirstOk(url, headers, params, maxRetries, replies, attempt + 1, j);
    } else {
      k := attempt;
    }
  }

  /** Such an attempt's body is returned. */
  lemma {:induction false} FirstOkIsResult(url: string, headers: Headers, params: Option<Headers>,
                                           maxRetries: int, replies: nat -> Reply, attempt: nat, k: nat, j: Json)
    requires FirstOkAt(maxRetries, replies, attempt, k, j)
    ensures Attempts(url, headers, params, maxRetries, replies, attempt).result == Some(j)
    decreases k - attempt
  {
    if attempt < k {
      assert Retries(replies(attempt));
      FirstOkIsResult(url, headers, params, maxRetries, replies, attempt + 1, k, j);
    }
  }

  /** JSON is returned exactly when some attempt gets a 200 with a JSON
      body and every earlier attempt got a 429 or raised; it is that
      body. */
  lemma ResultIsFirstOk(url: string, headers: Headers, params: Option<Headers>,
                        maxRetries: int, replies: nat -> Reply, j: Json)
    ensures Attempts(url, headers, params, maxRetries, replies, 0).result == Some(j) <==>
            exists k :: FirstOkAt(maxRetries, replies, 0, k, j)
  {
    if Attempts(url, headers, params, maxRetries, replies, 0).result == Some(j) {
      var k := ResultFromFirstOk(url, headers, params, maxRetries, replies, 0, j);
    }
    if exists k :: FirstOkAt(maxRetries, replies, 0, k, j) {
      var k :| FirstOkAt(maxRetries, replies, 0, k, j);
      FirstOkIsResult(url, headers, params, maxRetries, replies, 0, k, j);
    }
  }
}
