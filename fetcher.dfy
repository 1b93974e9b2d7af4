/** The stateful part of `ResearchFetcher` (services/research_fetcher.py): the request timestamp that
    paces calls, the retry loop, and the Google Scholar fetch that uses the timestamp.
    Time is in seconds; every clock reading is a parameter. */
module Fetcher {
  import opened Wrappers
  import opened Papers
  import opened Relevance
  import opened Sources
  import opened Sequences

  /** `_min_request_interval`. */
  const MinRequestInterval: real := 2.0
  /** `range(3)` in `_make_request_with_retry`. */
  const RetryAttempts: nat := 3

  /** One pass through the rate-limit gate: the sleep it requests and the timestamp it records. */
  datatype GateStep = GateStep(sleep: real, recorded: real)

  /** The gate when the timestamp is `last` and the clock reads `now`; the clock read after the
      sleep is `now + sleep + overshoot`, a sleep never being shorter than requested. */
  function RateLimitGate(last: real, now: real, overshoot: real): (g: GateStep)
    requires overshoot >= 0.0
    ensures g.sleep >= 0.0
    ensures g.recorded >= last + MinRequestInterval
    ensures g.recorded >= now
    ensures now - last >= MinRequestInterval ==> g.sleep == 0.0
    ensures now - last < MinRequestInterval ==> g.sleep == MinRequestInterval - (now - last)
    ensures now - last < MinRequestInterval ==> g.recorded == last + MinRequestInterval + overshoot
    ensures g.recorded == now + g.sleep + overshoot
  {
    var sinceLast := now - last;
    var sleep := if sinceLast < MinRequestInterval then MinRequestInterval - sinceLast else 0.0;
    GateStep(sleep, now + sleep + overshoot)
  }

  /** What one request attempt gets back: a response, an HTTP 429, or any other request error. */
  datatype HttpOutcome = Ok(body: string) | TooManyRequests | RequestError

  /** One attempt as the environment answers it: clock reading at the gate, sleep overshoot, outcome. */
  datatype Attempt = Attempt(now: real, overshoot: real, outcome: HttpOutcome)

  /** What `_make_request_with_retry` ends with: the response, how many attempts it made, and the
      backoff sleeps it took after 429 answers, in order. */
  datatype RetryResult = RetryResult(response: Option<string>, attempts: nat, backoffs: seq<real>)

  /** `(attempt + 1) * self._min_request_interval * 2`. */
  function BackoffWait(attempt: nat): real
  {
    (attempt + 1) as real * MinRequestInterval * 2.0
  }

  /** The retry loop from attempt `attempt` on, when attempt `k` is answered by `outcomes[k]`. */
  function RetryFrom(outcomes: seq<HttpOutcome>, attempt: nat): RetryResult
    requires |outcomes| == RetryAttempts && attempt <= RetryAttempts
    decreases RetryAttempts - attempt
  {
    if attempt == RetryAttempts then RetryResult(None, RetryAttempts, [])
    else match outcomes[attempt]
      case Ok(body) => RetryResult(Some(body), attempt + 1, [])
      case TooManyRequests =>
        var rest := RetryFrom(outcomes, attempt + 1);
        RetryResult(rest.response, rest.attempts, [BackoffWait(attempt)] + rest.backoffs)
      case RequestError =>
        if attempt == RetryAttempts - 1 then RetryResult(None, RetryAttempts, [])
        else RetryFrom(outcomes, attempt + 1)
  }

  /** The backoff waits owed to the 429 answers among attempts `from` up to `to`. */
  function TooManyWaits(outcomes: seq<HttpOutcome>, from: nat, to: nat): seq<real>
    requires to <= |outcomes|
    decreases if from < to then to - from else 0
  {
    if from >= to then []
    else (if outcomes[from].TooManyRequests? then [BackoffWait(from)] else []) + TooManyWaits(outcomes, from + 1, to)
  }

  lemma {:induction false} RetryFromSpec(outcomes: seq<HttpOutcome>, attempt: nat)
    requires |outcomes| == RetryAttempts && attempt <= RetryAttempts
    ensures var r := RetryFrom(outcomes, attempt);
      && attempt <= r.attempts <= RetryAttempts
      && (attempt < RetryAttempts ==> attempt < r.attempts)
      && (r.response.Some? ==> outcomes[r.attempts - 1] == Ok(r.response.value)
                               && forall j :: attempt <= j < r.attempts - 1 ==> !outcomes[j].Ok?)
      && (r.response.None? ==> r.attempts == RetryAttempts
                               && forall j :: attempt <= j < RetryAttempts ==> !outcomes[j].Ok?)
      && r.backoffs == TooManyWaits(outcomes, attempt, r.attempts)
    decreases RetryAttempts - attempt
  {
    if attempt < RetryAttempts {
      match outcomes[attempt]
      case Ok(_) =>
      case TooManyRequests => RetryFromSpec(outcomes, attempt + 1);
      case RequestError =>
        if attempt < RetryAttempts - 1 {
          RetryFromSpec(outcomes, attempt + 1);
        }
    }
  }

  /** The 429 waits are 4, 8 and 12 seconds for attempts 0, 1 and 2, and they grow. */
  lemma {:induction false} TooManyWaitsValues(outcomes: seq<HttpOutcome>, from: nat, to: nat)
    requires to <= |outcomes| == RetryAttempts
    ensures forall i :: 0 <= i < |TooManyWaits(outcomes, from, to)| ==>
              TooManyWaits(outcomes, from, to)[i] in {4.0, 8.0, 12.0}
              && TooManyWaits(outcomes, from, to)[i] >= BackoffWait(from)
    ensures forall i, j :: 0 <= i < j < |TooManyWaits(outcomes, from, to)| ==>
              TooManyWaits(outcomes, from, to)[i] < TooManyWaits(outcomes, from, to)[j]
    decreases if from < to then to - from else 0
  {
    if from < to {
      TooManyWaitsValues(outcomes, from + 1, to);
      assert BackoffWait(from) < BackoffWait(from + 1);
    }
  }

  /** `_make_request_with_retry`: at most three attempts; the first successful response is returned;
      after all attempts fail the result is `None`; a 429 on attempt k costs a wait of (k+1)*2*2
      seconds; any other error before the last attempt is retried at once. */
  lemma RetrySpec(outcomes: seq<HttpOutcome>)
    requires |outcomes| == RetryAttempts
    ensures var r := RetryFrom(outcomes, 0);
      && 1 <= r.attempts <= RetryAttempts
      && (r.response.Some? <==> exists k :: 0 <= k < RetryAttempts && outcomes[k].Ok?)
      && (r.response.Some? ==> outcomes[r.attempts - 1] == Ok(r.response.value)
                               && forall j :: 0 <= j < r.attempts - 1 ==> !outcomes[j].Ok?)
      && (r.response.None? ==> r.attempts == RetryAttempts)
      && r.backoffs == TooManyWaits(outcomes, 0, r.attempts)
      && (forall i :: 0 <= i < |r.backoffs| ==> r.backoffs[i] in {4.0, 8.0, 12.0})
      && (forall k :: 0 <= k < RetryAttempts - 1 && outcomes[k] == RequestError ==>
            RetryFrom(outcomes, k) == RetryFrom(outcomes, k + 1))
  {
    RetryFromSpec(outcomes, 0);
    var r := RetryFrom(outcomes, 0);
    TooManyWaitsValues(outcomes, 0, r.attempts);
  }

  function Outcomes(attempts: seq<Attempt>): (o: seq<HttpOutcome>)
    ensures |o| == |attempts| && forall k :: 0 <= k < |attempts| ==> o[k] == attempts[k].outcome
  {
    seq(|attempts|, k requires 0 <= k < |attempts| => attempts[k].outcome)
  }

  /** The timestamp after the gate has been passed once per attempt, in order, starting from `last`. */
  function GateAfter(last: real, attempts: seq<Attempt>): (t: real)
    requires forall k :: 0 <= k < |attempts| ==> attempts[k].overshoot >= 0.0
    ensures t >= last + |attempts| as real * MinRequestInterval
    ensures attempts != [] ==> t >= attempts[|attempts| - 1].now
    decreases |attempts|
  {
    if attempts == [] then last
    else
      var final := attempts[|attempts| - 1];
      RateLimitGate(GateAfter(last, attempts[..|attempts| - 1]), final.now, final.overshoot).recorded
  }

  /** One more attempt is one more pass through the gate. */
  lemma GateAfterSnoc(last: real, attempts: seq<Attempt>, i: nat)
    requires i < |attempts|
    requires forall k :: 0 <= k < |attempts| ==> attempts[k].overshoot >= 0.0
    ensures GateAfter(last, attempts[..i + 1])
      == RateLimitGate(GateAfter(last, attempts[..i]), attempts[i].now, attempts[i].overshoot).recorded
  {
    assert attempts[..i + 1][..i] == attempts[..i];
  }

  class ResearchFetcher {
    /** `_last_request_time`: when the last paced request was let through. */
    var lastRequestTime: real

    constructor ()
      ensures lastRequestTime == 0.0
    {
      lastRequestTime := 0.0;
    }

    /** `_wait_for_rate_limit`: sleep until the interval since the last request has passed, then
        record the time. */
    method WaitForRateLimit(now: real, overshoot: real) returns (slept: real)
      requires overshoot >= 0.0
      modifies this
      ensures GateStep(slept, lastRequestTime) == RateLimitGate(old(lastRequestTime), now, overshoot)
      ensures lastRequestTime >= old(lastRequestTime) + MinRequestInterval
    {
      var sinceLast := now - lastRequestTime;
      slept := 0.0;
      if sinceLast < MinRequestInterval {
        slept := MinRequestInterval - sinceLast;
      }
      lastRequestTime := now + slept + overshoot;
    }

    /** `_make_request_with_retry`, attempt `k` being answered as `attempts[k]` says. */
    method MakeRequestWithRetry(attempts: seq<Attempt>) returns (response: Option<string>, made: nat, backoffs: seq<real>)
      requires |attempts| == RetryAttempts
      requires forall k :: 0 <= k < |attempts| ==> attempts[k].overshoot >= 0.0
      modifies this
      ensures RetryResult(response, made, backoffs) == RetryFrom(Outcomes(attempts), 0)
      ensures made <= |attempts|
      ensures lastRequestTime == GateAfter(old(lastRequestTime), attempts[..made])
      ensures lastRequestTime >= old(lastRequestTime) + made as real * MinRequestInterval
    {
      ghost var outcomes := Outcomes(attempts);
      response, made, backoffs := None, 0, [];
      var attempt := 0;
      while attempt < RetryAttempts
        invariant 0 <= attempt <= RetryAttempts && made == attempt && response == None
        invariant RetryFrom(outcomes, 0) == var r := RetryFrom(outcomes, attempt);
                    RetryResult(r.response, r.attempts, backoffs + r.backoffs)
        invariant lastRequestTime == GateAfter(old(lastRequestTime), attempts[..attempt])
      {
        GateAfterSnoc(old(lastRequestTime), attempts, attempt);
        var _ := WaitForRateLimit(attempts[attempt].now, attempts[attempt].overshoot);
        made := made + 1;
        match attempts[attempt].outcome {
          case Ok(body) =>
            response := Some(body);
            return;
          case TooManyRequests =>
            ConcatAssoc(backoffs, [BackoffWait(attempt)], RetryFrom(outcomes, attempt + 1).backoffs);
            backoffs := backoffs + [BackoffWait(attempt)];
          case RequestError =>
            if attempt == RetryAttempts - 1 {
              return;
            }
        }
        attempt := attempt + 1;
      }
    }

    /** `fetch_scholar_papers`: augment the query, pass the gate once, collect up to five results
        and filter them. */
    method FetchScholarPapers(query: string, now: real, overshoot: real, search: ScholarSearch)
      returns (papers: seq<Paper>, sentQuery: string, gateSleep: real, pauses: nat)
      requires overshoot >= 0.0
      modifies this
      ensures sentQuery == AugmentQuery(query)
      ensures GateStep(gateSleep, lastRequestTime) == RateLimitGate(old(lastRequestTime), now, overshoot)
      ensures papers == ScholarFetchResult(search)
      ensures pauses == if search.SearchResults? then Examined(search.steps, ScholarMaxPapers) - 1 else 0
    {
      sentQuery := AugmentQuery(query);
      gateSleep := WaitForRateLimit(now, overshoot);
      var collected: seq<Paper> := [];
      pauses := 0;
      if search.SearchResults? {
        collected, pauses := NormaliseScholarResults(search.steps);
      }
      papers := FilterPapers(collected);
    }
  }

  /** Two paced requests in a row are recorded at least the interval apart, whatever the clock says. */
  method ConsecutiveRequestsArePaced(f: ResearchFetcher, now1: real, over1: real, now2: real, over2: real)
    requires over1 >= 0.0 && over2 >= 0.0
    modifies f
    ensures f.lastRequestTime >= old(f.lastRequestTime) + 2.0 * MinRequestInterval
  {
    var _ := f.WaitForRateLimit(now1, over1);
    var first := f.lastRequestTime;
    var _ := f.WaitForRateLimit(now2, over2);
    assert f.lastRequestTime >= first + MinRequestInterval;
  }
}
