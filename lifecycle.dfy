/**
 * Sequences of user actions against the stores of build/App.js, and what
 * holds across any such sequence: the stores stay consistent, links are
 * never changed or removed, click histories and the log only grow at
 * their ends, and a created link resolves until its expiry.
 */
module Lifecycle {
  import opened Wrappers
  import opened Shortener

  /** A press of "Shorten" on the form, or a visit to `/:code`, with the environment readings it sees. */
  datatype Request =
    | Shorten(url: string, custom: string, validity: Option<int>, generatedId: string, now: int, origin: string)
    | Visit(code: string, now: int, referrer: string)

  function Step(st: State, req: Request): State
  {
    match req
    case Shorten(url, custom, validity, generatedId, now, origin) =>
      CreateShortUrl(st, url, custom, validity, generatedId, now, origin).0
    case Visit(code, now, referrer) => Redirect(st, code, now, referrer).0
  }

  /** The state after handling the requests in order. */
  function Run(st: State, reqs: seq<Request>): State
    decreases |reqs|
  {
    if reqs == [] then st else Run(Step(st, reqs[0]), reqs[1..])
  }

  /** Visits to one code at the given clock readings, all from the same referrer. */
  function Visits(code: string, times: seq<int>, referrer: string): seq<Request>
  {
    seq(|times|, i requires 0 <= i < |times| => Visit(code, times[i], referrer))
  }

  /** The clicks those visits record. */
  function ClicksAt(times: seq<int>, referrer: string): seq<Click>
  {
    seq(|times|, i requires 0 <= i < |times| => Click(times[i], ReferrerOrDirect(referrer), PlaceholderLocation))
  }

  predicate Chronological(clicks: seq<Click>)
  {
    forall i, j :: 0 <= i < j < |clicks| ==> clicks[i].timestamp <= clicks[j].timestamp
  }

  predicate AllChronological(st: State)
  {
    forall c :: c in st.statsDB ==> Chronological(st.statsDB[c].clicks)
  }

  /** No recorded click is stamped later than t. */
  predicate ClicksNotAfter(st: State, t: int)
  {
    forall c, i :: c in st.statsDB && 0 <= i < |st.statsDB[c].clicks| ==> st.statsDB[c].clicks[i].timestamp <= t
  }

  /** The requests see a clock that starts at t or later and never runs backwards. */
  predicate ClockFrom(reqs: seq<Request>, t: int)
  {
    forall i, j :: 0 <= i <= j < |reqs| ==> t <= reqs[i].now <= reqs[j].now
  }

  lemma StepPreservesConsistency(st: State, req: Request)
    requires Consistent(st)
    ensures Consistent(Step(st, req))
  {
  }

  /** Key agreement and `total == |clicks|` hold after any sequence of creations and visits. */
  lemma {:induction false} RunPreservesConsistency(st: State, reqs: seq<Request>)
    requires Consistent(st)
    ensures Consistent(Run(st, reqs))
    decreases |reqs|
  {
    if reqs != [] {
      StepPreservesConsistency(st, reqs[0]);
      RunPreservesConsistency(Step(st, reqs[0]), reqs[1..]);
    }
  }

  /** A link, once stored, is never changed or removed, expired or not. */
  lemma {:induction false} RunKeepsLinks(st: State, reqs: seq<Request>)
    ensures forall c :: c in st.urlDB ==> c in Run(st, reqs).urlDB && Run(st, reqs).urlDB[c] == st.urlDB[c]
    decreases |reqs|
  {
    if reqs != [] {
      RunKeepsLinks(Step(st, reqs[0]), reqs[1..]);
    }
  }

  /**
   * While the stores are consistent, stats entries are never removed and a
   * click history is only ever extended at its end. (On inconsistent stored
   * data, creating a code that only `statsDB` has resets its history.)
   */
  lemma {:induction false} RunExtendsClickHistories(st: State, reqs: seq<Request>)
    requires Consistent(st)
    ensures forall c :: c in st.statsDB ==>
      c in Run(st, reqs).statsDB && st.statsDB[c].clicks <= Run(st, reqs).statsDB[c].clicks
    decreases |reqs|
  {
    if reqs != [] {
      var st1 := Step(st, reqs[0]);
      assert forall c :: c in st.statsDB ==> c in st1.statsDB && st.statsDB[c].clicks <= st1.statsDB[c].clicks;
      StepPreservesConsistency(st, reqs[0]);
      RunExtendsClickHistories(st1, reqs[1..]);
    }
  }

  /** The log is only appended to, at most one record per request. */
  lemma {:induction false} RunExtendsLog(st: State, reqs: seq<Request>)
    ensures st.logs <= Run(st, reqs).logs
    ensures |Run(st, reqs).logs| <= |st.logs| + |reqs|
    decreases |reqs|
  {
    if reqs != [] {
      var st1 := Step(st, reqs[0]);
      assert st.logs <= st1.logs && |st1.logs| <= |st.logs| + 1;
      RunExtendsLog(st1, reqs[1..]);
    }
  }

  /** A handled request leaves every history ordered when its clock is not earlier than any recorded click. */
  lemma StepKeepsClicksChronological(st: State, req: Request)
    requires AllChronological(st) && ClicksNotAfter(st, req.now)
    ensures AllChronological(Step(st, req)) && ClicksNotAfter(Step(st, req), req.now)
  {
  }

  /** With a clock that never runs backwards, every click history stays in timestamp order. */
  lemma {:induction false} RunKeepsClicksChronological(st: State, reqs: seq<Request>, t: int)
    requires AllChronological(st) && ClicksNotAfter(st, t) && ClockFrom(reqs, t)
    ensures AllChronological(Run(st, reqs))
    decreases |reqs|
  {
    if reqs != [] {
      var t0 := reqs[0].now;
      assert t <= t0;
      StepKeepsClicksChronological(st, reqs[0]);
      assert ClockFrom(reqs[1..], t0) by {
        forall i, j | 0 <= i <= j < |reqs[1..]|
          ensures t0 <= reqs[1..][i].now <= reqs[1..][j].now
        {
          assert reqs[1..][i] == reqs[i + 1] && reqs[1..][j] == reqs[j + 1];
        }
      }
      RunKeepsClicksChronological(Step(st, reqs[0]), reqs[1..], t0);
    }
  }

  /**
   * Visiting a live code n times raises its counter by exactly n and
   * appends exactly the n clicks, in visit order; the links are untouched
   * and each visit logs one record.
   */
  lemma {:induction false} RepeatedVisits(st: State, code: string, times: seq<int>, referrer: string)
    requires Consistent(st) && code in st.urlDB
    requires forall i :: 0 <= i < |times| ==> times[i] <= st.urlDB[code].expiry
    ensures var st' := Run(st, Visits(code, times, referrer));
      && st'.urlDB == st.urlDB
      && code in st'.statsDB
      && st'.statsDB[code].total == st.statsDB[code].total + |times|
      && st'.statsDB[code].clicks == st.statsDB[code].clicks + ClicksAt(times, referrer)
      && |st'.logs| == |st.logs| + |times|
    decreases |times|
  {
    if times != [] {
      var reqs := Visits(code, times, referrer);
      var st1 := Redirect(st, code, times[0], referrer).0;
      assert Step(st, reqs[0]) == st1;
      RedirectPreservesConsistency(st, code, times[0], referrer);
      assert reqs[1..] == Visits(code, times[1..], referrer);
      RepeatedVisits(st1, code, times[1..], referrer);
      assert ClicksAt(times, referrer) == ClicksAt(times[..1], referrer) + ClicksAt(times[1..], referrer);
    }
  }

  /**
   * A newly created link visited n times before its expiry, at a clock
   * that never runs backwards: counter and history length are both n, and
   * the clicks carry the visit times in order.
   */
  lemma VisitsToNewLink(st: State, code: string, times: seq<int>, referrer: string)
    requires Consistent(st) && code in st.urlDB && st.statsDB[code] == NoStats
    requires forall i :: 0 <= i < |times| ==> times[i] <= st.urlDB[code].expiry
    requires forall i, j :: 0 <= i < j < |times| ==> times[i] <= times[j]
    ensures var st' := Run(st, Visits(code, times, referrer));
      code in st'.statsDB &&
      var s := st'.statsDB[code];
      && s.total == |times| && |s.clicks| == |times|
      && (forall i :: 0 <= i < |times| ==> s.clicks[i].timestamp == times[i])
      && Chronological(s.clicks)
  {
    RepeatedVisits(st, code, times, referrer);
  }

  /**
   * Creating a link and then visiting it: the visit resolves to the long
   * URL up to and including the expiry instant, and reports expiry after it.
   */
  lemma CreateThenRedirect(st: State, url: string, custom: string, validity: Option<int>,
                           generatedId: string, now: int, origin: string, later: int, referrer: string)
    requires CreateShortUrl(st, url, custom, validity, generatedId, now, origin).1.Created?
    ensures var created := CreateShortUrl(st, url, custom, validity, generatedId, now, origin);
      var visited := Redirect(created.0, created.1.code, later, referrer).1;
      && (later <= ExpiryAt(now, validity) ==> visited == Redirecting(url))
      && (later > ExpiryAt(now, validity) ==> visited == LinkExpired)
  {
  }

  /** A link valid for one minute still resolves 59 s and 60 s later, and is expired 61 s later. */
  lemma OneMinuteBoundary(st: State, url: string, custom: string, generatedId: string, now: int, origin: string, referrer: string)
    requires CreateShortUrl(st, url, custom, Some(1), generatedId, now, origin).1.Created?
    ensures var created := CreateShortUrl(st, url, custom, Some(1), generatedId, now, origin);
      && Redirect(created.0, created.1.code, now + 59000, referrer).1 == Redirecting(url)
      && Redirect(created.0, created.1.code, now + 60000, referrer).1 == Redirecting(url)
      && Redirect(created.0, created.1.code, now + 61000, referrer).1 == LinkExpired
  {
  }
}
