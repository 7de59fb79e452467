/**
 * The short-link lifecycle of build/App.js as a specification on values:
 * the two stores `urlDB` and `statsDB`, the session log, and what
 * `createShortUrl` and the redirect path do to them. The clock, the random
 * id, the referrer and the page origin are arguments.
 */
module Shortener {
  import opened Wrappers
  import Logger

  /** A `urlDB` entry: the destination and the absolute expiry in milliseconds. */
  datatype Link = Link(longUrl: string, expiry: int)

  /** One recorded visit. `timestamp` is in milliseconds (the source keeps its ISO-8601 text). */
  datatype Click = Click(timestamp: int, referrer: string, location: string)

  /** A `statsDB` entry: the click history and the separately kept click counter. */
  datatype Stats = Stats(clicks: seq<Click>, total: nat)

  /** Everything the two operations read and write. */
  datatype State = State(urlDB: map<string, Link>, statsDB: map<string, Stats>, logs: seq<Logger.LogEntry>)

  /** What `createShortUrl` ends in: a silent return, the duplicate alert, or a new short URL. */
  datatype CreateOutcome = Ignored | Rejected(alert: string) | Created(code: string, shortUrl: string)

  /**
   * What the redirect path ends in: one of the two error headings, a
   * navigation to the destination, or (when `statsDB` lacks the code) the
   * TypeError that `statsDB[code].total` throws before anything changes.
   */
  datatype RedirectOutcome = InvalidOrExpired | LinkExpired | MissingStats | Redirecting(destination: string)

  const GeneratedCodeLength: nat := 6
  const DefaultValidityMinutes: int := 30
  const MillisPerMinute: int := 60000
  const DuplicateAlert: string := "Shortcode already exists! Choose another."
  const DirectReferrer: string := "Direct"
  const PlaceholderLocation: string := "Approx-IP-Location"
  const Arrow: string := " \U{2192} "

  /** A fresh stats entry: no clicks, counter zero. */
  const NoStats: Stats := Stats([], 0)

  /** The stores agree on their keys, and every counter equals the length of its click history. */
  predicate Consistent(st: State)
  {
    && st.urlDB.Keys == st.statsDB.Keys
    && forall c :: c in st.statsDB ==> st.statsDB[c].total == |st.statsDB[c].clicks|
  }

  /** `s.slice(0, n)`: the first n characters, or all of s when it is shorter. */
  function Prefix(s: string, n: nat): (r: string)
    ensures r <= s
    ensures |r| == if |s| < n then |s| else n
  {
    if |s| <= n then s else s[..n]
  }

  /** `custom || uuidv4().slice(0, 6)`: a non-empty custom code verbatim, else a prefix of the generated id. */
  function ChosenCode(custom: string, generatedId: string): (code: string)
    ensures custom != "" ==> code == custom
    ensures custom == "" ==> code <= generatedId
    ensures custom == "" && |generatedId| >= GeneratedCodeLength ==> |code| == GeneratedCodeLength
  {
    if custom != "" then custom else Prefix(generatedId, GeneratedCodeLength)
  }

  /** Minutes of validity: the given number when the field is filled in (zero and negatives included), else 30. */
  function ValidityMinutes(validity: Option<int>): int
  {
    match validity
    case Some(m) => m
    case None => DefaultValidityMinutes
  }

  /** `Date.now() + (validity ? validity * 60000 : 30 * 60000)`. */
  function ExpiryAt(now: int, validity: Option<int>): int
  {
    now + ValidityMinutes(validity) * MillisPerMinute
  }

  /** `document.referrer || "Direct"`. */
  function ReferrerOrDirect(referrer: string): string
  {
    if referrer == "" then DirectReferrer else referrer
  }

  function CreatedMessage(shortUrl: string, url: string): string
  {
    "Created short link " + shortUrl + Arrow + url
  }

  function RedirectedMessage(code: string, longUrl: string): string
  {
    "Redirected from " + code + Arrow + longUrl
  }

  /** The stats entry after one visit: counter up by one, one click appended. */
  function RecordClick(s: Stats, now: int, referrer: string): Stats
  {
    Stats(s.clicks + [Click(now, ReferrerOrDirect(referrer), PlaceholderLocation)], s.total + 1)
  }

  /**
   * `createShortUrl` (build/App.js:99-123): ignore an empty URL, reject a
   * code that is already a key of `urlDB` (expired or not), otherwise store
   * the link and a zero stats entry, log, and return the short URL.
   */
  function CreateShortUrl(st: State, url: string, custom: string, validity: Option<int>,
                          generatedId: string, now: int, origin: string): (r: (State, CreateOutcome))
    ensures r.1 == Ignored <==> url == ""
    ensures r.1.Created? <==> url != "" && ChosenCode(custom, generatedId) !in st.urlDB
    ensures r.1.Rejected? <==> url != "" && ChosenCode(custom, generatedId) in st.urlDB
    ensures r.1.Rejected? ==> r.1.alert == DuplicateAlert
    ensures !r.1.Created? ==> r.0 == st
    ensures r.1.Created? ==>
      var code := r.1.code;
      && code == ChosenCode(custom, generatedId)
      && code !in st.urlDB
      && r.1.shortUrl == origin + "/" + code
      && r.0.urlDB.Keys == st.urlDB.Keys + {code}
      && r.0.statsDB.Keys == st.statsDB.Keys + {code}
      && r.0.urlDB[code] == Link(url, ExpiryAt(now, validity))
      && r.0.statsDB[code] == NoStats
      && (forall c :: c in st.urlDB ==> r.0.urlDB[c] == st.urlDB[c])
      && (forall c :: c in st.statsDB && c != code ==> r.0.statsDB[c] == st.statsDB[c])
      && r.0.logs == Logger.Append(st.logs, CreatedMessage(r.1.shortUrl, url), Logger.DefaultKind, now)
  {
    if url == "" then (st, Ignored)
    else
      var code := ChosenCode(custom, generatedId);
      if code in st.urlDB then (st, Rejected(DuplicateAlert))
      else
        var shortUrl := origin + "/" + code;
        var st' := State(st.urlDB[code := Link(url, ExpiryAt(now, validity))],
                         st.statsDB[code := NoStats],
                         Logger.Append(st.logs, CreatedMessage(shortUrl, url), Logger.DefaultKind, now));
        (st', Created(code, shortUrl))
  }

  /**
   * The store logic of `Redirector` (build/App.js:167-192): an unknown code
   * and a code whose expiry lies strictly before `now` change nothing; a
   * live code gets one more click and a log record, and resolves to its
   * destination.
   */
  function Redirect(st: State, code: string, now: int, referrer: string): (r: (State, RedirectOutcome))
    ensures r.1 == InvalidOrExpired <==> code !in st.urlDB
    ensures r.1 == LinkExpired <==> code in st.urlDB && now > st.urlDB[code].expiry
    ensures r.1 == MissingStats <==> code in st.urlDB && now <= st.urlDB[code].expiry && code !in st.statsDB
    ensures !r.1.Redirecting? ==> r.0 == st
    ensures r.1.Redirecting? ==>
      && code in st.urlDB && code in st.statsDB
      && r.1.destination == st.urlDB[code].longUrl
      && r.0.urlDB == st.urlDB
      && r.0.statsDB.Keys == st.statsDB.Keys
      && r.0.statsDB[code].total == st.statsDB[code].total + 1
      && r.0.statsDB[code].clicks == st.statsDB[code].clicks + [Click(now, ReferrerOrDirect(referrer), PlaceholderLocation)]
      && (forall c :: c in st.statsDB && c != code ==> r.0.statsDB[c] == st.statsDB[c])
      && r.0.logs == Logger.Append(st.logs, RedirectedMessage(code, st.urlDB[code].longUrl), Logger.DefaultKind, now)
  {
    if code !in st.urlDB then (st, InvalidOrExpired)
    else
      var entry := st.urlDB[code];
      if now > entry.expiry then (st, LinkExpired)
      else if code !in st.statsDB then (st, MissingStats)
      else
        var st' := State(st.urlDB,
                         st.statsDB[code := RecordClick(st.statsDB[code], now, referrer)],
                         Logger.Append(st.logs, RedirectedMessage(code, entry.longUrl), Logger.DefaultKind, now));
        (st', Redirecting(entry.longUrl))
  }

  /** A successful creation keeps the stores consistent: both gain the same key, the new counter is zero. */
  lemma CreatePreservesConsistency(st: State, url: string, custom: string, validity: Option<int>,
                                   generatedId: string, now: int, origin: string)
    requires Consistent(st)
    ensures Consistent(CreateShortUrl(st, url, custom, validity, generatedId, now, origin).0)
  {
  }

  /** A visit keeps the stores consistent: the counter and the history grow together. */
  lemma RedirectPreservesConsistency(st: State, code: string, now: int, referrer: string)
    requires Consistent(st)
    ensures Consistent(Redirect(st, code, now, referrer).0)
  {
  }

  /** While the stores are consistent, a live code always has its stats entry, so the redirect never throws. */
  lemma ConsistentRedirectNeverThrows(st: State, code: string, now: int, referrer: string)
    requires Consistent(st)
    ensures Redirect(st, code, now, referrer).1 != MissingStats
    ensures Redirect(st, code, now, referrer).1.Redirecting? <==> code in st.urlDB && now <= st.urlDB[code].expiry
  {
  }
}
