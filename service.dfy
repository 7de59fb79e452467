/**
 * The stores of build/App.js as the program keeps them: two maps changed in
 * place, copies of them written back to browser storage, and the shared
 * event log. Each method does its steps in the source's order and is proved
 * to end in the state the specification in module Shortener gives.
 */
module Service {
  import opened Wrappers
  import Logger
  import opened Shortener

  class LinkService {
    /** `urlDB` and `statsDB`, the in-memory stores (build/App.js:7-8). */
    var urlDB: map<string, Link>
    var statsDB: map<string, Stats>
    /** What `localStorage` holds under "urlDB" and "statsDB" (JSON text in the source). */
    var storedUrlDB: map<string, Link>
    var storedStatsDB: map<string, Stats>
    /** The session log of build/logger.js. */
    const events: Logger.EventLog

    /** The abstract state the specification talks about. */
    ghost function Snapshot(): State
      reads this, events
    {
      State(urlDB, statsDB, events.entries)
    }

    ghost predicate Valid()
      reads this, events
    {
      Consistent(Snapshot())
    }

    /** Page load: both stores are read from storage (an absent slot reads as the empty map). */
    constructor Load(savedUrls: map<string, Link>, savedStats: map<string, Stats>, log: Logger.EventLog)
      ensures urlDB == savedUrls && statsDB == savedStats
      ensures storedUrlDB == savedUrls && storedStatsDB == savedStats
      ensures events == log
    {
      urlDB, statsDB := savedUrls, savedStats;
      storedUrlDB, storedStatsDB := savedUrls, savedStats;
      events := log;
    }

    /** `createShortUrl` (build/App.js:99-123). */
    method CreateShortUrl(url: string, custom: string, validity: Option<int>,
                          generatedId: string, now: int, origin: string) returns (outcome: CreateOutcome)
      modifies this, events
      ensures (Snapshot(), outcome) == Shortener.CreateShortUrl(old(Snapshot()), url, custom, validity, generatedId, now, origin)
      ensures storedUrlDB == if outcome.Created? then urlDB else old(storedUrlDB)
      ensures storedStatsDB == if outcome.Created? then statsDB else old(storedStatsDB)
      ensures old(Valid()) ==> Valid()
    {
      ghost var before := Snapshot();
      if url == "" {
        return Ignored;
      }
      var code := ChosenCode(custom, generatedId);
      if code in urlDB {
        return Rejected(DuplicateAlert);
      }
      var expiry := ExpiryAt(now, validity);
      urlDB := urlDB[code := Link(url, expiry)];
      statsDB := statsDB[code := NoStats];
      storedUrlDB := urlDB;
      storedStatsDB := statsDB;
      var shortUrl := origin + "/" + code;
      events.Log(CreatedMessage(shortUrl, url), None, now);
      outcome := Created(code, shortUrl);
      if Consistent(before) {
        CreatePreservesConsistency(before, url, custom, validity, generatedId, now, origin);
      }
    }

    /** The store logic of `Redirector` (build/App.js:167-192); the outcome stands for what is rendered or navigated to. */
    method Redirect(code: string, now: int, referrer: string) returns (outcome: RedirectOutcome)
      modifies this, events
      ensures (Snapshot(), outcome) == Shortener.Redirect(old(Snapshot()), code, now, referrer)
      ensures storedUrlDB == old(storedUrlDB)
      ensures storedStatsDB == if outcome.Redirecting? then statsDB else old(storedStatsDB)
      ensures old(Valid()) ==> Valid()
    {
      ghost var before := Snapshot();
      if code !in urlDB {
        return InvalidOrExpired;
      }
      var entry := urlDB[code];
      if now > entry.expiry {
        return LinkExpired;
      }
      if code !in statsDB {
        return MissingStats;
      }
      statsDB := statsDB[code := statsDB[code].(total := statsDB[code].total + 1)];
      var click := Click(now, ReferrerOrDirect(referrer), PlaceholderLocation);
      statsDB := statsDB[code := statsDB[code].(clicks := statsDB[code].clicks + [click])];
      assert statsDB == before.statsDB[code := RecordClick(before.statsDB[code], now, referrer)];
      storedStatsDB := statsDB;
      events.Log(RedirectedMessage(code, entry.longUrl), None, now);
      outcome := Redirecting(entry.longUrl);
      if Consistent(before) {
        RedirectPreservesConsistency(before, code, now, referrer);
      }
    }
  }
}
