/**
  The per-client, fixed-window request rate limiter run as an edge function in
  front of the site. Every request whose path is not a static asset is counted
  against its client identity for the current hour; the 51st request in one
  hour from one identity is refused with status 429. The counters live in a
  map owned by the handler, and old hours are swept out once the map has grown
  past 500 entries.
 */
module RateLimit {
  import opened Wrappers
  import opened WindowKey

  /** Requests admitted per identity and hour. */
  const Limit: nat := 50
  /** Length of one window, in milliseconds. */
  const WindowMs: nat := 3600000
  /** The sweep runs once the map holds more entries than this. */
  const SweepThreshold: nat := 500

  /** A stored counter: the requests admitted so far and the first hour index at which it is stale. */
  datatype Entry = Entry(count: nat, resetAt: nat)

  /**
    The counter key: the client identity and the hour index. The handler joins
    the two into the string ip:hour; KeyMatchesStringKey shows that two requests
    get the same string exactly when they get the same pair.
   */
  type Key = (string, nat)

  type RateMap = map<Key, Entry>

  /** What the handler answers: let the request through, or a response carrying status, headers and body. */
  datatype Verdict =
    | Allow
    | Reject(status: nat, contentType: string, retryAfter: string, body: string)

  const TooManyRequests: Verdict :=
    Reject(429, "text/plain", "3600", "Too many requests. Try again in an hour.")

  /**
    The refusal carries status 429, a plain-text body, and a Retry-After that is
    the length of one window written in seconds.
   */
  lemma TooManyRequestsResponse()
    ensures TooManyRequests.Reject? && TooManyRequests.status == 429
    ensures TooManyRequests.contentType == "text/plain"
    ensures TooManyRequests.retryAfter == Decimal(WindowMs / 1000)
    ensures TooManyRequests.body == "Too many requests. Try again in an hour."
  {
    assert Decimal(3) == "3";
    assert Decimal(36) == "36";
    assert Decimal(360) == "360";
    assert Decimal(3600) == "3600";
  }

  /** One inbound request, reduced to what the handler reads of it. */
  datatype Request = Request(header: Option<string>, path: string, now: nat)

  // ---------------------------------------------------------------------------
  // Classifying the request

  predicate StartsWith(s: string, prefix: string) {
    |prefix| <= |s| && s[..|prefix|] == prefix
  }

  predicate EndsWith(s: string, suffix: string) {
    |suffix| <= |s| && s[|s| - |suffix|..] == suffix
  }

  /** The path prefixes and file extensions of static assets. */
  const ExemptPrefixes: seq<string> := ["/assets/", "/_next/"]
  const ExemptSuffixes: seq<string> := [".png", ".js", ".css", ".ico"]

  /** Static assets are never counted: a path is exempt when it has one of the asset prefixes or extensions. */
  predicate IsExempt(path: string): (b: bool)
    ensures b <==> ((exists p :: p in ExemptPrefixes && StartsWith(path, p))
                 || (exists x :: x in ExemptSuffixes && EndsWith(path, x)))
  {
    || StartsWith(path, "/assets/")
    || StartsWith(path, "/_next/")
    || EndsWith(path, ".png")
    || EndsWith(path, ".js")
    || EndsWith(path, ".css")
    || EndsWith(path, ".ico")
  }

  /** Concrete asset paths: images, scripts, styles and the favicon are exempt. */
  lemma ExemptAssets()
    ensures IsExempt("/assets/logo.png") && IsExempt("/_next/static/app") && IsExempt("/favicon.ico")
    ensures IsExempt("/main.js") && IsExempt("/style.css")
  {
    assert StartsWith("/assets/logo.png", "/assets/");
    assert StartsWith("/_next/static/app", "/_next/");
    assert EndsWith("/favicon.ico", ".ico");
    assert EndsWith("/main.js", ".js");
    assert EndsWith("/style.css", ".css");
  }

  /**
    A path is counted when its second character rules out both prefixes and its
    last character rules out every extension.
   */
  lemma CountedByFirstAndLast(path: string)
    requires |path| >= 2 && path[1] != 'a' && path[1] != '_'
    requires path[|path| - 1] != 'g' && path[|path| - 1] != 's' && path[|path| - 1] != 'o'
    ensures !IsExempt(path)
  {
    forall p | p in ExemptPrefixes ensures !StartsWith(path, p) {
      assert |p| >= 2 && p[1] in {'a', '_'};
      if |p| <= |path| {
        assert path[..|p|][1] == path[1];
      }
    }
    forall x | x in ExemptSuffixes ensures !EndsWith(path, x) {
      assert |x| >= 1 && x[|x| - 1] in {'g', 's', 'o'};
      if |x| <= |path| {
        assert path[|path| - |x|..][|x| - 1] == path[|path| - 1];
      }
    }
  }

  /** Concrete counted paths: the home page, a tool page, and an extension that only begins like ".js". */
  lemma CountedPages()
    ensures !IsExempt("/") && !IsExempt("/merge-pdf") && !IsExempt("/data.json")
  {
    CountedByFirstAndLast("/merge-pdf");
    CountedByFirstAndLast("/data.json");
  }

  /**
    The client identity: the value of the client-connection-ip header, or
    "unknown" when the header is missing or empty (an empty string is falsy).
   */
  function Identity(header: Option<string>): (ip: string)
    ensures ip != ""
    ensures header.Some? && header.value != "" ==> ip == header.value
    ensures header.None? || header.value == "" ==> ip == "unknown"
  {
    if header.Some? && header.value != "" then header.value else "unknown"
  }

  /** The index of the hour that the millisecond timestamp now falls in. */
  function Hour(now: nat): (hour: nat)
    ensures hour * WindowMs <= now < (hour + 1) * WindowMs
  {
    now / WindowMs
  }

  /** The key of the counter that a request at time now from this header is charged to. */
  function KeyOf(header: Option<string>, now: nat): (key: Key)
    ensures key.0 == Identity(header) && key.0 != ""
    ensures key.1 * WindowMs <= now < (key.1 + 1) * WindowMs
  {
    (Identity(header), Hour(now))
  }

  /** Two requests are charged to the same pair exactly when the handler builds the same string key for them. */
  lemma KeyMatchesStringKey(header1: Option<string>, now1: nat, header2: Option<string>, now2: nat)
    ensures KeyOf(header1, now1) == KeyOf(header2, now2) <==>
      KeyString(Identity(header1), Hour(now1)) == KeyString(Identity(header2), Hour(now2))
  {
    KeyStringInjective(Identity(header1), Hour(now1), Identity(header2), Hour(now2));
  }

  // ---------------------------------------------------------------------------
  // The counter map

  /** The stored count for key, a missing entry counting as zero. */
  function CountOf(m: RateMap, key: Key): (c: nat)
    ensures key in m ==> c == m[key].count
    ensures key !in m ==> c == 0
  {
    if key in m then m[key].count else 0
  }

  /**
    What the handler keeps true of every stored entry: for the key of identity
    ip and hour index h, its count is between 1 and the limit, and it goes
    stale at hour h + 1.
   */
  ghost predicate WellFormed(m: RateMap) {
    forall k :: k in m ==> 1 <= m[k].count <= Limit && m[k].resetAt == k.1 + 1
  }

  /** The map with every entry stale at currentHour removed. */
  function Swept(m: RateMap, currentHour: nat): (r: RateMap)
    ensures forall k :: k in r <==> k in m && m[k].resetAt > currentHour
    ensures forall k :: k in r ==> r[k] == m[k]
  {
    map k | k in m && m[k].resetAt > currentHour :: m[k]
  }

  /** The number of entries once key has been written. */
  function SizeAfterWrite(m: RateMap, key: Key): nat {
    if key in m then |m| else |m| + 1
  }

  /**
    An admitted request: the counter for key goes up by one and goes stale at
    the next hour, then the sweep runs if the map has grown past the threshold.
   */
  function Admit(m: RateMap, key: Key, currentHour: nat): (r: RateMap)
    ensures key in r && r[key] == Entry(CountOf(m, key) + 1, currentHour + 1)
    ensures r.Keys <= m.Keys + {key}
  {
    var written := Written(m, key, currentHour);
    if |written| > SweepThreshold then Swept(written, currentHour) else written
  }

  /**
    After an admission the counter for key holds one more than before and goes
    stale at the next hour; no other key is added or changed, and another key is
    gone only when the map grew past the threshold and its entry was stale.
   */
  lemma AdmitEffect(m: RateMap, key: Key, currentHour: nat)
    ensures var r := Admit(m, key, currentHour);
      && key in r && r[key] == Entry(CountOf(m, key) + 1, currentHour + 1)
      && (forall k :: k in r && k != key ==> k in m && r[k] == m[k])
      && (forall k :: k in m && k != key ==>
            (k in r <==> SizeAfterWrite(m, key) <= SweepThreshold || m[k].resetAt > currentHour))
  {
  }

  /** The map after the write of an admitted request, before any sweep. */
  function Written(m: RateMap, key: Key, currentHour: nat): (r: RateMap)
    ensures r.Keys == m.Keys + {key}
    ensures |r| == SizeAfterWrite(m, key)
    ensures r[key] == Entry(CountOf(m, key) + 1, currentHour + 1)
    ensures r == m[key := r[key]]
  {
    var r := m[key := Entry(CountOf(m, key) + 1, currentHour + 1)];
    assert r.Keys == m.Keys + {key};
    r
  }

  /**
    One call of the handler as a function of the counter map before it: the
    verdict and the counter map after it.
   */
  function Step(m: RateMap, header: Option<string>, path: string, now: nat): (r: (Verdict, RateMap))
    ensures r.0 == Allow || r.0 == TooManyRequests
    ensures IsExempt(path) || r.0 == TooManyRequests ==> r.1 == m
  {
    if IsExempt(path) then (Allow, m)
    else
      var key := KeyOf(header, now);
      if CountOf(m, key) >= Limit then (TooManyRequests, m)
      else (Allow, Admit(m, key, Hour(now)))
  }

  /** A sequence of requests handled one after another, starting from m. */
  function Run(m: RateMap, reqs: seq<Request>): (r: (seq<Verdict>, RateMap))
    ensures |r.0| == |reqs|
    decreases |reqs|
  {
    if reqs == [] then ([], m)
    else
      var last := reqs[|reqs| - 1];
      var before := Run(m, reqs[..|reqs| - 1]);
      var after := Step(before.1, last.header, last.path, last.now);
      (before.0 + [after.0], after.1)
  }

  /** Handling a sequence of requests is handling all but the last, then the last. */
  lemma RunLast(m: RateMap, reqs: seq<Request>)
    requires reqs != []
    ensures var last := reqs[|reqs| - 1];
      var before := Run(m, reqs[..|reqs| - 1]);
      var after := Step(before.1, last.header, last.path, last.now);
      Run(m, reqs) == (before.0 + [after.0], after.1)
  {
  }

  // ---------------------------------------------------------------------------
  // Properties of the handler

  /**
    An exempt path is let through with the map untouched. Otherwise the answer is
    the 429 response exactly when the request's counter has reached the limit,
    and then the map is untouched too; every other call is let through.
   */
  lemma StepOutcome(m: RateMap, header: Option<string>, path: string, now: nat)
    ensures var r := Step(m, header, path, now);
      && (IsExempt(path) ==> r == (Allow, m))
      && (r.0 == Allow || r.0 == TooManyRequests)
      && (r.0 == TooManyRequests <==> !IsExempt(path) && CountOf(m, KeyOf(header, now)) >= Limit)
      && (r.0 == TooManyRequests ==> r.1 == m)
      && (!IsExempt(path) && r.0 == Allow ==> r.1 == Admit(m, KeyOf(header, now), Hour(now)))
  {
  }

  /** Every call keeps the counter map well formed. */
  lemma StepPreservesWellFormed(m: RateMap, header: Option<string>, path: string, now: nat)
    requires WellFormed(m)
    ensures WellFormed(Step(m, header, path, now).1)
  {
    var key := KeyOf(header, now);
    if !IsExempt(path) && CountOf(m, key) < Limit {
      var r := Admit(m, key, Hour(now));
      assert Step(m, header, path, now).1 == r;
      AdmitEffect(m, key, Hour(now));
      forall k | k in r ensures 1 <= r[k].count <= Limit && r[k].resetAt == k.1 + 1 {
        if k != key {
          assert k in m && r[k] == m[k];
        }
      }
    }
  }

  /**
    In a well-formed map the sweep removes only counters of hours before the
    current one, and never the counter just written.
   */
  lemma SweepRemovesOnlyPastHours(m: RateMap, header: Option<string>, path: string, now: nat, k: Key)
    requires WellFormed(m)
    requires k in m && k !in Step(m, header, path, now).1
    ensures k.1 < Hour(now)
    ensures k != KeyOf(header, now)
  {
    AdmitEffect(m, KeyOf(header, now), Hour(now));
  }

  /** The verdict depends on the map only through the counter of the request's own identity and hour. */
  lemma VerdictDependsOnOwnCounter(m1: RateMap, m2: RateMap, header: Option<string>, path: string, now: nat)
    requires CountOf(m1, KeyOf(header, now)) == CountOf(m2, KeyOf(header, now))
    ensures Step(m1, header, path, now).0 == Step(m2, header, path, now).0
  {
  }

  /** A call never raises the count of any other identity or hour; at most it sweeps it to zero. */
  lemma StepLeavesOtherCounters(m: RateMap, header: Option<string>, path: string, now: nat, k: Key)
    requires k != KeyOf(header, now)
    ensures CountOf(Step(m, header, path, now).1, k) <= CountOf(m, k)
  {
    AdmitEffect(m, KeyOf(header, now), Hour(now));
  }

  /** The verdict on a counted request whose counter stands at count. */
  function VerdictAt(count: nat): Verdict {
    if count < Limit then Allow else TooManyRequests
  }

  /** A count that stops growing at the limit. */
  function Capped(count: nat): nat {
    if count < Limit then count else Limit
  }

  /** A counted request is admitted exactly when its counter is under the limit, and then adds one to it. */
  lemma StepOnOwnCounter(m: RateMap, header: Option<string>, path: string, now: nat)
    requires !IsExempt(path)
    ensures var c := CountOf(m, KeyOf(header, now));
      var r := Step(m, header, path, now);
      && r.0 == VerdictAt(c)
      && CountOf(r.1, KeyOf(header, now)) == if c < Limit then c + 1 else c
  {
    AdmitEffect(m, KeyOf(header, now), Hour(now));
  }

  /** The request is not exempt and is charged to the counter under key. */
  predicate CountedAgainst(req: Request, key: Key) {
    !IsExempt(req.path) && KeyOf(req.header, req.now) == key
  }

  /**
    Requests charged to one counter, handled in a row: while the count is under
    the limit each is admitted and adds one, after that each is refused and the
    count stays at the limit.
   */
  lemma {:induction false} SameCounterRun(m: RateMap, reqs: seq<Request>, key: Key)
    requires forall i :: 0 <= i < |reqs| ==> CountedAgainst(reqs[i], key)
    requires CountOf(m, key) <= Limit
    ensures Run(m, reqs).0 == Verdicts(CountOf(m, key), |reqs|)
    ensures CountOf(Run(m, reqs).1, key) == Capped(CountOf(m, key) + |reqs|)
    decreases |reqs|
  {
    if reqs != [] {
      var n := |reqs| - 1;
      var init := reqs[..n];
      forall i | 0 <= i < n ensures CountedAgainst(init[i], key) {
        assert init[i] == reqs[i];
      }
      SameCounterRun(m, init, key);
      RunLastOnOwnCounter(m, reqs, key);
      VerdictsSnoc(CountOf(m, key), n);
    }
  }

  /** The verdicts on n counted requests whose counter starts at start. */
  function Verdicts(start: nat, n: nat): (vs: seq<Verdict>)
    ensures |vs| == n
    ensures forall i :: 0 <= i < n ==> vs[i] == VerdictAt(start + i)
  {
    seq(n, i requires 0 <= i < n => VerdictAt(start + i))
  }

  /** One more counted request appends the verdict for the capped count so far. */
  lemma VerdictsSnoc(start: nat, n: nat)
    ensures Verdicts(start, n + 1) == Verdicts(start, n) + [VerdictAt(Capped(start + n))]
  {
    assert Verdicts(start, n + 1)[n] == VerdictAt(start + n);
  }

  /** The last of a sequence of requests, when counted against key, is answered as its counter stands after the others. */
  lemma RunLastOnOwnCounter(m: RateMap, reqs: seq<Request>, key: Key)
    requires reqs != []
    requires CountedAgainst(reqs[|reqs| - 1], key)
    ensures var c := CountOf(Run(m, reqs[..|reqs| - 1]).1, key);
      && Run(m, reqs).0 == Run(m, reqs[..|reqs| - 1]).0 + [VerdictAt(c)]
      && CountOf(Run(m, reqs).1, key) == if c < Limit then c + 1 else c
  {
    var last := reqs[|reqs| - 1];
    RunLast(m, reqs);
    StepOnOwnCounter(Run(m, reqs[..|reqs| - 1]).1, last.header, last.path, last.now);
  }

  /** Requests charged to one counter never raise the count of any other counter. */
  lemma {:induction false} RunLeavesOtherCounters(m: RateMap, reqs: seq<Request>, key: Key, k: Key)
    requires forall i :: 0 <= i < |reqs| ==> KeyOf(reqs[i].header, reqs[i].now) == key
    requires k != key
    ensures CountOf(Run(m, reqs).1, k) <= CountOf(m, k)
    decreases |reqs|
  {
    if reqs != [] {
      var n := |reqs| - 1;
      var init := reqs[..n];
      var last := reqs[n];
      assert forall i :: 0 <= i < n ==> init[i] == reqs[i];
      RunLeavesOtherCounters(m, init, key, k);
      RunLast(m, reqs);
      StepLeavesOtherCounters(Run(m, init).1, last.header, last.path, last.now, k);
    }
  }

  /** Any sequence of requests handled from a well-formed map, a fresh one among them, leaves it well formed. */
  lemma {:induction false} RunPreservesWellFormed(m: RateMap, reqs: seq<Request>)
    requires WellFormed(m)
    ensures WellFormed(Run(m, reqs).1)
    decreases |reqs|
  {
    if reqs != [] {
      var n := |reqs| - 1;
      var last := reqs[n];
      RunPreservesWellFormed(m, reqs[..n]);
      RunLast(m, reqs);
      StepPreservesWellFormed(Run(m, reqs[..n]).1, last.header, last.path, last.now);
    }
  }

  /**
    51 requests by one identity within one hour, starting from a map that holds
    no counter of that identity for this hour or the next (a fresh map, say):
    the first 50 are admitted and the 51st is refused with 429; a request in
    the next hour is admitted again.
   */
  lemma FiftyPerHour(m: RateMap, ip: string, reqs: seq<Request>, hour: nat, later: Request)
    requires ip != ""
    requires CountOf(m, (ip, hour)) == 0 && CountOf(m, (ip, hour + 1)) == 0
    requires |reqs| == Limit + 1
    requires forall i :: 0 <= i < |reqs| ==>
      reqs[i].header == Some(ip) && !IsExempt(reqs[i].path) && Hour(reqs[i].now) == hour
    requires later.header == Some(ip) && !IsExempt(later.path) && Hour(later.now) == hour + 1
    ensures forall i :: 0 <= i < Limit ==> Run(m, reqs).0[i] == Allow
    ensures Run(m, reqs).0[Limit] == TooManyRequests
    ensures Step(Run(m, reqs).1, later.header, later.path, later.now).0 == Allow
  {
    var key, next := (ip, hour), (ip, hour + 1);
    forall i | 0 <= i < |reqs| ensures CountedAgainst(reqs[i], key) {
      assert Identity(reqs[i].header) == ip;
    }
    SameCounterRun(m, reqs, key);
    RunLeavesOtherCounters(m, reqs, key, next);
    var after := Run(m, reqs).1;
    assert KeyOf(later.header, later.now) == next;
    StepOnOwnCounter(after, later.header, later.path, later.now);
  }

  // ---------------------------------------------------------------------------
  // The handler and the state it owns

  /** The module-level counter map and the request handler that updates it. */
  class RateLimiter {
    var rateMap: RateMap

    ghost predicate Valid()
      reads this
    {
      WellFormed(rateMap)
    }

    /** A fresh instance, as after a cold start: no counters. */
    constructor ()
      ensures Valid() && rateMap == map[]
    {
      rateMap := map[];
    }

    /** Handles one request: answers it and updates the counters as Step says. */
    method Handle(header: Option<string>, path: string, now: nat) returns (v: Verdict)
      requires Valid()
      modifies this
      ensures Valid()
      ensures (v, rateMap) == Step(old(rateMap), header, path, now)
      ensures IsExempt(path) ==> v == Allow && rateMap == old(rateMap)
    {
      var ip := Identity(header);
      if IsExempt(path) {
        return Allow;
      }
      var currentHour := Hour(now);
      var key := (ip, currentHour);
      var entry := if key in rateMap then rateMap[key] else Entry(0, currentHour + 1);
      assert key == KeyOf(header, now) && entry.count == CountOf(rateMap, key);
      if entry.count >= Limit {
        return TooManyRequests;
      }
      ghost var before := rateMap;
      rateMap := rateMap[key := Entry(entry.count + 1, currentHour + 1)];
      assert rateMap == Written(before, key, currentHour);
      if |rateMap| > SweepThreshold {
        SweepExpired(currentHour);
      }
      StepPreservesWellFormed(before, header, path, now);
      return Allow;
    }

    /** Deletes, one key at a time, every entry whose resetAt is not after currentHour. */
    method SweepExpired(currentHour: nat)
      modifies this
      ensures rateMap == Swept(old(rateMap), currentHour)
    {
      var pending := rateMap.Keys;
      while pending != {}
        invariant pending <= old(rateMap).Keys
        invariant forall k :: k in rateMap <==>
          k in old(rateMap) && (k in pending || old(rateMap)[k].resetAt > currentHour)
        invariant forall k :: k in rateMap ==> rateMap[k] == old(rateMap)[k]
        decreases pending
      {
        var k :| k in pending;
        if rateMap[k].resetAt <= currentHour {
          rateMap := rateMap - {k};
        }
        pending := pending - {k};
      }
    }
  }
}
