/**
 The request limiter as a state machine: per client a bucket of tokens refilled on a visit once a window has
 passed, and a sweeper that forgets clients not seen for two windows.

 Times are read under the mutex, so they do not decrease along a trace.
 */
module RateLimiting {
  import opened Basics

  datatype Limits = Limits(rate: int, window: int)

  datatype Bucket = Bucket(tokens: int, lastSeen: int, lastRefill: int)

  type Visitors = map<string, Bucket>

  datatype Event =
    | Request(ip: string, now: int)
    | Sweep(now: int)

  // ----- the machine -----

  /** A visit to an existing bucket. */
  function Visit(l: Limits, b: Bucket, now: int): (Bucket, bool) {
    var seen := b.(lastSeen := now);
    var filled := if now - b.lastRefill >= l.window then seen.(tokens := l.rate, lastRefill := now) else seen;
    if filled.tokens > 0 then (filled.(tokens := filled.tokens - 1), true) else (filled, false)
  }

  function Allow(l: Limits, v: Visitors, ip: string, now: int): (Visitors, bool) {
    if ip !in v then (v[ip := Bucket(l.rate - 1, now, now)], true)
    else
      var (b, ok) := Visit(l, v[ip], now);
      (v[ip := b], ok)
  }

  function SweepOut(l: Limits, v: Visitors, now: int): Visitors {
    map ip | ip in v && now - v[ip].lastSeen <= l.window * 2 :: v[ip]
  }

  function After(l: Limits, trace: seq<Event>): Visitors {
    if trace == [] then map[]
    else
      var v := After(l, Front(trace));
      match Last(trace)
      case Request(ip, now) => Allow(l, v, ip, now).0
      case Sweep(now) => SweepOut(l, v, now)
  }

  /** The answers given, in order. */
  function Answers(l: Limits, trace: seq<Event>): seq<bool> {
    if trace == [] then []
    else
      var v := After(l, Front(trace));
      match Last(trace)
      case Request(ip, now) => Answers(l, Front(trace)) + [Allow(l, v, ip, now).1]
      case Sweep(_) => Answers(l, Front(trace))
  }

  /** The answers given to one client. */
  function AnswersTo(l: Limits, trace: seq<Event>, ip: string): seq<bool> {
    if trace == [] then []
    else
      var v := After(l, Front(trace));
      if Last(trace).Request? && Last(trace).ip == ip
      then AnswersTo(l, Front(trace), ip) + [Allow(l, v, ip, Last(trace).now).1]
      else AnswersTo(l, Front(trace), ip)
  }

  ghost predicate Timed(trace: seq<Event>) {
    forall i, j :: 0 <= i < j < |trace| ==> trace[i].now <= trace[j].now
  }

  // ----- the specification: refill epochs of one client's own requests -----

  /** The request times of one client. */
  function Times(trace: seq<Event>, ip: string): seq<int> {
    if trace == [] then []
    else if Last(trace).Request? && Last(trace).ip == ip then Times(Front(trace), ip) + [Last(trace).now]
    else Times(Front(trace), ip)
  }

  /** When the current epoch began, and how many requests it has seen. */
  datatype Epoch = Epoch(start: int, used: nat)

  /** A request at least a window after the start of the epoch begins the next one. */
  function CurrentEpoch(l: Limits, ts: seq<int>): (e: Epoch)
    requires ts != []
    ensures 1 <= e.used
  {
    if |ts| == 1 then Epoch(ts[0], 1)
    else
      var e := CurrentEpoch(l, Front(ts));
      if Last(ts) - e.start >= l.window then Epoch(Last(ts), 1) else Epoch(e.start, e.used + 1)
  }

  /** Within each epoch exactly the first `rate` requests are allowed. */
  function SpecAnswers(l: Limits, ts: seq<int>): seq<bool> {
    if ts == [] then []
    else SpecAnswers(l, Front(ts)) + [CurrentEpoch(l, ts).used <= l.rate]
  }

  /** The bucket a client would have if it were never forgotten. */
  function SpecBucket(l: Limits, ts: seq<int>): Bucket
    requires ts != []
  {
    var e := CurrentEpoch(l, ts);
    Bucket(Max(0, l.rate - e.used), Last(ts), e.start)
  }

  ghost predicate NonDecreasing(ts: seq<int>) {
    forall i, j :: 0 <= i < j < |ts| ==> ts[i] <= ts[j]
  }

  lemma {:induction false} TimesAreTimed(trace: seq<Event>, ip: string)
    requires Timed(trace)
    ensures NonDecreasing(Times(trace, ip))
    ensures Times(trace, ip) != [] ==> Last(Times(trace, ip)) <= Last(trace).now
  {
    if trace != [] {
      TimesAreTimed(Front(trace), ip);
    }
  }

  lemma {:induction false} EpochStartBounds(l: Limits, ts: seq<int>)
    requires ts != [] && NonDecreasing(ts)
    ensures ts[0] <= CurrentEpoch(l, ts).start <= Last(ts)
    ensures 0 < l.window ==> Last(ts) - CurrentEpoch(l, ts).start < l.window
  {
    if |ts| > 1 {
      EpochStartBounds(l, Front(ts));
    }
  }

  /** One visit advances the specification by one request. */
  lemma {:induction false} VisitFollowsSpec(l: Limits, ts: seq<int>, now: int)
    requires ts != [] && 1 <= l.rate
    ensures Visit(l, SpecBucket(l, ts), now) == (SpecBucket(l, ts + [now]), CurrentEpoch(l, ts + [now]).used <= l.rate)
  {
    assert Front(ts + [now]) == ts;
  }

  /** A bucket idle for two windows is refilled to what a new visitor gets. */
  lemma ForgottenIsNew(l: Limits, ts: seq<int>, now: int)
    requires ts != [] && NonDecreasing(ts) && 1 <= l.rate
    requires now - Last(ts) > l.window * 2 && Last(ts) <= now
    ensures CurrentEpoch(l, ts + [now]) == Epoch(now, 1)
    ensures SpecBucket(l, ts + [now]) == Bucket(l.rate - 1, now, now)
  {
    EpochStartBounds(l, ts);
    assert Front(ts + [now]) == ts;
  }

  /**
   The state of every client, in every trace with any number of sweeps: absent if it never came, the bucket its
   own requests determine if it is remembered, and otherwise idle for more than two windows.
   */
  lemma {:induction false} BucketFollowsSpec(l: Limits, trace: seq<Event>, ip: string)
    requires Timed(trace) && 1 <= l.rate
    ensures var ts := Times(trace, ip);
            var v := After(l, trace);
            && (ts == [] ==> ip !in v)
            && (ts != [] && ip in v ==> v[ip] == SpecBucket(l, ts))
            && (ts != [] && ip !in v ==> Last(trace).now - Last(ts) > l.window * 2)
  {
    if trace != [] {
      var front, e := Front(trace), Last(trace);
      var ts := Times(front, ip);
      BucketFollowsSpec(l, front, ip);
      TimesAreTimed(front, ip);
      if e.Request? && e.ip == ip && ts != [] {
        if ip in After(l, front) {
          VisitFollowsSpec(l, ts, e.now);
        } else {
          ForgottenIsNew(l, ts, e.now);
        }
      }
    }
  }

  /** The machine's answer to the last request is the specification's. */
  lemma AnswerFollowsSpec(l: Limits, trace: seq<Event>, ip: string, now: int)
    requires Timed(trace + [Request(ip, now)]) && 1 <= l.rate
    ensures Allow(l, After(l, trace), ip, now).1 <==> CurrentEpoch(l, Times(trace, ip) + [now]).used <= l.rate
  {
    var all := trace + [Request(ip, now)];
    var ts := Times(trace, ip);
    assert Front(all) == trace && Last(all) == Request(ip, now);
    assert Timed(trace) by {
      forall i, j | 0 <= i < j < |trace| ensures trace[i].now <= trace[j].now {
        assert trace[i] == all[i] && trace[j] == all[j];
      }
    }
    BucketFollowsSpec(l, trace, ip);
    TimesAreTimed(trace, ip);
    TimesAreTimed(all, ip);
    if ts != [] {
      if ip in After(l, trace) {
        VisitFollowsSpec(l, ts, now);
      } else {
        ForgottenIsNew(l, ts, now);
      }
    }
  }

  /**
   Over every trace, whatever other clients do and whenever the sweeper runs, a client is answered exactly as its
   own request times dictate: in each epoch the first `rate` requests are allowed and no others.
   */
  lemma {:induction false} LimiterMeetsSpec(l: Limits, trace: seq<Event>, ip: string)
    requires Timed(trace) && 1 <= l.rate
    ensures AnswersTo(l, trace, ip) == SpecAnswers(l, Times(trace, ip))
  {
    if trace != [] {
      LimiterMeetsSpec(l, Front(trace), ip);
      var e := Last(trace);
      assert trace == Front(trace) + [e];
      if e.Request? && e.ip == ip {
        AnswerFollowsSpec(l, Front(trace), ip, e.now);
        var ts := Times(Front(trace), ip);
        assert Front(ts + [e.now]) == ts;
      }
    }
  }

  /** Clients do not affect each other. */
  lemma ClientsAreIndependent(l: Limits, t: seq<Event>, u: seq<Event>, ip: string)
    requires Timed(t) && Timed(u) && 1 <= l.rate
    requires Times(t, ip) == Times(u, ip)
    ensures AnswersTo(l, t, ip) == AnswersTo(l, u, ip)
  {
    LimiterMeetsSpec(l, t, ip);
    LimiterMeetsSpec(l, u, ip);
  }

  /** Tokens stay between zero and the rate. */
  lemma {:induction false} TokensStayInRange(l: Limits, trace: seq<Event>, ip: string)
    requires Timed(trace) && 1 <= l.rate
    requires ip in After(l, trace)
    ensures 0 <= After(l, trace)[ip].tokens < l.rate
    ensures After(l, trace)[ip].lastRefill <= After(l, trace)[ip].lastSeen <= Last(trace).now
  {
    BucketFollowsSpec(l, trace, ip);
    TimesAreTimed(trace, ip);
    EpochStartBounds(l, Times(trace, ip));
  }

  // ----- who is remembered -----

  /** Whoever is remembered is remembered with the time of its last request. */
  lemma {:induction false} LastSeenIsLastRequest(l: Limits, trace: seq<Event>, ip: string)
    ensures ip in After(l, trace) ==> Times(trace, ip) != [] && After(l, trace)[ip].lastSeen == Last(Times(trace, ip))
  {
    if trace != [] {
      LastSeenIsLastRequest(l, Front(trace), ip);
    }
  }

  /**
   After a sweep a client is remembered exactly if it was before and its last request is at most two windows old; and
   then with the bucket it had.
   */
  lemma {:induction false} SweepForgetsTheIdle(l: Limits, trace: seq<Event>, now: int, ip: string)
    ensures var before, after := After(l, trace), After(l, trace + [Sweep(now)]);
            && (ip in before ==> Times(trace, ip) != [])
            && (ip in after <==> ip in before && now - Last(Times(trace, ip)) <= 2 * l.window)
            && (ip in after ==> after[ip] == before[ip])
  {
    LastSeenIsLastRequest(l, trace, ip);
    assert Front(trace + [Sweep(now)]) == trace && Last(trace + [Sweep(now)]) == Sweep(now);
  }

  /** After a request its client is remembered, whatever the answer, and so is everybody else who was, unchanged. */
  lemma {:induction false} RequestsAreRemembered(l: Limits, trace: seq<Event>, who: string, now: int, ip: string)
    ensures var before, after := After(l, trace), After(l, trace + [Request(who, now)]);
            && (ip in after <==> ip in before || ip == who)
            && (ip in before && ip != who ==> after[ip] == before[ip])
            && after[who].lastSeen == now
  {
    assert Front(trace + [Request(who, now)]) == trace && Last(trace + [Request(who, now)]) == Request(who, now);
  }

  lemma {:induction false} NoTokensWithoutRate(l: Limits, trace: seq<Event>, ip: string)
    requires l.rate < 1
    ensures ip in After(l, trace) ==> After(l, trace)[ip].tokens <= 0
  {
    if trace != [] {
      NoTokensWithoutRate(l, Front(trace), ip);
    }
  }

  /** With no positive rate a request is allowed exactly when its client is not remembered. */
  lemma {:induction false} OnlyStrangersWithoutRate(l: Limits, trace: seq<Event>, ip: string, now: int)
    requires l.rate < 1
    ensures Allow(l, After(l, trace), ip, now).1 <==> ip !in After(l, trace)
  {
    NoTokensWithoutRate(l, trace, ip);
  }

  // ----- the sweeper is invisible -----

  function DropSweeps(trace: seq<Event>): seq<Event> {
    if trace == [] then []
    else if Last(trace).Sweep? then DropSweeps(Front(trace))
    else DropSweeps(Front(trace)) + [Last(trace)]
  }

  lemma {:induction false} DropSweepsTimes(trace: seq<Event>, ip: string)
    requires Timed(trace)
    ensures Timed(DropSweeps(trace))
    ensures DropSweeps(trace) != [] ==> Last(DropSweeps(trace)).now <= Last(trace).now
    ensures Times(DropSweeps(trace), ip) == Times(trace, ip)
  {
    if trace != [] {
      DropSweepsTimes(Front(trace), ip);
      if !Last(trace).Sweep? {
        var d := DropSweeps(Front(trace));
        assert Front(d + [Last(trace)]) == d;
      }
    }
  }

  lemma {:induction false} SweepsChangeNothing(l: Limits, trace: seq<Event>)
    requires Timed(trace) && 1 <= l.rate
    ensures Answers(l, trace) == Answers(l, DropSweeps(trace))
  {
    if trace != [] {
      SweepsChangeNothing(l, Front(trace));
      var e := Last(trace);
      assert trace == Front(trace) + [e];
      if e.Request? {
        var d := DropSweeps(Front(trace));
        assert Front(d + [e]) == d && DropSweeps(trace) == d + [e];
        DropSweepsTimes(Front(trace), e.ip);
        DropSweepsTimes(trace, e.ip);
        AnswerFollowsSpec(l, Front(trace), e.ip, e.now);
        AnswerFollowsSpec(l, d, e.ip, e.now);
      }
    }
  }

  /** A client comes, is swept out after two idle windows, and comes back. */
  function SweptTrace(l: Limits): seq<Event> {
    var later := Max(0, 2 * l.window + 1);
    [Request("", 0)] + [Sweep(later)] + [Request("", later)]
  }

  lemma {:induction false} OneMoreEvent(l: Limits, trace: seq<Event>, e: Event)
    ensures After(l, trace + [e]) == (match e
                                      case Request(ip, now) => Allow(l, After(l, trace), ip, now).0
                                      case Sweep(now) => SweepOut(l, After(l, trace), now))
    ensures Answers(l, trace + [e])
         == Answers(l, trace) + if e.Request? then [Allow(l, After(l, trace), e.ip, e.now).1] else []
    ensures DropSweeps(trace + [e]) == DropSweeps(trace) + if e.Request? then [e] else []
  {
    assert Front(trace + [e]) == trace && Last(trace + [e]) == e;
  }

  lemma {:induction false} FirstRequest(l: Limits, trace: seq<Event>, ip: string, now: int)
    requires trace == [Request(ip, now)]
    ensures After(l, trace) == map[ip := Bucket(l.rate - 1, now, now)]
    ensures Answers(l, trace) == [true] && DropSweeps(trace) == trace
  {
    assert trace == [] + [Request(ip, now)];
    OneMoreEvent(l, [], Request(ip, now));
  }

  lemma {:induction false} SweptAnswers(l: Limits, first: seq<Event>, ip: string, now: int, later: int)
    requires l.rate < 1 && first == [Request(ip, now)] && later - now > l.window * 2
    ensures Answers(l, first + [Sweep(later)] + [Request(ip, later)]) == [true, true]
    ensures DropSweeps(first + [Sweep(later)] + [Request(ip, later)]) == first + [Request(ip, later)]
  {
    var swept := first + [Sweep(later)];
    FirstRequest(l, first, ip, now);
    OneMoreEvent(l, first, Sweep(later));
    assert After(l, swept) == map[];
    OneMoreEvent(l, swept, Request(ip, later));
  }

  lemma {:induction false} UnsweptAnswers(l: Limits, first: seq<Event>, ip: string, now: int, later: int)
    requires l.rate < 1 && first == [Request(ip, now)]
    ensures Answers(l, first + [Request(ip, later)]) == [true, false]
  {
    FirstRequest(l, first, ip, now);
    OneMoreEvent(l, first, Request(ip, later));
  }

  /** With no positive rate a new visitor is still let in once, so being forgotten means being let in again. */
  lemma {:induction false} SweepShowsWithoutRate(l: Limits)
    requires l.rate < 1
    ensures Timed(SweptTrace(l))
    ensures Answers(l, SweptTrace(l)) == [true, true]
    ensures Answers(l, DropSweeps(SweptTrace(l))) == [true, false]
  {
    var later := Max(0, 2 * l.window + 1);
    SweptAnswers(l, [Request("", 0)], "", 0, later);
    UnsweptAnswers(l, [Request("", 0)], "", 0, later);
  }

  /** The sweeper never changes an answer, on any trace, exactly when the rate is at least one. */
  lemma SweeperIsInvisible(l: Limits)
    ensures 1 <= l.rate <==> forall trace :: Timed(trace) ==> Answers(l, trace) == Answers(l, DropSweeps(trace))
  {
    if 1 <= l.rate {
      forall trace | Timed(trace) ensures Answers(l, trace) == Answers(l, DropSweeps(trace)) {
        SweepsChangeNothing(l, trace);
      }
    } else {
      SweepShowsWithoutRate(l);
    }
  }

  // ----- how many requests fit into an interval -----

  /** Requests of one client allowed at times from `a` to `b`, both included. */
  function AllowedIn(l: Limits, trace: seq<Event>, ip: string, a: int, b: int): nat {
    if trace == [] then 0
    else
      var v := After(l, Front(trace));
      var e := Last(trace);
      AllowedIn(l, Front(trace), ip, a, b)
      + if e.Request? && e.ip == ip && a <= e.now <= b && Allow(l, v, ip, e.now).1 then 1 else 0
  }

  /** The most requests any closed interval of this length can see allowed. */
  function MostIn(l: Limits, length: nat): int
    requires 0 < l.window
  {
    if length % l.window == 0 then l.rate * (length / l.window + 1)
    else l.rate * (length / l.window + 2) - 1
  }

  /** The same count on the specification's side. */
  function SpecAllowedIn(l: Limits, ts: seq<int>, a: int, b: int): nat {
    if ts == [] then 0
    else SpecAllowedIn(l, Front(ts), a, b) + if a <= Last(ts) <= b && CurrentEpoch(l, ts).used <= l.rate then 1 else 0
  }

  lemma {:induction false} AllowedInMeetsSpec(l: Limits, trace: seq<Event>, ip: string, a: int, b: int)
    requires Timed(trace) && 1 <= l.rate
    ensures AllowedIn(l, trace, ip, a, b) == SpecAllowedIn(l, Times(trace, ip), a, b)
  {
    if trace != [] {
      AllowedInMeetsSpec(l, Front(trace), ip, a, b);
      var e := Last(trace);
      assert trace == Front(trace) + [e];
      if e.Request? && e.ip == ip {
        AnswerFollowsSpec(l, Front(trace), ip, e.now);
        var ts := Times(Front(trace), ip);
        assert Front(ts + [e.now]) == ts;
      }
    }
  }

  /** What earlier epochs can have contributed when an epoch starts `x` after the interval does. */
  function Earlier(l: Limits, x: nat): int
    requires 0 < l.window
  {
    l.rate * (x / l.window) + if x % l.window == 0 then 0 else l.rate - 1
  }

  lemma {:induction false} DivByMore(x: nat, y: nat, w: int)
    requires 0 < w && x <= y
    ensures x / w <= y / w
    ensures x / w == y / w ==> x % w <= y % w
  {
    if y / w < x / w {
      assert w * (y / w) + w <= w * (x / w) by {
        MulMonotone(w, y / w + 1, x / w);
      }
    }
  }

  lemma {:induction false} MulMonotone(k: int, x: int, y: int)
    requires 0 <= k && x <= y
    ensures k * x <= k * y
  {
    assert 0 <= k * (y - x);
  }

  lemma {:induction false} DivByOneMore(x: nat, w: int)
    requires 0 < w
    ensures (x + w) / w == x / w + 1 && (x + w) % w == x % w
  {
    var q, q' := x / w, (x + w) / w;
    assert x == w * q + x % w && x + w == w * q' + (x + w) % w;
    assert w * (q + 1) == w * q + w && w * (q + 2) == w * q + w + w && w * (q' + 1) == w * q' + w;
    if q' < q + 1 {
      MulMonotone(w, q' + 1, q + 1);
    } else if q + 1 < q' {
      MulMonotone(w, q + 2, q');
    }
  }

  lemma {:induction false} EarlierGrows(l: Limits, x: nat, y: nat)
    requires 0 < l.window && 1 <= l.rate && x <= y
    ensures 0 <= Earlier(l, x) <= Earlier(l, y)
  {
    DivByMore(x, y, l.window);
    MulMonotone(l.rate, 0, x / l.window);
    if x / l.window < y / l.window {
      MulMonotone(l.rate, x / l.window + 1, y / l.window);
    }
  }

  lemma {:induction false} EarlierPerWindow(l: Limits, x: nat)
    requires 0 < l.window && 1 <= l.rate
    ensures Earlier(l, x + l.window) == Earlier(l, x) + l.rate
  {
    DivByOneMore(x, l.window);
  }

  lemma {:induction false} EarlierHoldsOnePartial(l: Limits, x: nat)
    requires 0 < l.window && 1 <= l.rate && 0 < x
    ensures l.rate - 1 <= Earlier(l, x)
  {
    if x < l.window {
      assert x / l.window == 0 && x % l.window == x;
    } else {
      DivByMore(l.window, x, l.window);
      MulMonotone(l.rate, 1, x / l.window);
    }
  }

  /** When an epoch starts at `start`, everything counted so far belongs to earlier epochs. */
  lemma EpochTurns(l: Limits, previous: int, seen: int, start: int, a: int, n: nat)
    requires 0 < l.window && 1 <= l.rate
    requires previous <= seen < previous + l.window <= start && a <= start
    requires seen < a ==> n == 0
    requires previous < a ==> n <= l.rate - 1
    requires a <= previous ==> n <= Earlier(l, previous - a) + l.rate
    ensures n <= Earlier(l, start - a)
  {
    EarlierGrows(l, 0, start - a);
    if a <= previous {
      EarlierPerWindow(l, previous - a);
      EarlierGrows(l, previous - a + l.window, start - a);
    } else if a <= seen {
      EarlierHoldsOnePartial(l, start - a);
    }
  }

  /** Counting from `a` on: the current epoch gives what it has used up, earlier ones at most `Earlier`. */
  lemma {:induction false} CountByEpochs(l: Limits, ts: seq<int>, a: int, b: int)
    requires 0 < l.window && 1 <= l.rate
    requires ts != [] && NonDecreasing(ts) && Last(ts) <= b
    ensures var e := CurrentEpoch(l, ts);
            var u := if e.used <= l.rate then e.used else l.rate;
            var n := SpecAllowedIn(l, ts, a, b);
            && (Last(ts) < a ==> n == 0)
            && (e.start < a ==> n <= u - 1)
            && (a <= e.start ==> n <= Earlier(l, e.start - a) + u)
  {
    var e := CurrentEpoch(l, ts);
    EpochStartBounds(l, ts);
    if |ts| == 1 {
      assert SpecAllowedIn(l, Front(ts), a, b) == 0;
      if a <= e.start {
        EarlierGrows(l, 0, e.start - a);
      }
    } else {
      var front := Front(ts);
      var f := CurrentEpoch(l, front);
      CountByEpochs(l, front, a, b);
      EpochStartBounds(l, front);
      if e.used == 1 && a <= e.start {
        EpochTurns(l, f.start, Last(front), e.start, a, SpecAllowedIn(l, front, a, b));
      }
    }
  }

  lemma {:induction false} SpecCountBounded(l: Limits, ts: seq<int>, a: int, length: nat)
    requires 0 < l.window && 1 <= l.rate && NonDecreasing(ts)
    ensures SpecAllowedIn(l, ts, a, a + length) <= MostIn(l, length)
  {
    EarlierGrows(l, 0, length);
    assert MostIn(l, length) == Earlier(l, length) + l.rate;
    if ts != [] {
      if a + length < Last(ts) {
        SpecCountBounded(l, Front(ts), a, length);
      } else {
        CountByEpochs(l, ts, a, a + length);
        EpochStartBounds(l, ts);
        var e := CurrentEpoch(l, ts);
        if a <= e.start {
          EarlierGrows(l, e.start - a, length);
        }
      }
    }
  }

  /**
   Over every trace, with sweeps and other clients, no closed interval sees more than `MostIn` requests of one
   client allowed, also across deletion and re-creation of its bucket.
   */
  lemma WindowBound(l: Limits, trace: seq<Event>, ip: string, a: int, length: nat)
    requires 0 < l.window && 1 <= l.rate && Timed(trace)
    ensures AllowedIn(l, trace, ip, a, a + length) <= MostIn(l, length)
    ensures MostIn(l, length) <= l.rate * (length / l.window + 2)
  {
    AllowedInMeetsSpec(l, trace, ip, a, a + length);
    TimesAreTimed(trace, ip);
    SpecCountBounded(l, Times(trace, ip), a, length);
  }

  // ----- the bound is reached -----

  /** `n` more requests at time `t`. */
  function Burst(ts: seq<int>, t: int, n: nat): seq<int> {
    if n == 0 then ts else Burst(ts, t, n - 1) + [t]
  }

  /** As many requests as an epoch allows, all at time `t`. */
  function FullBurst(l: Limits, ts: seq<int>, t: int): seq<int>
    requires 1 <= l.rate
  {
    Burst(ts + [t], t, l.rate - 1)
  }

  /** `k` full bursts, a window apart. */
  function Bursts(l: Limits, ts: seq<int>, t: int, k: nat): seq<int>
    requires 1 <= l.rate
    decreases k
  {
    if k == 0 then ts else Bursts(l, FullBurst(l, ts, t), t + l.window, k - 1)
  }

  /** A time at which the next request starts an epoch. */
  predicate Opens(l: Limits, ts: seq<int>, t: int) {
    ts == [] || t - CurrentEpoch(l, ts).start >= l.window
  }

  /** One more request, as the specification counts it. */
  lemma {:induction false} OneMoreRequest(l: Limits, ts: seq<int>, t: int, a: int, b: int)
    requires NonDecreasing(ts) && (ts != [] ==> Last(ts) <= t)
    ensures NonDecreasing(ts + [t]) && Last(ts + [t]) == t
    ensures CurrentEpoch(l, ts + [t]) ==
              if Opens(l, ts, t) then Epoch(t, 1)
              else Epoch(CurrentEpoch(l, ts).start, CurrentEpoch(l, ts).used + 1)
    ensures SpecAllowedIn(l, ts + [t], a, b) ==
              SpecAllowedIn(l, ts, a, b) + if a <= t <= b && CurrentEpoch(l, ts + [t]).used <= l.rate then 1 else 0
  {
    assert Front(ts + [t]) == ts;
  }

  lemma {:induction false} OneMoreInEpoch(l: Limits, ts: seq<int>, t: int, a: int, b: int)
    requires ts != [] && NonDecreasing(ts) && Last(ts) <= t && a <= t <= b
    requires !Opens(l, ts, t) && CurrentEpoch(l, ts).used < l.rate
    ensures var r := ts + [t];
            && NonDecreasing(r) && Last(r) == t
            && CurrentEpoch(l, r) == Epoch(CurrentEpoch(l, ts).start, CurrentEpoch(l, ts).used + 1)
            && SpecAllowedIn(l, r, a, b) == SpecAllowedIn(l, ts, a, b) + 1
  {
    OneMoreRequest(l, ts, t, a, b);
  }

  /** Requests at one instant of the current epoch use up its tokens one by one. */
  lemma {:induction false} BurstInEpoch(l: Limits, ts: seq<int>, t: int, n: nat, a: int, b: int)
    requires ts != [] && NonDecreasing(ts) && Last(ts) <= t && a <= t <= b
    requires !Opens(l, ts, t) && CurrentEpoch(l, ts).used + n <= l.rate
    ensures var r := Burst(ts, t, n);
            && r != [] && NonDecreasing(r) && Last(r) <= t
            && CurrentEpoch(l, r) == Epoch(CurrentEpoch(l, ts).start, CurrentEpoch(l, ts).used + n)
            && SpecAllowedIn(l, r, a, b) == SpecAllowedIn(l, ts, a, b) + n
  {
    if n != 0 {
      BurstInEpoch(l, ts, t, n - 1, a, b);
      OneMoreInEpoch(l, Burst(ts, t, n - 1), t, a, b);
    }
  }

  /** A full burst at a time that opens an epoch is allowed whole. */
  lemma BurstAllowed(l: Limits, ts: seq<int>, t: int, a: int, b: int)
    requires 0 < l.window && 1 <= l.rate && a <= t <= b
    requires NonDecreasing(ts) && (ts != [] ==> Last(ts) <= t)
    requires Opens(l, ts, t)
    ensures var r := FullBurst(l, ts, t);
            && r != [] && NonDecreasing(r) && Last(r) <= t && CurrentEpoch(l, r).start == t
            && SpecAllowedIn(l, r, a, b) == SpecAllowedIn(l, ts, a, b) + l.rate
  {
    var first := ts + [t];
    assert NonDecreasing(first) && Last(first) == t && CurrentEpoch(l, first) == Epoch(t, 1)
           && SpecAllowedIn(l, first, a, b) == SpecAllowedIn(l, ts, a, b) + 1 by {
      OneMoreRequest(l, ts, t, a, b);
    }
    RestOfBurst(l, first, t, a, b);
  }

  lemma RestOfBurst(l: Limits, first: seq<int>, t: int, a: int, b: int)
    requires 0 < l.window && 1 <= l.rate && a <= t <= b
    requires first != [] && NonDecreasing(first) && Last(first) == t && CurrentEpoch(l, first) == Epoch(t, 1)
    ensures var r := Burst(first, t, l.rate - 1);
            && r != [] && NonDecreasing(r) && Last(r) <= t && CurrentEpoch(l, r).start == t
            && SpecAllowedIn(l, r, a, b) == SpecAllowedIn(l, first, a, b) + l.rate - 1
  {
    assert !Opens(l, first, t);
    BurstInEpoch(l, first, t, l.rate - 1, a, b);
  }

  lemma {:induction false} BurstsAllowed(l: Limits, ts: seq<int>, t: int, k: nat, a: int, b: int)
    requires 0 < l.window && 1 <= l.rate && a <= t && t + k * l.window <= b + l.window
    requires NonDecreasing(ts) && (ts != [] ==> Last(ts) <= t)
    requires Opens(l, ts, t)
    ensures NonDecreasing(Bursts(l, ts, t, k))
    ensures SpecAllowedIn(l, Bursts(l, ts, t, k), a, b) == SpecAllowedIn(l, ts, a, b) + k * l.rate
    decreases k
  {
    if k != 0 {
      assert k * l.window == (k - 1) * l.window + l.window;
      assert k * l.rate == (k - 1) * l.rate + l.rate;
      MulMonotone(l.window, 0, k - 1);
      BurstAllowed(l, ts, t, a, b);
      BurstsAllowed(l, FullBurst(l, ts, t), t + l.window, k - 1, a, b);
    }
  }

  /** The request times that fill an interval of this length. */
  function Busiest(l: Limits, a: int, length: nat): seq<int>
    requires 0 < l.window && 1 <= l.rate
  {
    if length % l.window == 0 then Bursts(l, [], a, length / l.window + 1)
    else Bursts(l, Burst([a + 1 - l.window], a, l.rate - 1), a + 1, length / l.window + 1)
  }

  /** One request opens an epoch just before the interval, and the rest of its tokens go at its first instant. */
  lemma LeftoverAllowed(l: Limits, a: int, b: int)
    requires 1 < l.window && 1 <= l.rate && a <= b
    ensures var ts := Burst([a + 1 - l.window], a, l.rate - 1);
            && ts != [] && NonDecreasing(ts) && Last(ts) <= a
            && CurrentEpoch(l, ts).start == a + 1 - l.window
            && SpecAllowedIn(l, ts, a, b) == l.rate - 1
  {
    var first := [a + 1 - l.window];
    OneMoreRequest(l, [], a + 1 - l.window, a, b);
    assert [] + first == first;
    BurstInEpoch(l, first, a, l.rate - 1, a, b);
  }

  lemma BusiestWhole(l: Limits, a: int, length: nat)
    requires 0 < l.window && 1 <= l.rate && length % l.window == 0
    ensures NonDecreasing(Busiest(l, a, length))
    ensures SpecAllowedIn(l, Busiest(l, a, length), a, a + length) == MostIn(l, length)
  {
    var k := length / l.window + 1;
    assert k * l.window == length + l.window;
    BurstsAllowed(l, [], a, k, a, a + length);
  }

  lemma {:induction false} RoundUp(length: nat, w: int)
    requires 1 < w && length % w != 0
    ensures 0 <= length / w && (length / w + 1) * w <= length + w - 1
  {
    assert length == length / w * w + length % w;
    assert (length / w + 1) * w == length / w * w + w;
  }

  lemma {:induction false} PartialCount(rate: int, k: int)
    ensures rate - 1 + k * rate == rate * (k + 1) - 1
  {
  }

  lemma {:induction false} LeftoverThenBursts(l: Limits, ts: seq<int>, a: int, b: int, k: nat, span: int)
    requires 1 < l.window && 1 <= l.rate && a <= b && ts == Burst([a + 1 - l.window], a, l.rate - 1)
    requires span == k * l.window && a + 1 + span <= b + l.window
    ensures NonDecreasing(Bursts(l, ts, a + 1, k))
    ensures SpecAllowedIn(l, Bursts(l, ts, a + 1, k), a, b) == l.rate - 1 + k * l.rate
  {
    LeftoverAllowed(l, a, b);
    assert Opens(l, ts, a + 1);
    BurstsAllowed(l, ts, a + 1, k, a, b);
  }

  lemma {:induction false} BusiestPartial(l: Limits, a: int, length: nat)
    requires 0 < l.window && 1 <= l.rate && length % l.window != 0
    ensures NonDecreasing(Busiest(l, a, length))
    ensures SpecAllowedIn(l, Busiest(l, a, length), a, a + length) == MostIn(l, length)
  {
    assert 1 < l.window;
    var k, ts := length / l.window + 1, Burst([a + 1 - l.window], a, l.rate - 1);
    RoundUp(length, l.window);
    PartialCount(l.rate, k);
    LeftoverThenBursts(l, ts, a, a + length, k, k * l.window);
  }

  /** One client making these requests. */
  function OneClient(ip: string, ts: seq<int>): seq<Event> {
    if ts == [] then [] else OneClient(ip, Front(ts)) + [Request(ip, Last(ts))]
  }

  lemma {:induction false} OneMoreInTime(trace: seq<Event>, e: Event)
    requires Timed(trace) && (trace != [] ==> Last(trace).now <= e.now)
    ensures Timed(trace + [e]) && Last(trace + [e]) == e
  {
    var all := trace + [e];
    forall i, j | 0 <= i < j < |all| ensures all[i].now <= all[j].now {
      assert all[i] == trace[i] && trace[i].now <= Last(trace).now;
    }
  }

  lemma {:induction false} OneMoreTime(trace: seq<Event>, ip: string, now: int)
    ensures Times(trace + [Request(ip, now)], ip) == Times(trace, ip) + [now]
  {
    assert Front(trace + [Request(ip, now)]) == trace && Last(trace + [Request(ip, now)]) == Request(ip, now);
  }

  lemma {:induction false} OneClientTimes(ip: string, ts: seq<int>)
    requires NonDecreasing(ts)
    ensures Timed(OneClient(ip, ts)) && |OneClient(ip, ts)| == |ts|
    ensures ts != [] ==> Last(OneClient(ip, ts)).now == Last(ts)
    ensures Times(OneClient(ip, ts), ip) == ts
  {
    if ts != [] {
      OneClientTimes(ip, Front(ts));
      OneMoreInTime(OneClient(ip, Front(ts)), Request(ip, Last(ts)));
      OneMoreTime(OneClient(ip, Front(ts)), ip, Last(ts));
      assert ts == Front(ts) + [Last(ts)];
    }
  }

  /** The bound cannot be improved: for every limit, start and length some trace reaches it. */
  lemma WindowBoundIsReached(l: Limits, ip: string, a: int, length: nat)
    requires 0 < l.window && 1 <= l.rate
    ensures var trace := OneClient(ip, Busiest(l, a, length));
            Timed(trace) && AllowedIn(l, trace, ip, a, a + length) == MostIn(l, length)
  {
    if length % l.window == 0 {
      BusiestWhole(l, a, length);
    } else {
      BusiestPartial(l, a, length);
    }
    OneClientTimes(ip, Busiest(l, a, length));
    AllowedInMeetsSpec(l, OneClient(ip, Busiest(l, a, length)), ip, a, a + length);
  }
}
