/** The token-bucket limiter of internal/ratelimit/ratelimit.go.

    Times are integers counting nanoseconds of a monotone clock, token counts are
    reals.  The functions below say what one call does to the bucket map; the class
    `Limiter` is the imperative form, proved against them. */
module RateLimit {

  // A bucket not used for this long is stale (ten minutes).
  const STALE_AFTER: int := 600_000_000_000
  const MINUTE: int := 60_000_000_000

  datatype Config = Config(rate: nat, burst: nat, interval: int) {
    predicate Valid() { 0 < interval }
  }

  datatype Bucket = Bucket(tokens: real, lastCheck: int)

  type Buckets = map<string, Bucket>

  // ------------------------------------------------------------------ one call

  /** Tokens earned in `elapsed` nanoseconds. */
  function Accrued(cfg: Config, elapsed: int): real
    requires cfg.Valid()
  {
    elapsed as real / cfg.interval as real * cfg.rate as real
  }

  function Refilled(cfg: Config, b: Bucket, now: int): real
    requires cfg.Valid()
  {
    var t := b.tokens + Accrued(cfg, now - b.lastCheck);
    if t > cfg.burst as real then cfg.burst as real else t
  }

  /** What a call at `now` finds in the bucket of `key`: a missing bucket is full. */
  function Level(cfg: Config, bs: Buckets, key: string, now: int): real
    requires cfg.Valid()
  {
    if key in bs then Refilled(cfg, bs[key], now) else cfg.burst as real
  }

  predicate Answer(cfg: Config, bs: Buckets, key: string, now: int)
    requires cfg.Valid()
  {
    Level(cfg, bs, key, now) >= 1.0
  }

  function AfterAllow(cfg: Config, bs: Buckets, key: string, now: int): Buckets
    requires cfg.Valid()
  {
    var level := Level(cfg, bs, key, now);
    bs[key := Bucket(if level >= 1.0 then level - 1.0 else level, now)]
  }

  predicate Stale(b: Bucket, now: int) {
    b.lastCheck < now - STALE_AFTER
  }

  function Pruned(bs: Buckets, now: int): Buckets {
    map k | k in bs && !Stale(bs[k], now) :: bs[k]
  }

  // ---------------------------------------------------------------------- runs

  datatype Event =
    | Allow(key: string, at: int)
    | Reset(key: string, at: int)
    | Cleanup(at: int)

  /** One event.  With `prune` false a cleanup pass does nothing. */
  function After(cfg: Config, bs: Buckets, ev: Event, prune: bool): Buckets
    requires cfg.Valid()
  {
    match ev
    case Allow(key, at) => AfterAllow(cfg, bs, key, at)
    case Reset(key, _) => bs - {key}
    case Cleanup(at) => if prune then Pruned(bs, at) else bs
  }

  predicate Monotone(evs: seq<Event>, start: int) {
    evs == [] || (start <= evs[0].at && Monotone(evs[1..], evs[0].at))
  }

  /** The answers a run gives, one per `Allow`, in order. */
  function Answers(cfg: Config, bs: Buckets, evs: seq<Event>, prune: bool): seq<bool>
    requires cfg.Valid()
    decreases |evs|
  {
    if evs == [] then []
    else
      (if evs[0].Allow? then [Answer(cfg, bs, evs[0].key, evs[0].at)] else [])
      + Answers(cfg, After(cfg, bs, evs[0], prune), evs[1..], prune)
  }

  /** The bucket map a run ends with. */
  function Final(cfg: Config, bs: Buckets, evs: seq<Event>, prune: bool): Buckets
    requires cfg.Valid()
    decreases |evs|
  {
    if evs == [] then bs else Final(cfg, After(cfg, bs, evs[0], prune), evs[1..], prune)
  }

  lemma {:induction false} AnswersConcat(cfg: Config, bs: Buckets, first: seq<Event>, rest: seq<Event>, prune: bool)
    requires cfg.Valid()
    ensures Answers(cfg, bs, first + rest, prune)
         == Answers(cfg, bs, first, prune) + Answers(cfg, Final(cfg, bs, first, prune), rest, prune)
    decreases |first|
  {
    if first == [] {
      assert first + rest == rest;
    } else {
      assert (first + rest)[1..] == first[1..] + rest;
      AnswersConcat(cfg, After(cfg, bs, first[0], prune), first[1..], rest, prune);
    }
  }

  /** How many calls for `key` with a time in [from, to] a run allows. */
  function Allowed(cfg: Config, bs: Buckets, evs: seq<Event>, prune: bool, key: string, from: int, to: int): nat
    requires cfg.Valid()
    decreases |evs|
  {
    if evs == [] then 0
    else
      var ev := evs[0];
      (if ev.Allow? && ev.key == key && from <= ev.at <= to && Answer(cfg, bs, key, ev.at) then 1 else 0)
      + Allowed(cfg, After(cfg, bs, ev, prune), evs[1..], prune, key, from, to)
  }

  ghost predicate NeverReset(evs: seq<Event>, key: string) {
    forall ev <- evs :: !(ev.Reset? && ev.key == key)
  }

  /** What every reachable bucket map satisfies at time `now`. */
  ghost predicate Inv(cfg: Config, bs: Buckets, now: int) {
    forall k <- bs :: 0.0 <= bs[k].tokens <= cfg.burst as real && bs[k].lastCheck <= now
  }

  // ---------------------------------------------------------------- arithmetic

  lemma AccruedAdds(cfg: Config, a: int, b: int)
    requires cfg.Valid()
    ensures Accrued(cfg, a + b) == Accrued(cfg, a) + Accrued(cfg, b)
  {
    var i, r := cfg.interval as real, cfg.rate as real;
    assert (a + b) as real / i == a as real / i + b as real / i;
    assert (a as real / i + b as real / i) * r == a as real / i * r + b as real / i * r;
  }

  lemma AccruedNonNegative(cfg: Config, a: int)
    requires cfg.Valid() && 0 <= a
    ensures Accrued(cfg, a) >= 0.0
  {
    assert a as real / cfg.interval as real >= 0.0;
  }

  lemma AccruedCovers(cfg: Config, a: int)
    requires cfg.Valid()
    ensures Accrued(cfg, a) >= cfg.burst as real <==> cfg.rate * a >= cfg.burst * cfg.interval
  {
    var i, r := cfg.interval as real, cfg.rate as real;
    var q := a as real / i;
    assert q * i == a as real;
    assert (q * r) * i == r * (q * i);
    assert (cfg.rate * a) as real == r * a as real;
    assert (cfg.burst * cfg.interval) as real == cfg.burst as real * i;
    if q * r >= cfg.burst as real {
      assert (q * r) * i >= cfg.burst as real * i;
    } else {
      assert (q * r) * i < cfg.burst as real * i;
    }
  }

  /** A bucket's level rises by at most what time earns, and never above `burst`. */
  lemma LevelRises(cfg: Config, bs: Buckets, key: string, s: int, t: int)
    requires cfg.Valid() && Inv(cfg, bs, s) && s <= t
    ensures 0.0 <= Level(cfg, bs, key, s) <= Level(cfg, bs, key, t) <= cfg.burst as real
    ensures Level(cfg, bs, key, t) <= Level(cfg, bs, key, s) + Accrued(cfg, t - s)
  {
    AccruedNonNegative(cfg, t - s);
    if key in bs {
      AccruedNonNegative(cfg, s - bs[key].lastCheck);
      AccruedAdds(cfg, s - bs[key].lastCheck, t - s);
    }
  }

  // ---------------------------------------------------------------- invariants

  /** Tokens stay in [0, burst] whatever happens, in every order. */
  lemma InvKept(cfg: Config, bs: Buckets, ev: Event, prune: bool, now: int)
    requires cfg.Valid() && Inv(cfg, bs, now) && now <= ev.at
    ensures Inv(cfg, After(cfg, bs, ev, prune), ev.at)
  {
    if ev.Allow? {
      LevelRises(cfg, bs, ev.key, now, ev.at);
    }
  }

  /** A stale bucket is full by the time it is pruned, exactly when refilling an
      empty bucket takes at most STALE_AFTER + 1 ns (staleness is a strict test). */
  ghost predicate FullWhenStale(cfg: Config) {
    cfg.rate * (STALE_AFTER + 1) >= cfg.burst * cfg.interval
  }

  lemma StaleIsFull(cfg: Config, b: Bucket, at: int, t: int)
    requires cfg.Valid() && FullWhenStale(cfg)
    requires 0.0 <= b.tokens && Stale(b, at) && at <= t
    ensures Refilled(cfg, b, t) == cfg.burst as real
  {
    AccruedCovers(cfg, STALE_AFTER + 1);
    AccruedAdds(cfg, STALE_AFTER + 1, t - b.lastCheck - (STALE_AFTER + 1));
    AccruedNonNegative(cfg, t - b.lastCheck - (STALE_AFTER + 1));
  }

  /** One event moves the level of `key` only by the token an allowed call takes. */
  lemma LevelAfter(cfg: Config, bs: Buckets, ev: Event, prune: bool, now: int, key: string)
    requires cfg.Valid() && Inv(cfg, bs, now) && now <= ev.at
    requires prune ==> FullWhenStale(cfg)
    requires !(ev.Reset? && ev.key == key)
    ensures Level(cfg, After(cfg, bs, ev, prune), key, ev.at)
         == Level(cfg, bs, key, ev.at)
            - (if ev.Allow? && ev.key == key && Answer(cfg, bs, key, ev.at) then 1.0 else 0.0)
  {
    LevelRises(cfg, bs, key, now, ev.at);
    if ev.Allow? && ev.key == key {
      assert Accrued(cfg, 0) == 0.0;
    } else if ev.Cleanup? && prune && key in bs && Stale(bs[key], ev.at) {
      StaleIsFull(cfg, bs[key], ev.at, ev.at);
    }
  }

  // -------------------------------------------------------------- window bound

  /** From `now` on, no more calls pass than the bucket holds plus what it earns. */
  lemma {:induction false} SpendingBound(cfg: Config, bs: Buckets, evs: seq<Event>, prune: bool, key: string,
                                         now: int, from: int, to: int)
    requires cfg.Valid() && Inv(cfg, bs, now) && Monotone(evs, now) && NeverReset(evs, key)
    requires prune ==> FullWhenStale(cfg)
    requires now <= to
    ensures Allowed(cfg, bs, evs, prune, key, from, to) as real
         <= Level(cfg, bs, key, now) + Accrued(cfg, to - now)
    decreases |evs|
  {
    LevelRises(cfg, bs, key, now, to);
    AccruedNonNegative(cfg, to - now);
    if evs != [] {
      var ev := evs[0];
      var next := After(cfg, bs, ev, prune);
      InvKept(cfg, bs, ev, prune, now);
      if ev.at <= to {
        SpendingBound(cfg, next, evs[1..], prune, key, ev.at, from, to);
        LevelAfter(cfg, bs, ev, prune, now, key);
        LevelRises(cfg, bs, key, now, ev.at);
        AccruedAdds(cfg, ev.at - now, to - ev.at);
      } else {
        NoneAfter(cfg, next, evs[1..], prune, key, ev.at, from, to);
      }
    }
  }

  lemma {:induction false} NoneAfter(cfg: Config, bs: Buckets, evs: seq<Event>, prune: bool, key: string, now: int,
                                     from: int, to: int)
    requires cfg.Valid() && Monotone(evs, now) && to < now
    ensures Allowed(cfg, bs, evs, prune, key, from, to) == 0
    decreases |evs|
  {
    if evs != [] {
      NoneAfter(cfg, After(cfg, bs, evs[0], prune), evs[1..], prune, key, evs[0].at, from, to);
    }
  }

  /** The window bound: in every run, every window [from, to] lets through at most
      burst + rate * (to - from) / interval calls of one key. */
  lemma {:induction false} WindowBound(cfg: Config, bs: Buckets, evs: seq<Event>, prune: bool, key: string, now: int,
                                       from: int, to: int)
    requires cfg.Valid() && Inv(cfg, bs, now) && Monotone(evs, now) && NeverReset(evs, key)
    requires prune ==> FullWhenStale(cfg)
    requires from <= to
    ensures Allowed(cfg, bs, evs, prune, key, from, to) as real
         <= cfg.burst as real + Accrued(cfg, to - from)
    decreases |evs|
  {
    AccruedNonNegative(cfg, to - from);
    if evs != [] {
      var ev := evs[0];
      if from <= ev.at <= to {
        var start := if from <= now then now else from;
        assert Monotone(evs, start);
        SpendingBound(cfg, bs, evs, prune, key, start, from, to);
        LevelRises(cfg, bs, key, start, start);
        AccruedAdds(cfg, start - from, to - start);
        AccruedNonNegative(cfg, start - from);
      } else {
        InvKept(cfg, bs, ev, prune, now);
        WindowBound(cfg, After(cfg, bs, ev, prune), evs[1..], prune, key, ev.at, from, to);
      }
    }
  }

  // ----------------------------------------------------------- exact admission

  /** The times at which a run lets a call for `key` through, in order. */
  function Passed(cfg: Config, bs: Buckets, evs: seq<Event>, prune: bool, key: string): seq<int>
    requires cfg.Valid()
    decreases |evs|
  {
    if evs == [] then []
    else
      var ev := evs[0];
      (if ev.Allow? && ev.key == key && Answer(cfg, bs, key, ev.at) then [ev.at] else [])
      + Passed(cfg, After(cfg, bs, ev, prune), evs[1..], prune, key)
  }

  /** What the bound for the window [past[i], t] leaves unspent at time t. */
  function Slack(cfg: Config, past: seq<int>, i: nat, t: int): real
    requires cfg.Valid() && i < |past|
  {
    cfg.burst as real + Accrued(cfg, t - past[i]) - (|past| - i) as real
  }

  /** One more call at t keeps every window ending at t within its bound. */
  ghost predicate RoomForOne(cfg: Config, past: seq<int>, t: int)
    requires cfg.Valid()
  {
    && 1 <= cfg.burst
    && forall i | 0 <= i < |past| :: Slack(cfg, past, i, t) >= 1.0
  }

  /** The level is the least of `burst` and all the slacks. */
  ghost predicate LevelIsLeastSlack(cfg: Config, level: real, past: seq<int>, t: int)
    requires cfg.Valid()
  {
    && level <= cfg.burst as real
    && (forall i | 0 <= i < |past| :: level <= Slack(cfg, past, i, t))
    && (level == cfg.burst as real || exists i | 0 <= i < |past| :: level == Slack(cfg, past, i, t))
  }

  lemma LeastSlackLater(cfg: Config, bs: Buckets, key: string, past: seq<int>, s: int, t: int)
    requires cfg.Valid() && Inv(cfg, bs, s) && s <= t
    requires LevelIsLeastSlack(cfg, Level(cfg, bs, key, s), past, s)
    ensures LevelIsLeastSlack(cfg, Level(cfg, bs, key, t), past, t)
  {
    var was, now := Level(cfg, bs, key, s), Level(cfg, bs, key, t);
    var earned := Accrued(cfg, t - s);
    AccruedNonNegative(cfg, t - s);
    LevelRises(cfg, bs, key, s, t);
    forall i | 0 <= i < |past| ensures Slack(cfg, past, i, t) == Slack(cfg, past, i, s) + earned {
      AccruedAdds(cfg, s - past[i], t - s);
    }
    if key in bs {
      AccruedAdds(cfg, s - bs[key].lastCheck, t - s);
    }
    assert now == cfg.burst as real || now == was + earned;
    if now != cfg.burst as real && was != cfg.burst as real {
      var i :| 0 <= i < |past| && was == Slack(cfg, past, i, s);
      assert now == Slack(cfg, past, i, t);
    }
  }

  lemma LeastSlackAfterPass(cfg: Config, level: real, past: seq<int>, t: int)
    requires cfg.Valid() && LevelIsLeastSlack(cfg, level, past, t)
    ensures LevelIsLeastSlack(cfg, level - 1.0, past + [t], t)
  {
    var more := past + [t];
    assert Accrued(cfg, 0) == 0.0;
    assert Slack(cfg, more, |past|, t) == cfg.burst as real - 1.0;
    forall i | 0 <= i < |past| ensures Slack(cfg, more, i, t) == Slack(cfg, past, i, t) - 1.0 {
    }
    if level != cfg.burst as real {
      var i :| 0 <= i < |past| && level == Slack(cfg, past, i, t);
      assert Slack(cfg, more, i, t) == level - 1.0;
    }
  }

  /** After any run, the bucket's level is the least slack of the calls let through. */
  lemma {:induction false} LevelAfterRun(cfg: Config, bs: Buckets, evs: seq<Event>, prune: bool, key: string,
                                         past: seq<int>, now: int, t: int)
    requires cfg.Valid() && Inv(cfg, bs, now) && Monotone(evs + [Allow(key, t)], now) && NeverReset(evs, key)
    requires prune ==> FullWhenStale(cfg)
    requires LevelIsLeastSlack(cfg, Level(cfg, bs, key, now), past, now)
    ensures LevelIsLeastSlack(cfg, Level(cfg, Final(cfg, bs, evs, prune), key, t),
                              past + Passed(cfg, bs, evs, prune, key), t)
    decreases |evs|
  {
    if evs == [] {
      LeastSlackLater(cfg, bs, key, past, now, t);
      assert past + [] == past;
    } else {
      var ev := evs[0];
      var next := After(cfg, bs, ev, prune);
      assert (evs + [Allow(key, t)])[1..] == evs[1..] + [Allow(key, t)];
      InvKept(cfg, bs, ev, prune, now);
      LeastSlackLater(cfg, bs, key, past, now, ev.at);
      LevelAfter(cfg, bs, ev, prune, now, key);
      var here := if ev.Allow? && ev.key == key && Answer(cfg, bs, key, ev.at) then [ev.at] else [];
      if here != [] {
        LeastSlackAfterPass(cfg, Level(cfg, bs, key, ev.at), past, ev.at);
      } else {
        assert past + here == past;
      }
      LevelAfterRun(cfg, next, evs[1..], prune, key, past + here, ev.at, t);
      assert past + here + Passed(cfg, next, evs[1..], prune, key) == past + Passed(cfg, bs, evs, prune, key);
    }
  }

  /** Exact admission: a fresh limiter lets a call through if and only if that keeps
      every window ending now within burst + rate * length / interval. */
  lemma ExactAdmission(cfg: Config, evs: seq<Event>, prune: bool, key: string, start: int, t: int)
    requires cfg.Valid() && Monotone(evs + [Allow(key, t)], start) && NeverReset(evs, key)
    requires prune ==> FullWhenStale(cfg)
    ensures Answer(cfg, Final(cfg, map[], evs, prune), key, t)
        <==> RoomForOne(cfg, Passed(cfg, map[], evs, prune, key), t)
  {
    LevelAfterRun(cfg, map[], evs, prune, key, [], start, t);
    assert [] + Passed(cfg, map[], evs, prune, key) == Passed(cfg, map[], evs, prune, key);
  }

  // --------------------------------------------------------- pruning invisible

  /** `pruned` and `kept` cannot be told apart by any call from `now` on. */
  ghost predicate Alike(cfg: Config, pruned: Buckets, kept: Buckets, now: int)
    requires cfg.Valid()
  {
    && (forall k <- pruned :: k in kept && kept[k] == pruned[k])
    && (forall k <- kept :: k !in pruned ==> Refilled(cfg, kept[k], now) == cfg.burst as real)
  }

  lemma AlikeAnswers(cfg: Config, pruned: Buckets, kept: Buckets, now: int, key: string, t: int)
    requires cfg.Valid() && Inv(cfg, kept, now) && Alike(cfg, pruned, kept, now) && now <= t
    ensures Level(cfg, pruned, key, t) == Level(cfg, kept, key, t)
  {
    LevelRises(cfg, kept, key, now, t);
  }

  lemma AlikeKept(cfg: Config, pruned: Buckets, kept: Buckets, ev: Event, now: int)
    requires cfg.Valid() && FullWhenStale(cfg)
    requires Inv(cfg, kept, now) && Alike(cfg, pruned, kept, now) && now <= ev.at
    ensures Alike(cfg, After(cfg, pruned, ev, true), After(cfg, kept, ev, false), ev.at)
  {
    forall k <- kept | k !in pruned ensures Refilled(cfg, kept[k], ev.at) == cfg.burst as real {
      AlikeAnswers(cfg, pruned, kept, now, k, ev.at);
    }
    match ev
    case Allow(key, at) => AlikeAnswers(cfg, pruned, kept, now, key, at);
    case Reset(_, _) =>
    case Cleanup(at) =>
      forall k <- pruned | Stale(pruned[k], at) ensures Refilled(cfg, kept[k], at) == cfg.burst as real {
        StaleIsFull(cfg, kept[k], at, at);
      }
  }

  lemma {:induction false} SameAnswers(cfg: Config, pruned: Buckets, kept: Buckets, evs: seq<Event>, now: int)
    requires cfg.Valid() && FullWhenStale(cfg)
    requires Inv(cfg, kept, now) && Alike(cfg, pruned, kept, now) && Monotone(evs, now)
    ensures Answers(cfg, pruned, evs, true) == Answers(cfg, kept, evs, false)
    decreases |evs|
  {
    if evs != [] {
      var ev := evs[0];
      if ev.Allow? {
        AlikeAnswers(cfg, pruned, kept, now, ev.key, ev.at);
      }
      AlikeKept(cfg, pruned, kept, ev, now);
      InvKept(cfg, kept, ev, false, now);
      SameAnswers(cfg, After(cfg, pruned, ev, true), After(cfg, kept, ev, false), evs[1..], ev.at);
    }
  }

  /** No run of a fresh limiter, however cleanup passes are interleaved, can tell
      whether pruning happens. */
  ghost predicate PruningInvisible(cfg: Config)
    requires cfg.Valid()
  {
    forall evs: seq<Event>, start: int | Monotone(evs, start) ::
      Answers(cfg, map[], evs, true) == Answers(cfg, map[], evs, false)
  }

  function Calls(key: string, at: int, n: nat): seq<Event> {
    if n == 0 then [] else [Allow(key, at)] + Calls(key, at, n - 1)
  }

  lemma {:induction false} CallsMonotone(key: string, at: int, n: nat, rest: seq<Event>)
    requires Monotone(rest, at)
    ensures Monotone(Calls(key, at, n) + rest, at)
  {
    if n == 0 {
      assert Calls(key, at, n) + rest == rest;
    } else {
      CallsMonotone(key, at, n - 1, rest);
      assert (Calls(key, at, n) + rest)[1..] == Calls(key, at, n - 1) + rest;
    }
  }

  /** Draining a bucket at one instant: n calls in a row are all answered yes while
      the level lasts. */
  lemma {:induction false} DrainFull(cfg: Config, bs: Buckets, key: string, at: int, n: nat, prune: bool)
    requires cfg.Valid() && Inv(cfg, bs, at)
    requires n as real <= Level(cfg, bs, key, at)
    ensures Answers(cfg, bs, Calls(key, at, n), prune) == seq(n, _ => true)
    ensures var end := Final(cfg, bs, Calls(key, at, n), prune);
      && Inv(cfg, end, at)
      && Level(cfg, end, key, at) == Level(cfg, bs, key, at) - n as real
      && (n > 0 ==> key in end && end[key].lastCheck == at)
    decreases n
  {
    if n > 0 {
      var ev := Allow(key, at);
      assert Calls(key, at, n)[1..] == Calls(key, at, n - 1);
      InvKept(cfg, bs, ev, false, at);
      LevelAfter(cfg, bs, ev, false, at, key);
      var next := AfterAllow(cfg, bs, key, at);
      DrainFull(cfg, next, key, at, n - 1, prune);
      assert [true] + seq(n - 1, _ => true) == seq(n, _ => true);
    }
  }

  /** A bucket holding less than n tokens cannot answer n calls of one instant yes. */
  lemma {:induction false} DrainShort(cfg: Config, bs: Buckets, key: string, at: int, n: nat, prune: bool)
    requires cfg.Valid() && Inv(cfg, bs, at)
    requires Level(cfg, bs, key, at) < n as real
    ensures Answers(cfg, bs, Calls(key, at, n), prune) != seq(n, _ => true)
    decreases n
  {
    LevelRises(cfg, bs, key, at, at);
    var ev := Allow(key, at);
    assert Calls(key, at, n)[1..] == Calls(key, at, n - 1);
    if Answer(cfg, bs, key, at) {
      InvKept(cfg, bs, ev, false, at);
      LevelAfter(cfg, bs, ev, false, at, key);
      var next := AfterAllow(cfg, bs, key, at);
      DrainShort(cfg, next, key, at, n - 1, prune);
      var tail := Answers(cfg, next, Calls(key, at, n - 1), prune);
      assert Answers(cfg, bs, Calls(key, at, n), prune)[1..] == tail;
      assert seq(n, _ => true)[1..] == seq(n - 1, _ => true);
    } else {
      assert !Answers(cfg, bs, Calls(key, at, n), prune)[0] && seq(n, _ => true)[0];
    }
  }

  /** The run that sees pruning when it comes too early: empty the bucket, wait just
      long enough for it to be stale, clean up, and try to empty it again. */
  function Probe(cfg: Config): seq<Event> {
    Calls("k", 0, cfg.burst) + ([Cleanup(STALE_AFTER + 1)] + Calls("k", STALE_AFTER + 1, cfg.burst))
  }

  /** With pruning the probe's second round is all yes, without it is not. */
  lemma ProbeAnswers(cfg: Config, prune: bool)
    requires cfg.Valid() && !FullWhenStale(cfg)
    ensures Answers(cfg, map[], Probe(cfg), prune) == seq(2 * cfg.burst, _ => true) <==> prune
  {
    var first := Calls("k", 0, cfg.burst);
    var later := STALE_AFTER + 1;
    var again := Calls("k", later, cfg.burst);
    AnswersConcat(cfg, map[], first, [Cleanup(later)] + again, prune);
    DrainFull(cfg, map[], "k", 0, cfg.burst, prune);
    var drained := Final(cfg, map[], first, prune);
    BurstPositive(cfg);
    var yes := seq(cfg.burst, _ => true);
    assert yes + yes == seq(2 * cfg.burst, _ => true);
    assert ([Cleanup(later)] + again)[1..] == again;
    var next := After(cfg, drained, Cleanup(later), prune);
    if prune {
      assert "k" !in next;
      DrainFull(cfg, next, "k", later, cfg.burst, prune);
    } else {
      AccruedCovers(cfg, later);
      DrainShort(cfg, next, "k", later, cfg.burst, prune);
      var tail := Answers(cfg, next, again, prune);
      assert (yes + tail)[cfg.burst..] == tail && (yes + yes)[cfg.burst..] == yes;
    }
  }

  lemma BurstPositive(cfg: Config)
    requires cfg.Valid() && !FullWhenStale(cfg)
    ensures cfg.burst > 0
  {
    assert cfg.burst == 0 ==> cfg.burst * cfg.interval == 0;
  }

  lemma ProbeMonotone(cfg: Config)
    ensures Monotone(Probe(cfg), 0)
  {
    var later := STALE_AFTER + 1;
    var again := Calls("k", later, cfg.burst);
    CallsMonotone("k", later, cfg.burst, []);
    assert again + [] == again;
    assert ([Cleanup(later)] + again)[1..] == again;
    CallsMonotone("k", 0, cfg.burst, [Cleanup(later)] + again);
  }

  /** Pruning is invisible exactly when a stale bucket is always full. */
  lemma PruningInvisibleIff(cfg: Config)
    requires cfg.Valid()
    ensures PruningInvisible(cfg) <==> FullWhenStale(cfg)
  {
    if FullWhenStale(cfg) {
      forall evs: seq<Event>, start: int | Monotone(evs, start)
        ensures Answers(cfg, map[], evs, true) == Answers(cfg, map[], evs, false)
      {
        SameAnswers(cfg, map[], map[], evs, start);
      }
    } else {
      ProbeMonotone(cfg);
      ProbeAnswers(cfg, true);
      ProbeAnswers(cfg, false);
    }
  }

  // ------------------------------------------------------------------- presets

  const SMTP_PRESET := Config(30, 10, MINUTE)
  const IMAP_PRESET := Config(60, 20, MINUTE)
  const AUTH_PRESET := Config(5, 5, MINUTE)
  const ADMIN_PRESET := Config(30, 15, MINUTE)

  lemma PresetsPruneInvisibly(cfg: Config)
    requires cfg in [SMTP_PRESET, IMAP_PRESET, AUTH_PRESET, ADMIN_PRESET]
    ensures cfg.Valid() && PruningInvisible(cfg)
  {
    PruningInvisibleIff(cfg);
  }

  // ------------------------------------------------------------ imperative form

  class Limiter {
    const cfg: Config
    var buckets: Buckets

    constructor (cfg: Config)
      ensures this.cfg == cfg && buckets == map[]
    {
      this.cfg := cfg;
      buckets := map[];
    }

    method AllowCall(key: string, now: int) returns (ok: bool)
      requires cfg.Valid()
      modifies this`buckets
      ensures ok == Answer(cfg, old(buckets), key, now)
      ensures buckets == AfterAllow(cfg, old(buckets), key, now)
    {
      if key !in buckets {
        buckets := buckets[key := Bucket(cfg.burst as real, now)];
        assert Accrued(cfg, 0) == 0.0;
      }
      var b := buckets[key];
      var tokens := b.tokens + Accrued(cfg, now - b.lastCheck);
      if tokens > cfg.burst as real {
        tokens := cfg.burst as real;
      }
      ok := tokens >= 1.0;
      if ok {
        tokens := tokens - 1.0;
      }
      buckets := buckets[key := Bucket(tokens, now)];
    }

    method ResetKey(key: string)
      modifies this`buckets
      ensures buckets == old(buckets) - {key}
    {
      buckets := buckets - {key};
    }

    /** One pass of the cleanup loop, deleting while it walks over the keys. */
    method CleanupPass(now: int)
      modifies this`buckets
      ensures buckets == Pruned(old(buckets), now)
    {
      var todo := buckets.Keys;
      while todo != {}
        invariant todo <= buckets.Keys <= old(buckets).Keys
        invariant forall k <- buckets :: buckets[k] == old(buckets)[k]
        invariant forall k <- old(buckets) :: k !in buckets <==> k !in todo && Stale(old(buckets)[k], now)
        decreases todo
      {
        var k :| k in todo;
        if Stale(buckets[k], now) {
          buckets := buckets - {k};
        }
        todo := todo - {k};
      }
    }
  }
}
