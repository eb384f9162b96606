/**
 Per-address-family liveness record of a DHT peer (`SockAndTime<T>`): when
 the peer last answered, when it was last pinged, and the address a third
 party reported for it. The clock is an explicit `now`.
 */
module Liveness {
  import opened Wrappers

  /** A point of the monotonic clock, in nanoseconds. */
  type Instant = nat

  const NANOS_PER_SEC: nat := 1_000_000_000

  /** Seconds between two pings of the same node. */
  const PING_INTERVAL: nat := 60

  /** Seconds without an answer after which a node is bad. */
  const BAD_NODE_TIMEOUT: nat := PING_INTERVAL * 2 + 2

  /** Seconds without an answer after which a node is discarded. */
  const KILL_NODE_TIMEOUT: nat := BAD_NODE_TIMEOUT + PING_INTERVAL

  /** `Duration::from_secs`. */
  function FromSecs(secs: nat): nat
  {
    secs * NANOS_PER_SEC
  }

  /** Time since `t`; zero for an instant after `now`, as `Instant::elapsed` saturates. */
  function Elapsed(t: Instant, now: Instant): nat
  {
    if t <= now then now - t else 0
  }

  /** An optional stamp that is absent or not in the future. */
  predicate NotAfter(t: Option<Instant>, now: Instant)
  {
    t.None? || t.value <= now
  }

  /** `t.map_or(true, |t| elapsed(t) > from_secs(secs))`: never, or more than `secs` ago. */
  predicate LongerAgoThan(t: Option<Instant>, now: Instant, secs: nat)
  {
    match t
    case None => true
    case Some(t) => Elapsed(t, now) > FromSecs(secs)
  }

  /** `t.map_or(true, |t| elapsed(t) >= from_secs(secs))`: never, or at least `secs` ago. */
  predicate AtLeastAgo(t: Option<Instant>, now: Instant, secs: nat)
  {
    match t
    case None => true
    case Some(t) => Elapsed(t, now) >= FromSecs(secs)
  }

  /** Rust's derived `<=` on `Option`: `None` sorts below every `Some`. */
  predicate OptionLe(a: Option<Instant>, b: Option<Instant>)
  {
    match (a, b)
    case (None, _) => true
    case (Some(_), None) => false
    case (Some(x), Some(y)) => x <= y
  }

  lemma OptionLeIsTotalOrder(a: Option<Instant>, b: Option<Instant>, c: Option<Instant>)
    ensures OptionLe(a, a)
    ensures OptionLe(a, b) || OptionLe(b, a)
    ensures OptionLe(a, b) && OptionLe(b, a) ==> a == b
    ensures OptionLe(a, b) && OptionLe(b, c) ==> OptionLe(a, c)
    ensures OptionLe(None, a)
  {
  }

  datatype SockAndTime<T> = SockAndTime(
    saddr: Option<T>,
    lastRespTime: Option<Instant>,
    lastPingReqTime: Option<Instant>,
    retSaddr: Option<T>,
    retLastRespTime: Option<Instant>)

  /** Every stamp of `s` was taken at or before `now`. */
  predicate ValidAt<T>(s: SockAndTime<T>, now: Instant)
  {
    NotAfter(s.lastRespTime, now) && NotAfter(s.lastPingReqTime, now) && NotAfter(s.retLastRespTime, now)
  }

  /** `is_bad`: no answer for more than `BAD_NODE_TIMEOUT` seconds, or never. */
  predicate IsBad<T>(s: SockAndTime<T>, now: Instant)
  {
    LongerAgoThan(s.lastRespTime, now, BAD_NODE_TIMEOUT)
  }

  /** `is_discarded`: no answer for more than `KILL_NODE_TIMEOUT` seconds, or never. */
  predicate IsDiscarded<T>(s: SockAndTime<T>, now: Instant)
  {
    LongerAgoThan(s.lastRespTime, now, KILL_NODE_TIMEOUT)
  }

  /** `is_ping_interval_passed`: not pinged within the last `PING_INTERVAL` seconds. */
  predicate IsPingIntervalPassed<T>(s: SockAndTime<T>, now: Instant)
  {
    AtLeastAgo(s.lastPingReqTime, now, PING_INTERVAL)
  }

  /** `SockAndTime::new` at time `now`: an address counts as having just answered. */
  function New<T>(saddr: Option<T>, now: Instant): (s: SockAndTime<T>)
    ensures s.saddr == saddr
    ensures s.lastRespTime == (if saddr.Some? then Some(now) else None)
    ensures s.lastPingReqTime == None && s.retSaddr == None && s.retLastRespTime == None
    ensures ValidAt(s, now)
    ensures IsBad(s, now) <==> saddr.None?
    ensures IsDiscarded(s, now) <==> saddr.None?
    ensures IsPingIntervalPassed(s, now)
  {
    SockAndTime(saddr, if saddr.Some? then Some(now) else None, None, None, None)
  }

  /**
   `ping_addr`: the address to ping now, if there is one, the record is not
   discarded and the ping interval has passed; only then is the ping stamped.
   */
  function PingAddr<T>(s: SockAndTime<T>, now: Instant): (r: (Option<T>, SockAndTime<T>))
    ensures r.0.Some? <==> s.saddr.Some? && !IsDiscarded(s, now) && IsPingIntervalPassed(s, now)
    ensures r.0.Some? ==> r.0 == s.saddr && r.1 == s.(lastPingReqTime := Some(now))
    ensures r.0.None? ==> r.1 == s
  {
    match s.saddr
    case Some(a) =>
      if !IsDiscarded(s, now) && IsPingIntervalPassed(s, now) then
        (Some(a), s.(lastPingReqTime := Some(now)))
      else
        (None, s)
    case None => (None, s)
  }

  /** The discard timeout is the longer one, so a discarded record is also bad. */
  lemma DiscardedIsBad<T>(s: SockAndTime<T>, now: Instant)
    ensures IsDiscarded(s, now) ==> IsBad(s, now)
    ensures s.lastRespTime == None ==> IsBad(s, now) && IsDiscarded(s, now)
  {
  }

  /** Badness and discarding persist while time passes without an answer. */
  lemma StaysBad<T>(s: SockAndTime<T>, now: Instant, later: Instant)
    requires now <= later
    ensures IsBad(s, now) ==> IsBad(s, later)
    ensures IsDiscarded(s, now) ==> IsDiscarded(s, later)
  {
  }

  /**
   A record created with an address at `t` stays good for exactly
   `BAD_NODE_TIMEOUT` seconds and is discarded only after `KILL_NODE_TIMEOUT`.
   */
  lemma NewRecordLifetime<T>(a: T, t: Instant, now: Instant)
    requires t <= now
    ensures IsBad(New(Some(a), t), now) <==> now - t > FromSecs(BAD_NODE_TIMEOUT)
    ensures IsDiscarded(New(Some(a), t), now) <==> now - t > FromSecs(KILL_NODE_TIMEOUT)
  {
  }

  /** A successful ping blocks every further ping for `PING_INTERVAL` seconds. */
  lemma {:induction false} PingAddrThrottles<T>(s: SockAndTime<T>, now: Instant, later: Instant)
    requires PingAddr(s, now).0.Some?
    requires now <= later < now + FromSecs(PING_INTERVAL)
    ensures PingAddr(PingAddr(s, now).1, later).0 == None
  {
    var s1 := PingAddr(s, now).1;
    assert s1.lastPingReqTime == Some(now);
    assert !IsPingIntervalPassed(s1, later);
  }

  /** Pinging changes neither the health of a record nor the validity of its stamps. */
  lemma PingAddrKeepsHealth<T>(s: SockAndTime<T>, now: Instant, t: Instant)
    ensures IsBad(PingAddr(s, now).1, t) == IsBad(s, t)
    ensures IsDiscarded(PingAddr(s, now).1, t) == IsDiscarded(s, t)
    ensures ValidAt(s, now) ==> ValidAt(PingAddr(s, now).1, now)
  {
  }

  /** Stamps valid now stay valid later. */
  lemma ValidAtLater<T>(s: SockAndTime<T>, now: Instant, later: Instant)
    requires ValidAt(s, now) && now <= later
    ensures ValidAt(s, later)
  {
  }
}
