/** The sliding-window packet rate limiter of udp/rates.ts: per endpoint,
    the packets counted in the previous and in the current 60 s window; a
    packet is admitted while the previous window's count, weighted by the
    part of it still inside the last 60 s, plus the current count stays
    within 100. */
module Rates {
  import opened Base

  const WindowCapacity: nat := 100
  /** The window length in milliseconds. */
  const WindowTime: nat := 60000

  /** WindowTrackInfo. */
  datatype Track = Track(prev: nat, curr: nat)

  const Idle: Track := Track(0, 0)

  /** WINDOW_TRACKER and lastRefreshTime. */
  datatype Window = Window(tracks: map<Endpoint, Track>, lastRefresh: int)

  /** An endpoint's track, `{0, 0}` when it has none. */
  function TrackOf(w: Window, e: Endpoint): Track
  {
    if e in w.tracks then w.tracks[e] else Idle
  }

  /** The admission test `prev * (1 - elapsed / 60000) + curr <= 100`,
      multiplied through by 60000. */
  predicate Admits(t: Track, elapsed: int)
  {
    t.prev * (WindowTime - elapsed) + t.curr * WindowTime <= WindowCapacity * WindowTime
  }

  /** The integer test is the source's test in exact real arithmetic. */
  lemma AdmitsIsEstimate(t: Track, elapsed: int)
    ensures Admits(t, elapsed) <==>
      (t.prev as real) * (1.0 - (elapsed as real) / 60000.0) + (t.curr as real) <= 100.0
  {
    var p, c, x := t.prev as real, t.curr as real, elapsed as real;
    assert p * (1.0 - x / 60000.0) + c == (p * (60000.0 - x) + c * 60000.0) / 60000.0;
    assert (t.prev * (WindowTime - elapsed) + t.curr * WindowTime) as real == p * (60000.0 - x) + c * 60000.0;
  }

  /** allowPacket at time `now`: count the packet against the endpoint
      (creating its track), then report whether the estimate is within
      capacity. The packet is counted even when it is refused. */
  function Allow(w: Window, e: Endpoint, now: int): (Window, bool)
  {
    var t := TrackOf(w, e).(curr := TrackOf(w, e).curr + 1);
    (w.(tracks := w.tracks[e := t]), Admits(t, now - w.lastRefresh))
  }

  /** allowPacket adds exactly one to the endpoint's current count, whether
      the packet is admitted or not; its previous count, every other
      endpoint and the refresh time are unchanged. */
  lemma AllowCounts(w: Window, e: Endpoint, now: int)
    ensures var (w', _) := Allow(w, e, now);
      && e in w'.tracks
      && w'.tracks[e].curr == TrackOf(w, e).curr + 1 && w'.tracks[e].prev == TrackOf(w, e).prev
      && (forall a | a != e :: (a in w'.tracks <==> a in w.tracks) && (a in w.tracks ==> w'.tracks[a] == w.tracks[a]))
      && w'.lastRefresh == w.lastRefresh
  {
  }

  /** With nothing carried over from the previous window, a packet is
      admitted exactly when it is at most the 100th of the window. */
  lemma AllowWithoutCarry(w: Window, e: Endpoint, now: int)
    requires TrackOf(w, e).prev == 0
    ensures Allow(w, e, now).1 <==> TrackOf(w, e).curr + 1 <= WindowCapacity
  {
  }

  /** A burst of packets from one endpoint at the given times, all inside
      one window: the verdicts, in order. */
  function Burst(w: Window, e: Endpoint, times: seq<int>): (Window, seq<bool>)
    decreases |times|
  {
    if times == [] then (w, [])
    else
      var (w1, ok) := Allow(w, e, times[0]);
      var (w2, oks) := Burst(w1, e, times[1..]);
      (w2, [ok] + oks)
  }

  lemma {:induction false} BurstCounts(w: Window, e: Endpoint, times: seq<int>)
    ensures var (w', oks) := Burst(w, e, times);
      && |oks| == |times| && w'.lastRefresh == w.lastRefresh
      && TrackOf(w', e) == TrackOf(w, e).(curr := TrackOf(w, e).curr + |times|)
      && forall i | 0 <= i < |times| ::
           oks[i] == Admits(TrackOf(w, e).(curr := TrackOf(w, e).curr + i + 1), times[i] - w.lastRefresh)
    decreases |times|
  {
    if times != [] {
      var (w1, ok) := Allow(w, e, times[0]);
      BurstCounts(w1, e, times[1..]);
    }
  }

  /** From an endpoint with nothing carried over and nothing counted yet,
      the first 100 packets of a window are admitted and every later one is
      refused, whenever they arrive within the window. */
  lemma FirstHundredAdmitted(w: Window, e: Endpoint, times: seq<int>)
    requires TrackOf(w, e) == Idle
    ensures var oks := Burst(w, e, times).1;
      |oks| == |times| && forall i | 0 <= i < |times| :: oks[i] <==> i < WindowCapacity
  {
    BurstCounts(w, e, times);
  }

  /** refreshWindow at time `now`: endpoints with nothing counted in either
      window are forgotten, every other one moves its current count to the
      previous window and starts a new count at 0, and the window restarts
      at `now`. */
  function Refresh(w: Window, now: int): (w': Window)
    ensures forall a :: a in w'.tracks <==> a in w.tracks && w.tracks[a] != Idle
    ensures forall a | a in w'.tracks :: w'.tracks[a] == Track(w.tracks[a].curr, 0)
    ensures w'.lastRefresh == now
  {
    Window(map a | a in w.tracks && w.tracks[a] != Idle :: Track(w.tracks[a].curr, 0), now)
  }

  /** Right after a refresh the elapsed fraction is 0, so an endpoint's
      estimate is its previous count plus its packets since. */
  lemma RefreshRestartsWindow(w: Window, e: Endpoint, now: int)
    ensures var (_, ok) := Allow(Refresh(w, now), e, now);
      ok <==> TrackOf(w, e).curr + 1 <= WindowCapacity
  {
    var r := Refresh(w, now);
    assert TrackOf(r, e) == Track(TrackOf(w, e).curr, 0);
  }

  /** An endpoint that sends nothing has track `{0, 0}` (or none) after two
      refreshes, and none after three. */
  lemma IdleEndpointForgotten(w: Window, e: Endpoint, t1: int, t2: int, t3: int)
    ensures TrackOf(Refresh(Refresh(w, t1), t2), e) == Idle
    ensures e !in Refresh(Refresh(Refresh(w, t1), t2), t3).tracks
  {
    var r1 := Refresh(w, t1);
    var r2 := Refresh(r1, t2);
    assert e in r1.tracks ==> r1.tracks[e].curr == 0;
    assert e in r2.tracks ==> r2.tracks[e] == Track(0, 0);
  }

  /** ... so its first packet after two idle refreshes is admitted, however
      far into the window it comes. */
  lemma AdmittedAfterIdle(w: Window, e: Endpoint, t1: int, t2: int, now: int)
    ensures Allow(Refresh(Refresh(w, t1), t2), e, now).1
  {
    IdleEndpointForgotten(w, e, t1, t2, t2);
  }

  /** The limiter's state as the module-level variables of udp/rates.ts. */
  class RateLimiter {
    var tracker: map<Endpoint, Track>
    var lastRefreshTime: int

    function State(): Window
      reads this
    {
      Window(tracker, lastRefreshTime)
    }

    constructor (now: int)
      ensures State() == Window(map[], now)
    {
      tracker, lastRefreshTime := map[], now;
    }

    method AllowPacket(e: Endpoint, now: int) returns (ok: bool)
      modifies this
      ensures (State(), ok) == Allow(old(State()), e, now)
    {
      var track := if e in tracker then tracker[e] else Idle;
      track := track.(curr := track.curr + 1);
      tracker := tracker[e := track];
      ok := track.prev * (WindowTime - (now - lastRefreshTime)) + track.curr * WindowTime
            <= WindowCapacity * WindowTime;
    }

    method RefreshWindow(now: int)
      modifies this
      ensures State() == Refresh(old(State()), now)
    {
      lastRefreshTime := now;
      var t0 := tracker;
      var pending := t0.Keys;
      while pending != {}
        invariant pending <= t0.Keys
        invariant tracker == RefreshedExcept(t0, pending)
        invariant lastRefreshTime == now
        decreases |pending|
      {
        var a :| a in pending;
        RefreshOneMore(t0, pending, a);
        if tracker[a] == Idle {
          tracker := tracker - {a};
        } else {
          tracker := tracker[a := Track(tracker[a].curr, 0)];
        }
        pending := pending - {a};
      }
      assert tracker == Refresh(old(State()), now).tracks;
    }
  }

  /** refreshWindow's loop part way through: the endpoints in `pending`
      are not yet visited. */
  function RefreshedExcept(t0: map<Endpoint, Track>, pending: set<Endpoint>): map<Endpoint, Track>
  {
    map a | a in t0 && (a in pending || t0[a] != Idle) :: if a in pending then t0[a] else Track(t0[a].curr, 0)
  }

  lemma RefreshOneMore(t0: map<Endpoint, Track>, pending: set<Endpoint>, a: Endpoint)
    requires pending <= t0.Keys && a in pending
    ensures a in RefreshedExcept(t0, pending) && RefreshedExcept(t0, pending)[a] == t0[a]
    ensures RefreshedExcept(t0, pending - {a}) ==
      var m := RefreshedExcept(t0, pending);
      if t0[a] == Idle then m - {a} else m[a := Track(t0[a].curr, 0)]
  {
  }
}
