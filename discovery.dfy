/** The broadcast discovery of broadcastConnector.js: announce the device on
    the local subnet at an interval until any datagram comes back. The UDP
    socket and the timer are ghost logs: the datagrams sent, the delays handed
    to `setTimeout`, and the invocations of the found-callback. */
module Discovery {
  import opened Sequences

  datatype Option<T> = None | Some(value: T)

  const DevicePort: int := 8000
  const ServerPort: int := 5000
  const DefaultInterval: int := 5000
  const BroadcastAddress: string := "192.168.0.255"

  /** `JSON.stringify({type: 'ui'})`, the presence announcement. */
  const Announcement: string := "{\"type\":\"ui\"}"

  /** A datagram handed to the socket: payload, destination address and port. */
  datatype Datagram = Datagram(payload: string, address: string, port: int)

  const AnnounceDatagram: Datagram := Datagram(Announcement, BroadcastAddress, ServerPort)

  /** The sender of a received datagram, as the socket reports it. */
  datatype Remote = Remote(address: string, port: int)

  /** The found-callback: the default that does nothing, or one a client
      registered, told apart by an identifier. */
  datatype Callback = DoNothing | Handler(id: nat)

  /** One call of the found-callback with the argument it was given. */
  datatype Invocation = Invocation(callback: Callback, argument: string)

  /** What the event loop delivers to the connector: an expiry of the timer
      that `_discoveryLoop` scheduled, or a datagram. */
  datatype Event = TimerFired | Received(message: string, remote: Remote)

  /** `this.interval || defaultInterval`: an unset or zero interval falls back
      to the default. */
  function Delay(interval: Option<int>): (d: int)
    ensures d != 0
    ensures interval.Some? && interval.value != 0 ==> d == interval.value
    ensures interval.None? || interval.value == 0 ==> d == DefaultInterval
  {
    match interval
    case None => DefaultInterval
    case Some(v) => if v == 0 then DefaultInterval else v
  }

  function Repeat<T>(x: T, n: nat): (r: seq<T>)
    ensures |r| == n
  {
    seq(n, _ => x)
  }

  /** Whether the flag is set after the connector has handled `events`. */
  function FoundAfter(found: bool, events: seq<Event>): bool
    decreases |events|
  {
    if events == [] then found
    else FoundAfter(found, events[..|events| - 1]) || events[|events| - 1].Received?
  }

  /** How many timer expiries in `events` meet the flag still clear: each one
      sends an announcement and schedules the next expiry. */
  function SearchingTicks(found: bool, events: seq<Event>): (n: nat)
    ensures n <= |events|
    decreases |events|
  {
    if events == [] then 0
    else
      var rest := events[..|events| - 1];
      SearchingTicks(found, rest) + Ticks(FoundAfter(found, rest), events[|events| - 1])
  }

  /** The callback invocation one event causes, if any. */
  function Triggered(callback: Callback, e: Event): seq<Invocation>
  {
    match e
    case TimerFired => []
    case Received(message, _) => [Invocation(callback, message)]
  }

  /** How many announcements one event sends: one for a timer expiry that
      meets the flag clear, none otherwise. */
  function Ticks(found: bool, e: Event): nat
  {
    if e.TimerFired? && !found then 1 else 0
  }

  /** The callback invocations `events` cause: one per datagram, in order. */
  function Invocations(callback: Callback, events: seq<Event>): seq<Invocation>
    decreases |events|
  {
    if events == [] then []
    else Invocations(callback, events[..|events| - 1]) + Triggered(callback, events[|events| - 1])
  }

  /** More copies appended to a log that ends in `n` copies. */
  lemma RepeatAppend<T>(log: seq<T>, x: T, n: nat, m: nat)
    ensures log + Repeat(x, n) + Repeat(x, m) == log + Repeat(x, n + m)
  {
    assert Repeat(x, n) + Repeat(x, m) == Repeat(x, n + m);
  }

  /** The effect of the event at index `k` on the three summaries. */
  lemma EventStep(found: bool, callback: Callback, events: seq<Event>, k: nat)
    requires k < |events|
    ensures FoundAfter(found, events[..k + 1]) == (FoundAfter(found, events[..k]) || events[k].Received?)
    ensures SearchingTicks(found, events[..k + 1]) ==
            SearchingTicks(found, events[..k]) + Ticks(FoundAfter(found, events[..k]), events[k])
    ensures Invocations(callback, events[..k + 1]) == Invocations(callback, events[..k]) + Triggered(callback, events[k])
  {
    assert events[..k + 1][..k] == events[..k];
  }

  class BroadcastConnector {
    const port: int
    var callback: Callback
    var found: bool
    /** `this.interval`, undefined until `setInterval` is called. */
    var interval: Option<int>
    ghost var sent: seq<Datagram>
    ghost var scheduled: seq<int>
    ghost var invocations: seq<Invocation>

    /** Binds the device port, installs the do-nothing callback, clears the
        flag and runs the first discovery tick at once, so the first delay is
        always the default one. */
    constructor()
      ensures port == DevicePort && callback == DoNothing && interval == None && !found
      ensures sent == [AnnounceDatagram] && scheduled == [DefaultInterval] && invocations == []
    {
      port := DevicePort;
      callback := DoNothing;
      interval := None;
      found := false;
      sent, scheduled, invocations := [], [], [];
      new;
      DiscoveryLoop();
    }

    /** Clears the flag and runs one discovery tick at once. */
    method Restart()
      modifies this
      ensures !found
      ensures sent == old(sent) + [AnnounceDatagram]
      ensures scheduled == old(scheduled) + [Delay(interval)]
      ensures callback == old(callback) && interval == old(interval) && invocations == old(invocations)
    {
      found := false;
      DiscoveryLoop();
    }

    /** Only stores the interval; the next tick uses it. */
    method SetInterval(v: int)
      modifies this
      ensures interval == Some(v)
      ensures callback == old(callback) && found == old(found)
      ensures sent == old(sent) && scheduled == old(scheduled) && invocations == old(invocations)
    {
      interval := Some(v);
    }

    /** Only replaces the callback. */
    method OnServerFound(cb: Callback)
      modifies this
      ensures callback == cb
      ensures interval == old(interval) && found == old(found)
      ensures sent == old(sent) && scheduled == old(scheduled) && invocations == old(invocations)
    {
      callback := cb;
    }

    /** Any datagram, whatever its content and whether or not the flag is
        already set, sets the flag and calls the callback with the payload;
        the sender's address is not passed on. */
    method OnMessage(message: string, remote: Remote)
      modifies this
      ensures found
      ensures invocations == old(invocations) + [Invocation(callback, message)]
      ensures callback == old(callback) && interval == old(interval)
      ensures sent == old(sent) && scheduled == old(scheduled)
    {
      found := true;
      invocations := invocations + [Invocation(callback, message)];
    }

    /** One tick: nothing once found; otherwise one announcement and the next
        tick scheduled after the interval. */
    method DiscoveryLoop()
      modifies this
      ensures old(found) ==> sent == old(sent) && scheduled == old(scheduled)
      ensures !old(found) ==> sent == old(sent) + [AnnounceDatagram]
      ensures !old(found) ==> scheduled == old(scheduled) + [Delay(interval)]
      ensures found == old(found) && callback == old(callback) && interval == old(interval)
      ensures invocations == old(invocations)
    {
      if found {
        return;
      }
      Discover();
      scheduled := scheduled + [Delay(interval)];
    }

    /** `_discover`: broadcasts the announcement to the server port. */
    method Discover()
      modifies this
      ensures sent == old(sent) + [AnnounceDatagram]
      ensures found == old(found) && callback == old(callback) && interval == old(interval)
      ensures scheduled == old(scheduled) && invocations == old(invocations)
    {
      sent := sent + [AnnounceDatagram];
    }

    /** One event from the event loop: a timer expiry runs a tick, a
        datagram runs `_onMessage`. */
    method Handle(e: Event)
      modifies this
      ensures found == (old(found) || e.Received?)
      ensures sent == old(sent) + Repeat(AnnounceDatagram, Ticks(old(found), e))
      ensures scheduled == old(scheduled) + Repeat(Delay(interval), Ticks(old(found), e))
      ensures invocations == old(invocations) + Triggered(callback, e)
      ensures callback == old(callback) && interval == old(interval)
    {
      match e {
        case TimerFired =>
          DiscoveryLoop();
        case Received(message, remote) =>
          OnMessage(message, remote);
      }
    }

    /** The connector driven by the event loop: the events handled in the
        order given. */
    method RunEvents(events: seq<Event>)
      modifies this
      ensures found == FoundAfter(old(found), events)
      ensures sent == old(sent) + Repeat(AnnounceDatagram, SearchingTicks(old(found), events))
      ensures scheduled == old(scheduled) + Repeat(Delay(interval), SearchingTicks(old(found), events))
      ensures invocations == old(invocations) + Invocations(callback, events)
      ensures callback == old(callback) && interval == old(interval)
    {
      var k := 0;
      while k < |events|
        invariant 0 <= k <= |events|
        invariant found == FoundAfter(old(found), events[..k])
        invariant sent == old(sent) + Repeat(AnnounceDatagram, SearchingTicks(old(found), events[..k]))
        invariant scheduled == old(scheduled) + Repeat(Delay(interval), SearchingTicks(old(found), events[..k]))
        invariant invocations == old(invocations) + Invocations(callback, events[..k])
        invariant callback == old(callback) && interval == old(interval)
      {
        EventStep(old(found), callback, events, k);
        ghost var ticks := SearchingTicks(old(found), events[..k]);
        ghost var tick := Ticks(found, events[k]);
        Handle(events[k]);
        RepeatAppend(old(sent), AnnounceDatagram, ticks, tick);
        RepeatAppend(old(scheduled), Delay(interval), ticks, tick);
        AppendAssociative(old(invocations), Invocations(callback, events[..k]), Triggered(callback, events[k]));
        k := k + 1;
      }
      assert events[..|events|] == events;
    }
  }

  /** Once the flag is set no timer expiry sends anything. */
  lemma {:induction false} FoundStaysSilent(events: seq<Event>)
    ensures FoundAfter(true, events)
    ensures SearchingTicks(true, events) == 0
    decreases |events|
  {
    if events != [] {
      FoundStaysSilent(events[..|events| - 1]);
    }
  }

  /** With no datagram the connector keeps searching: every expiry sends one
      announcement. */
  lemma {:induction false} SilenceKeepsSearching(events: seq<Event>)
    requires forall k :: 0 <= k < |events| ==> events[k].TimerFired?
    ensures !FoundAfter(false, events)
    ensures SearchingTicks(false, events) == |events|
    ensures Invocations(DoNothing, events) == []
    decreases |events|
  {
    if events != [] {
      SilenceKeepsSearching(events[..|events| - 1]);
    }
  }

  /** Nothing is sent after the first datagram, however many expiries follow. */
  lemma {:induction false} NothingSentAfterDatagram(before: seq<Event>, message: string, remote: Remote, after: seq<Event>)
    ensures FoundAfter(false, before + [Received(message, remote)] + after)
    ensures SearchingTicks(false, before + [Received(message, remote)] + after) == SearchingTicks(false, before)
    decreases |after|
  {
    var head := before + [Received(message, remote)];
    if after == [] {
      assert head + after == head;
      assert head[..|head| - 1] == before;
    } else {
      var all := head + after;
      NothingSentAfterDatagram(before, message, remote, after[..|after| - 1]);
      assert all[..|all| - 1] == head + after[..|after| - 1];
    }
  }

  /** The invocations of two runs of events back to back are those of each
      run, in order. */
  lemma {:induction false} InvocationsConcat(callback: Callback, a: seq<Event>, b: seq<Event>)
    ensures Invocations(callback, a + b) == Invocations(callback, a) + Invocations(callback, b)
    decreases |b|
  {
    if b == [] {
      assert a + b == a;
    } else {
      var rest := b[..|b| - 1];
      var tail := Triggered(callback, b[|b| - 1]);
      InvocationsConcat(callback, a, rest);
      assert Invocations(callback, a + b) == Invocations(callback, a + rest) + tail by {
        assert (a + b)[..|a + b| - 1] == a + rest;
        assert (a + b)[|a + b| - 1] == b[|b| - 1];
      }
      AppendAssociative(Invocations(callback, a), Invocations(callback, rest), tail);
    }
  }

  /** The callback is not edge-triggered: every datagram invokes it, with its
      payload, even once the flag is set. */
  lemma InvocationsAppend(callback: Callback, events: seq<Event>, message: string, remote: Remote, more: seq<Event>)
    ensures Invocations(callback, events + [Received(message, remote)] + more) ==
            Invocations(callback, events) + [Invocation(callback, message)] + Invocations(callback, more)
  {
    var head := events + [Received(message, remote)];
    assert Invocations(callback, head) == Invocations(callback, events) + [Invocation(callback, message)] by {
      assert head[..|head| - 1] == events;
    }
    InvocationsConcat(callback, head, more);
  }
}
