/** The `WS2801` class of app.js: the strip buffer, the fade engine that
    drives the LEDs, the dispatcher for commands from the control server and
    the idle animation shown while the server is being searched for. The LED
    hardware is a ghost log of the frames committed with `show()`; the
    WebSocket client is a ghost log of the addresses it was opened to. */
module Strip {
  import opened Interpolation
  import opened Gradients
  import opened Discovery
  import opened Sequences

  const LedCount: nat := 32
  const DefaultSteps: int := 50
  const Black: Rgb := Rgb(0.0, 0.0, 0.0)

  /** The colour the idle loop fades to while searching. */
  const Searching: Rgb := Rgb(0.0, 100.0, 255.0)

  /** `defaultRainbow`: the eight stops of the `rainbow` command. */
  const DefaultRainbow: seq<Rgb> := [
    Rgb(247.0, 149.0, 51.0), Rgb(243.0, 112.0, 85.0), Rgb(239.0, 78.0, 123.0), Rgb(161.0, 102.0, 171.0),
    Rgb(80.0, 115.0, 184.0), Rgb(16.0, 152.0, 173.0), Rgb(7.0, 179.0, 155.0), Rgb(111.0, 186.0, 130.0)]

  /** The callback `_discoverServer` registers with the connector. */
  const FoundHandler: Callback := Handler(0)

  /** `Array(n).fill(c)` */
  function Fill(n: nat, c: Rgb): seq<Rgb>
  {
    seq(n, _ => c)
  }

  /** `steps || 50`: a falsy step count (0 or undefined) means 50. */
  function StepCount(steps: int): int
  {
    if steps == 0 then DefaultSteps else steps
  }

  /** Frame `s` of a fade over `n` steps: every pixel at the `s`-th unrounded
      value of its per-channel spacing from `from[i]` to `to[i]`. */
  function FadeFrame(from: seq<Rgb>, to: seq<Rgb>, n: int, s: int): (f: seq<Rgb>)
    requires |to| >= |from| && 0 <= s < n
    ensures |f| == |from|
  {
    seq(|from|, i requires 0 <= i < |from| => Sample(PixelLinspace(from[i], to[i], n), s))
  }

  /** The frames `_fadeTo(to, steps)` commits, one per step, starting from
      the buffer `from`. */
  function FadeFrames(from: seq<Rgb>, to: seq<Rgb>, steps: int): (frames: seq<seq<Rgb>>)
    requires |to| >= |from|
    ensures |frames| == MaxI(StepCount(steps), 0)
    ensures forall s :: 0 <= s < |frames| ==> |frames[s]| == |from|
  {
    var n := StepCount(steps);
    seq(MaxI(n, 0), s requires 0 <= s < MaxI(n, 0) => FadeFrame(from, to, n, s))
  }

  /** The first frame of a fade shows the buffer it starts from. */
  lemma FadeStartsAtBuffer(from: seq<Rgb>, to: seq<Rgb>, steps: int)
    requires |to| >= |from| && StepCount(steps) >= 1
    ensures FadeFrames(from, to, steps)[0] == from
  {
    var n := StepCount(steps);
    var f := FadeFrames(from, to, steps)[0];
    forall i | 0 <= i < |from|
      ensures f[i] == from[i]
    {
      var p := PixelLinspace(from[i], to[i], n);
      assert f[i] == Sample(p, 0);
    }
  }

  /** With two or more steps the last frame shows the target. */
  lemma FadeEndsAtTarget(from: seq<Rgb>, to: seq<Rgb>, steps: int)
    requires |to| >= |from| && StepCount(steps) >= 2
    ensures FadeFrames(from, to, steps)[StepCount(steps) - 1] == to[..|from|]
  {
    var n := StepCount(steps);
    var f := FadeFrames(from, to, steps)[n - 1];
    forall i | 0 <= i < |from|
      ensures f[i] == to[i]
    {
      var p := PixelLinspace(from[i], to[i], n);
      assert f[i] == Sample(p, n - 1);
    }
  }

  /** A one-step fade shows only the old buffer: the target is never shown,
      although it becomes the buffer. */
  lemma SingleStepShowsOldBuffer(from: seq<Rgb>, to: seq<Rgb>)
    requires |to| >= |from|
    ensures FadeFrames(from, to, 1) == [from]
  {
    FadeStartsAtBuffer(from, to, 1);
  }

  /** A fade to the colours already shown still commits every frame, each
      equal to the buffer. */
  lemma FadeToSameColours(from: seq<Rgb>, to: seq<Rgb>, steps: int)
    requires |to| >= |from| && to[..|from|] == from
    ensures forall s :: 0 <= s < |FadeFrames(from, to, steps)| ==> FadeFrames(from, to, steps)[s] == from
  {
    var n := StepCount(steps);
    var frames := FadeFrames(from, to, steps);
    forall s, i | 0 <= s < |frames| && 0 <= i < |from|
      ensures frames[s][i] == from[i]
    {
      assert to[i] == from[i];
      LinspaceConstant(from[i].r, n, s);
      LinspaceConstant(from[i].g, n, s);
      LinspaceConstant(from[i].b, n, s);
    }
  }

  /** Every channel of every frame lies between the old and the new value of
      that pixel. */
  lemma FadeFramesBetween(from: seq<Rgb>, to: seq<Rgb>, steps: int, s: int, i: int)
    requires |to| >= |from|
    requires 0 <= s < |FadeFrames(from, to, steps)| && 0 <= i < |from|
    ensures MinR(from[i].r, to[i].r) <= FadeFrames(from, to, steps)[s][i].r <= MaxR(from[i].r, to[i].r)
    ensures MinR(from[i].g, to[i].g) <= FadeFrames(from, to, steps)[s][i].g <= MaxR(from[i].g, to[i].g)
    ensures MinR(from[i].b, to[i].b) <= FadeFrames(from, to, steps)[s][i].b <= MaxR(from[i].b, to[i].b)
  {
    var n := StepCount(steps);
    LinspaceBetween(from[i].r, to[i].r, n, s);
    LinspaceBetween(from[i].g, to[i].g, n, s);
    LinspaceBetween(from[i].b, to[i].b, n, s);
  }

  /** The frames of one iteration of the idle loop from the buffer `start`:
      a fade to the searching colour, then a fade to black, both with the
      default steps. */
  function IdleRound(start: seq<Rgb>, ledCount: nat): seq<seq<Rgb>>
    requires |start| <= ledCount
  {
    FadeFrames(start, Fill(ledCount, Searching), 0) +
    FadeFrames(Fill(ledCount, Searching), Fill(ledCount, Black), 0)
  }

  /** The frames of `rounds` iterations of the idle loop; every round after
      the first starts from black. */
  function IdleFrames(from: seq<Rgb>, ledCount: nat, rounds: nat): seq<seq<Rgb>>
    requires |from| <= ledCount
    decreases rounds
  {
    if rounds == 0 then []
    else IdleFrames(from, ledCount, rounds - 1) + IdleRound(if rounds == 1 then from else Fill(ledCount, Black), ledCount)
  }

  /** A round commits 100 frames: frame 49 shows the searching colour on
      every LED and frame 99 shows black. */
  lemma IdleRoundShape(start: seq<Rgb>, ledCount: nat)
    requires |start| == ledCount
    ensures |IdleRound(start, ledCount)| == 100
    ensures IdleRound(start, ledCount)[49] == Fill(ledCount, Searching)
    ensures IdleRound(start, ledCount)[99] == Fill(ledCount, Black)
  {
    var toSearching := FadeFrames(start, Fill(ledCount, Searching), 0);
    var toBlack := FadeFrames(Fill(ledCount, Searching), Fill(ledCount, Black), 0);
    FadeEndsAtTarget(start, Fill(ledCount, Searching), 0);
    FadeEndsAtTarget(Fill(ledCount, Searching), Fill(ledCount, Black), 0);
    assert Fill(ledCount, Searching)[..ledCount] == Fill(ledCount, Searching);
    assert Fill(ledCount, Black)[..ledCount] == Fill(ledCount, Black);
    assert IdleRound(start, ledCount)[99] == toBlack[49];
  }

  lemma {:induction false} IdleFramesLength(from: seq<Rgb>, ledCount: nat, rounds: nat)
    requires |from| == ledCount
    ensures |IdleFrames(from, ledCount, rounds)| == 100 * rounds
    decreases rounds
  {
    if rounds > 0 {
      IdleFramesLength(from, ledCount, rounds - 1);
      IdleRoundShape(if rounds == 1 then from else Fill(ledCount, Black), ledCount);
    }
  }

  /** Each idle round commits 100 frames; in round `k` frame 49 shows the
      searching colour on every LED and frame 99 shows black. */
  lemma {:induction false} IdleFramesShape(from: seq<Rgb>, ledCount: nat, rounds: nat, k: nat)
    requires |from| == ledCount && k < rounds
    ensures |IdleFrames(from, ledCount, rounds)| == 100 * rounds
    ensures IdleFrames(from, ledCount, rounds)[100 * k + 49] == Fill(ledCount, Searching)
    ensures IdleFrames(from, ledCount, rounds)[100 * k + 99] == Fill(ledCount, Black)
    decreases rounds
  {
    IdleFramesLength(from, ledCount, rounds);
    IdleFramesLength(from, ledCount, rounds - 1);
    var prefix := IdleFrames(from, ledCount, rounds - 1);
    var round := IdleRound(if rounds == 1 then from else Fill(ledCount, Black), ledCount);
    assert IdleFrames(from, ledCount, rounds) == prefix + round;
    if k < rounds - 1 {
      IdleFramesShape(from, ledCount, rounds - 1, k);
      assert (prefix + round)[100 * k + 49] == prefix[100 * k + 49];
      assert (prefix + round)[100 * k + 99] == prefix[100 * k + 99];
    } else {
      IdleRoundShape(if rounds == 1 then from else Fill(ledCount, Black), ledCount);
      assert 100 * k == |prefix|;
      assert (prefix + round)[100 * k + 49] == round[49];
      assert (prefix + round)[100 * k + 99] == round[99];
    }
  }

  /** A command from the control server after JSON parsing: its `type` and,
      when present, its `value` colour. */
  datatype Message = Message(kind: string, value: Option<Rgb>)

  /** The commands `_parseWSData` tells apart by `type`. */
  datatype Command = GradientCommand | FillCommand(value: Option<Rgb>) | RainbowCommand | Unknown(kind: string)

  function Parse(m: Message): (c: Command)
    ensures c.Unknown? <==> m.kind != "gradient" && m.kind != "fill" && m.kind != "rainbow"
    ensures c.Unknown? ==> c.kind == m.kind
    ensures c == GradientCommand <==> m.kind == "gradient"
    ensures c == RainbowCommand <==> m.kind == "rainbow"
    ensures c.FillCommand? <==> m.kind == "fill"
    ensures c.FillCommand? ==> c.value == m.value
  {
    if m.kind == "gradient" then GradientCommand
    else if m.kind == "fill" then FillCommand(m.value)
    else if m.kind == "rainbow" then RainbowCommand
    else Unknown(m.kind)
  }

  /** Why a command starts no fade. In the source each of these is a
      TypeError thrown before the first frame. */
  datatype Failure =
    | NoStops      // the `gradient` branch passes the raw message text, which has no `stops`
    | NoValue      // a `fill` command without a `value`
    | ShortTarget  // a target with fewer pixels than the buffer

  datatype Outcome = Faded(target: seq<Rgb>) | Dropped | Failed(failure: Failure)

  /** The first loop of `_fadeTo`: one channel spacing per pixel of `from`,
      towards the pixel of `to` at the same index. */
  method PixelLinspaces(from: seq<Rgb>, to: seq<Rgb>, n: int) returns (linspaces: seq<Channels>)
    requires |to| >= |from|
    ensures |linspaces| == |from|
    ensures forall i :: 0 <= i < |from| ==> linspaces[i] == PixelLinspace(from[i], to[i], n)
  {
    linspaces := [];
    var index := 0;
    while index < |from|
      invariant 0 <= index <= |from|
      invariant |linspaces| == index
      invariant forall i :: 0 <= i < index ==> linspaces[i] == PixelLinspace(from[i], to[i], n)
    {
      linspaces := linspaces + [PixelLinspace(from[index], to[index], n)];
      index := index + 1;
    }
  }

  /** The inner loop of `_fadeTo`: every pixel set from the `step`-th entry
      of its own channel spacings. */
  method SampleFrame(linspaces: seq<Channels>, step: nat) returns (shown: seq<Rgb>)
    requires forall j :: 0 <= j < |linspaces| ==>
      step < |linspaces[j].red| && step < |linspaces[j].green| && step < |linspaces[j].blue|
    ensures |shown| == |linspaces|
    ensures forall j :: 0 <= j < |linspaces| ==> shown[j] == Sample(linspaces[j], step)
  {
    shown := [];
    var i := 0;
    while i < |linspaces|
      invariant 0 <= i <= |linspaces|
      invariant |shown| == i
      invariant forall j :: 0 <= j < i ==> shown[j] == Sample(linspaces[j], step)
    {
      var r := linspaces[i].red[step];
      var g := linspaces[i].green[step];
      var b := linspaces[i].blue[step];
      shown := shown + [Rgb(r, g, b)];  // leds.setLight(i, r, g, b)
      i := i + 1;
    }
  }

  class Ws2801 {
    const ledCount: nat
    var values: seq<Rgb>
    var isConnected: bool
    ghost var frames: seq<seq<Rgb>>
    ghost var sockets: seq<string>

    /** The buffer holds a colour for every LED. It starts with exactly
        `ledCount` entries; a fade replaces it by a target at least as long,
        and the `fill` command and the idle loop use targets of `LedCount`
        pixels whatever `ledCount` is, so it can grow beyond `ledCount`. */
    ghost predicate Valid()
      reads this
    {
      |values| >= ledCount
    }

    /** The buffer starts black, the strip is blanked with one frame, and no
        server is known. */
    constructor(ledCount: nat)
      ensures Valid() && this.ledCount == ledCount
      ensures values == Fill(ledCount, Black) && !isConnected
      ensures frames == [Fill(LedCount, Black)] && sockets == []
    {
      this.ledCount := ledCount;
      values := Fill(ledCount, Black);
      frames := [Fill(LedCount, Black)];  // the hardware driver always has 32 LEDs
      sockets := [];
      isConnected := false;
    }

    /** `_fadeTo`: one per-channel spacing per pixel, then for every step
        each pixel is set and one frame committed; finally the buffer becomes
        a copy of the target, not the last frame. */
    method FadeTo(to: seq<Rgb>, steps: int)
      requires |to| >= |values|
      modifies this
      ensures values == to
      ensures frames == old(frames) + FadeFrames(old(values), to, steps)
      ensures isConnected == old(isConnected) && sockets == old(sockets)
    {
      var n := steps;
      if n == 0 {
        n := 50;
      }
      var linspaces := PixelLinspaces(values, to, n);
      ghost var all := FadeFrames(values, to, steps);
      assert n == StepCount(steps);
      var step := 0;
      while step < n
        invariant 0 <= step <= MaxI(n, 0)
        invariant frames == old(frames) + all[..step]
        invariant values == old(values) && isConnected == old(isConnected) && sockets == old(sockets)
      {
        ghost var frame := FadeFrame(values, to, n, step);
        assert all[step] == frame;
        var shown := SampleFrame(linspaces, step);
        assert shown == frame by {
          forall j | 0 <= j < |frame|
            ensures shown[j] == frame[j]
          {
            assert frame[j] == Sample(PixelLinspace(values[j], to[j], n), step);
          }
        }
        assert all[..step + 1] == all[..step] + [frame];
        frames := frames + [shown];  // leds.show()
        step := step + 1;
      }
      assert all[..MaxI(n, 0)] == all;
      values := to;
    }

    /** `_setGradient`: builds the gradient and fades to it. A gradient shorter
        than the buffer makes `_fadeTo` throw before any frame. */
    method SetGradient(stops: seq<Rgb>) returns (outcome: Outcome)
      requires Valid()
      modifies this
      ensures Valid()
      ensures var g := Gradient(stops, ledCount);
        if |g| >= |old(values)| then
          outcome == Faded(g) && values == g && frames == old(frames) + FadeFrames(old(values), g, 0)
        else
          outcome == Failed(ShortTarget) && values == old(values) && frames == old(frames)
      ensures isConnected == old(isConnected) && sockets == old(sockets)
    {
      var fullGradient := GradientPixels(stops, ledCount);
      if |fullGradient| >= |values| {
        FadeTo(fullGradient, 0);
        outcome := Faded(fullGradient);
      } else {
        outcome := Failed(ShortTarget);
      }
    }

    /** `_parseWSData`: dispatches on the message type. */
    method ParseWSData(m: Message) returns (outcome: Outcome)
      requires Valid()
      modifies this
      ensures Valid()
      ensures Parse(m) == GradientCommand ==> outcome == Failed(NoStops)
      ensures Parse(m) == FillCommand(None) ==> outcome == Failed(NoValue)
      ensures Parse(m).FillCommand? && m.value.Some? ==>
        outcome == if LedCount >= |old(values)| then Faded(Fill(LedCount, m.value.value)) else Failed(ShortTarget)
      ensures Parse(m) == RainbowCommand ==>
        outcome == if |Gradient(DefaultRainbow, ledCount)| >= |old(values)| then Faded(Gradient(DefaultRainbow, ledCount))
                   else Failed(ShortTarget)
      ensures Parse(m).Unknown? ==> outcome == Dropped
      ensures outcome.Faded? ==> values == outcome.target && frames == old(frames) + FadeFrames(old(values), outcome.target, 0)
      ensures !outcome.Faded? ==> values == old(values) && frames == old(frames)
      ensures isConnected == old(isConnected) && sockets == old(sockets)
    {
      match Parse(m) {
        case GradientCommand =>
          outcome := Failed(NoStops);
        case FillCommand(value) =>
          if value.None? {
            outcome := Failed(NoValue);
          } else if LedCount >= |values| {
            FadeTo(Fill(LedCount, value.value), 0);
            outcome := Faded(Fill(LedCount, value.value));
          } else {
            outcome := Failed(ShortTarget);
          }
        case RainbowCommand =>
          outcome := SetGradient(DefaultRainbow);
        case Unknown(_) =>
          // only logged
          outcome := Dropped;
      }
    }

    /** The found-callback registered in `_discoverServer`: marks the strip
        connected and opens the WebSocket client to the address it is given. */
    method ServerFound(address: string)
      modifies this
      ensures isConnected && sockets == old(sockets) + [address]
      ensures values == old(values) && frames == old(frames)
    {
      isConnected := true;
      sockets := sockets + [address];  // _setupWSClient(address)
    }

    /** A datagram reaching the connector: `_onMessage` calls the callback
        with the payload, which for the callback `_discoverServer` registers
        means `ServerFound(payload)`, so the WebSocket address is the payload
        and not the sender's address. */
    method Deliver(c: BroadcastConnector, message: string, remote: Remote)
      modifies this, c
      ensures c.found && c.invocations == old(c.invocations) + [Invocation(old(c.callback), message)]
      ensures c.callback == old(c.callback) && c.interval == old(c.interval)
      ensures c.sent == old(c.sent) && c.scheduled == old(c.scheduled)
      ensures old(c.callback) == FoundHandler ==> isConnected && sockets == old(sockets) + [message]
      ensures old(c.callback) != FoundHandler ==> isConnected == old(isConnected) && sockets == old(sockets)
      ensures values == old(values) && frames == old(frames)
    {
      c.OnMessage(message, remote);
      if c.callback == FoundHandler {
        ServerFound(message);
      }
    }

    /** `_discoveryLoop`: fades to the searching colour and back to black
        until connected. The connection is made by the first datagram, which
        arrives during iteration `connectDuring`; the loop notices it when the
        iteration ends. */
    method DiscoveryLoop(c: BroadcastConnector, connectDuring: nat, message: string, remote: Remote)
      requires Valid() && |values| <= LedCount && c.callback == FoundHandler
      modifies this, c
      ensures Valid() && |values| <= LedCount && isConnected
      ensures c.callback == old(c.callback) && c.interval == old(c.interval)
      ensures c.sent == old(c.sent) && c.scheduled == old(c.scheduled)
      ensures old(isConnected) ==>
        values == old(values) && frames == old(frames) && sockets == old(sockets) &&
        c.found == old(c.found) && c.invocations == old(c.invocations)
      ensures !old(isConnected) ==>
        values == Fill(LedCount, Black) &&
        frames == old(frames) + IdleFrames(old(values), LedCount, connectDuring + 1) &&
        sockets == old(sockets) + [message] &&
        c.found && c.invocations == old(c.invocations) + [Invocation(FoundHandler, message)]
    {
      var round: nat := 0;
      while !isConnected
        invariant Valid() && |values| <= LedCount
        invariant c.callback == old(c.callback) && c.interval == old(c.interval)
        invariant c.sent == old(c.sent) && c.scheduled == old(c.scheduled)
        invariant old(isConnected) ==> round == 0
        invariant !isConnected ==> round <= connectDuring
        invariant round == 0 ==>
          isConnected == old(isConnected) && values == old(values) && frames == old(frames) && sockets == old(sockets) &&
          c.found == old(c.found) && c.invocations == old(c.invocations)
        invariant !old(isConnected) ==> round <= connectDuring + 1
        invariant !old(isConnected) && round > 0 ==>
          values == Fill(LedCount, Black) && frames == old(frames) + IdleFrames(old(values), LedCount, round)
        invariant !old(isConnected) ==> (isConnected <==> round == connectDuring + 1)
        invariant !old(isConnected) && isConnected ==>
          sockets == old(sockets) + [message] &&
          c.found && c.invocations == old(c.invocations) + [Invocation(FoundHandler, message)]
        invariant !old(isConnected) && !isConnected ==>
          sockets == old(sockets) && c.invocations == old(c.invocations)
        decreases connectDuring + 1 - round
      {
        ghost var before := frames;
        ghost var start := values;
        FadeTo(Fill(LedCount, Searching), 0);
        FadeTo(Fill(LedCount, Black), 0);
        if !old(isConnected) {
          assert frames == old(frames) + IdleFrames(old(values), LedCount, round + 1) by {
            var toSearching := FadeFrames(start, Fill(LedCount, Searching), 0);
            var toBlack := FadeFrames(Fill(LedCount, Searching), Fill(LedCount, Black), 0);
            assert frames == before + toSearching + toBlack;
            assert start == if round == 0 then old(values) else Fill(LedCount, Black);
            assert IdleFrames(old(values), LedCount, round + 1) ==
                   IdleFrames(old(values), LedCount, round) + (toSearching + toBlack);
            AppendAssociative(before, toSearching, toBlack);
            AppendAssociative(old(frames), IdleFrames(old(values), LedCount, round), toSearching + toBlack);
          }
        }
        if round == connectDuring {
          Deliver(c, message, remote);
        }
        round := round + 1;
      }
    }

    /** `_discoverServer`: creates the connector, whose constructor already
        broadcasts once with the default delay, then sets a 5000 ms interval,
        registers the found-callback and runs the idle loop. */
    method DiscoverServer(connectDuring: nat, message: string, remote: Remote) returns (c: BroadcastConnector)
      requires Valid() && |values| <= LedCount
      modifies this
      ensures fresh(c) && Valid() && isConnected
      ensures c.interval == Some(5000) && c.callback == FoundHandler
      ensures c.sent == [AnnounceDatagram] && c.scheduled == [DefaultInterval]
      ensures !old(isConnected) ==>
        values == Fill(LedCount, Black) &&
        frames == old(frames) + IdleFrames(old(values), LedCount, connectDuring + 1) &&
        sockets == old(sockets) + [message] &&
        c.found && c.invocations == [Invocation(FoundHandler, message)]
      ensures old(isConnected) ==>
        values == old(values) && frames == old(frames) && sockets == old(sockets) &&
        !c.found && c.invocations == []
    {
      c := new BroadcastConnector();
      c.SetInterval(5000);
      c.OnServerFound(FoundHandler);
      DiscoveryLoop(c, connectDuring, message, remote);
    }
  }

  /** As written, the gradient of the `rainbow` command has 29 pixels on the
      32-LED strip, so that command always fails. */
  lemma DefaultRainbowGradientIsShort()
    ensures |Gradient(DefaultRainbow, LedCount)| == 29
    ensures |Gradient(DefaultRainbow, LedCount)| < LedCount
  {
    GradientLength(DefaultRainbow, LedCount);
  }

  lemma DefaultRainbowBytes()
    ensures forall k :: 0 <= k < |DefaultRainbow| ==> IsByteColor(DefaultRainbow[k])
  {
    forall k | 0 <= k < |DefaultRainbow|
      ensures IsByteColor(DefaultRainbow[k])
    {
      var c := DefaultRainbow[k];
      assert c.r.Floor as real == c.r && c.g.Floor as real == c.g && c.b.Floor as real == c.b;
    }
  }

  /** With the remainder given to the last segment the `rainbow` gradient
      covers the 32-LED strip, and every pixel is a valid hardware colour. */
  lemma DefaultRainbowFullGradient()
    ensures |FullGradient(DefaultRainbow, LedCount)| == LedCount
    ensures forall i :: 0 <= i < LedCount ==> IsByteColor(FullGradient(DefaultRainbow, LedCount)[i])
  {
    FullGradientLength(DefaultRainbow, LedCount);
    DefaultRainbowBytes();
    FullGradientBytes(DefaultRainbow, LedCount);
  }

  /** Two stops over four LEDs give four colours from the first stop to the
      second, both included. */
  lemma TwoStopGradientExample()
    ensures var g := Gradient([Rgb(247.0, 149.0, 51.0), Rgb(16.0, 152.0, 173.0)], 4);
      |g| == 4 && g[0] == Rgb(247.0, 149.0, 51.0) && g[3] == Rgb(16.0, 152.0, 173.0)
  {
    var stops := [Rgb(247.0, 149.0, 51.0), Rgb(16.0, 152.0, 173.0)];
    GradientSegmentAt(stops, 4, 0);
    SegmentEnds(stops[0], stops[1], 4);
  }
}
