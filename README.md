# WS2801 strip controller: colour pipeline and discovery, in Dafny

This project models the core of a small controller for a WS2801 LED strip
driven from a single-board computer. Two parts are modelled:

- **The colour logic of `app.js`.**
  - `_linspace` spaces values evenly between two numbers.
  - `_pixelLinspace` and `_calculateGradient` apply it per channel and round each channel with `Math.round`.
  - `_setGradient` stitches one segment per pair of adjacent colour stops.
  - `_rainbow` sweeps a 3-sector hue wheel.
  - `_fadeTo` commits one frame per step to the LEDs, then replaces the strip buffer by the target.
  - `_parseWSData` dispatches on the command `type`.
  - `_discoveryLoop` runs the idle animation until the found-callback sets `isConnected`.
- **The broadcast discovery of `broadcastConnector.js`.** It announces `{"type":"ui"}` to `192.168.0.255:5000` on a timer until any datagram arrives. Every datagram sets the `_found` flag and calls the registered callback with the datagram's payload.

Channel values are exact `real`s, and `Math.round(x)` is `Floor(x + 0.5)`.
A falsy count or step number (0 or `undefined`) is written as 0.

Files and modules:

| file | module | models |
|---|---|---|
| `interpolation.dfy` | `Interpolation` | `Rgb`, `Math.round`, `_linspace` (closed form `LinspaceValues` and the array-filling `Linspace`), `_pixelLinspace` |
| `gradient.dfy` | `Gradients` | `_calculateGradient` (`Segment`, `CalculateGradient`), `_setGradient`'s segment loop (`Gradient`, `GradientPixels`), the corrected `FullGradient` |
| `rainbow.dfy` | `Rainbow` | `_rainbow` (`HueColor`, `Sweep`, `Rainbow`) |
| `strip.dfy` | `Strip` | class `Ws2801`: buffer, fade engine, dispatch, idle loop, found-callback |
| `discovery.dfy` | `Discovery` | class `BroadcastConnector` and the event loop that drives it |
| `sequences.dfy` | `Sequences` | associativity of concatenation, shared by the other modules |

External collaborators are ghost state:

- **LED hardware.** `Ws2801.frames` logs every frame committed with `show()`. Each frame holds the pixels set with `setLight` during that step.
- **WebSocket client.** `Ws2801.sockets` logs the addresses a client was opened to.
- **UDP socket.** `BroadcastConnector.sent` logs the datagrams sent.
- **Timer.** `BroadcastConnector.scheduled` logs the delays handed to `setTimeout`.
- **Callback.** `BroadcastConnector.invocations` logs each call of the found-callback with its argument.

The model follows the code, including these behaviours:

- The rainbow uses 3 sectors of the hue wheel.
- The last gradient segment gets a single extra pixel when the division is inexact.
- A count of 0 gives `max(round(end - start), 1)` values.
- The found-callback fires on every datagram and receives the datagram's payload.
- `_fadeTo` accepts a target longer than the buffer; the buffer then takes the longer target's length.
- The `fill` command, the idle loop and the blank frame at start-up use the module constant of 32 LEDs; the gradient and the rainbow use the instance's `ledCount`.

## Model

| member | source | states |
|---|---|---|
| Interpolation.Round | app.js:107-109 | `Math.round`: the result is the integer n with n - 0.5 <= x < n + 0.5 |
| Interpolation.RoundIntegral | app.js:107-109 | rounding a whole number returns it unchanged |
| Interpolation.RoundBetween | app.js:107-109 | rounding a value between two whole numbers stays between them |
| Interpolation.RoundColor | app.js:107-110 | each channel is rounded; the result is whole-numbered; whole-numbered colours are unchanged; valid hardware colours stay valid |
| Interpolation.DefaultCount | app.js:116-118 | a falsy count becomes `max(round(end - start), 1)`, which is at least 1 |
| Interpolation.LinspaceValues | app.js:115-131 | length is `count` for count >= 1, the default count for count 0, and empty for a negative count; first value is `start`; with two or more values the last is `end` |
| Interpolation.Linspace | app.js:115-131 | the array filled from the top index down equals the closed form `(i*end + (count-1-i)*start)/(count-1)`, with the count-0/1/negative branches |
| Interpolation.LinspaceBetween | app.js:126-128 | every value lies between `start` and `end` |
| Interpolation.LinspaceEvenSteps | app.js:126-128 | consecutive values differ by exactly `(end - start)/(count - 1)` |
| Interpolation.LinspaceConstant | app.js:126-128 | spacing from a value to itself gives that value at every index |
| Interpolation.LinspaceReversed | app.js:126-128 | for count >= 2, swapping the endpoints reverses the sequence |
| Interpolation.SpacedStep | app.js:126-128 | the closed form advances by `(end - start)/(count - 1)` from each index to the next |
| Interpolation.SpacedConstant | app.js:126-128 | the closed form from a value to itself is that value at every index |
| Interpolation.SpacedMirror | app.js:126-128 | swapping the endpoints of the closed form mirrors the index |
| Interpolation.PixelLinspace | app.js:184-190 | one spacing per channel; for a non-zero count the three channels have equal length `max(count, 0)`; for count 0 each is non-empty; index 0 is the start colour |
| Gradients.Segment | app.js:100-113 | `_calculateGradient` yields exactly `max(count, 0)` pixels |
| Gradients.CalculateGradient | app.js:100-113 | the push loop returns exactly the rounded per-channel spacing, one pixel per index |
| Gradients.SegmentEnds | app.js:100-113 | with whole-number stops, pixel 0 is `start`; with count >= 2 the last pixel is `end` |
| Gradients.SegmentBytes | app.js:100-113 | between two valid hardware colours every pixel is a valid hardware colour, each channel between the two stops' channels |
| Gradients.SegmentConstant | app.js:100-113 | two equal whole-number stops give that colour throughout |
| Gradients.GradientPixels | app.js:88-95 | the segment loop concatenates the segments in stop order; every segment has `floor(L/(k-1))` pixels and the last has one more when the division is inexact |
| Gradients.SegmentsLength | app.js:92-95 | n concatenated segments have `n*size` pixels, plus the extra when the last segment is included |
| Gradients.GradientLength | app.js:89-95 | with k >= 2 stops the gradient has `(k-1)*floor(L/(k-1)) + (inexact ? 1 : 0)` pixels |
| Gradients.GradientCoversStripIff | app.js:89-95 | the gradient is never longer than the strip, and is exactly as long iff `L mod (k-1) <= 1` |
| Gradients.SegmentsAt | app.js:92-95 | segment j sits right after the segments before it |
| Gradients.GradientSegmentAt | app.js:92-95 | in the gradient, the segment for stops j and j+1 sits at offset `j*floor(L/(k-1))` (stop order) |
| Gradients.SegmentsOffset | app.js:92-95 | with segments of `size` pixels, the segment for stops j and j+1 starts at `j*size` |
| Gradients.GradientIdenticalStops | app.js:89-95 | two equal whole-number stops give that colour on all L LEDs |
| Gradients.SegmentsBytes | app.js:92-95 | concatenated segments between valid hardware colours hold only valid hardware colours |
| Gradients.GradientBytes | app.js:89-95 | stops that are valid hardware colours give a gradient of valid hardware colours |
| Gradients.FullGradientLength | app.js:89-94 | corrected gradient (whole remainder in the last segment) has exactly L pixels for every k >= 2 |
| Gradients.FullGradientBytes | app.js:89-94 | the corrected gradient keeps valid hardware colours |
| Rainbow.HueColor | app.js:139-152 | each hue in [0, 256) gives channels in [0, 255], one channel 0, and r + g + b = 255 |
| Rainbow.HueStep | app.js:134 | the hue step `floor(256/ledCount)` is in [1, 256] for 0..256 LEDs |
| Rainbow.SweepColors | app.js:137-153 | every colour of a sweep has channels in [0, 255], a zero channel and channel sum 255 |
| Rainbow.Rainbow | app.js:133-155 | the push loop returns exactly the sweep from hue 0 by `hue_step` |
| Rainbow.SweepAt | app.js:137-153 | colour i is the colour of hue `i*hue_step`, which is below 256 |
| Rainbow.SweepLength | app.js:137-153 | the last hue is below 256 and one more step would reach 256, so there are `ceil(256/hue_step)` colours |
| Rainbow.RainbowFor32Leds | app.js:6 | for 32 LEDs the step is 8 and the rainbow has 32 colours |
| Strip.FadeFrame | app.js:170-175 | a frame has one pixel per buffer entry |
| Strip.FadeFrames | app.js:158-180 | a fade commits `steps` frames (50 when falsy, none when negative), each as long as the buffer |
| Strip.FadeStartsAtBuffer | app.js:165-175 | frame 0 equals the old buffer |
| Strip.FadeEndsAtTarget | app.js:165-175 | with two or more steps the last frame equals the target |
| Strip.SingleStepShowsOldBuffer | app.js:165-175 | a one-step fade shows only the old buffer |
| Strip.FadeToSameColours | app.js:165-180 | a fade to the current colours still commits every frame, each equal to the buffer |
| Strip.FadeFramesBetween | app.js:165-175 | each frame's channels lie between the old and the target value of that pixel |
| Strip.PixelLinspaces | app.js:162-167 | one spacing per buffer pixel, towards the target pixel at the same index |
| Strip.SampleFrame | app.js:170-175 | pixel i of a step's frame is entry `step` of the three channel spacings of pixel i |
| Strip.IdleRoundShape | app.js:55-60 | one idle round is 100 frames; frame 49 is all `[0,100,255]` and frame 99 all black |
| Strip.IdleFramesLength | app.js:55-60 | k idle rounds commit 100*k frames |
| Strip.IdleFramesShape | app.js:55-60 | each idle round commits 100 frames; frame 49 of round k is all `[0,100,255]` and frame 99 is all black |
| Strip.Parse | app.js:71-84 | `gradient`, `fill` and `rainbow` map to their commands (both directions); any other type maps to `Unknown` |
| Strip.Ws2801.constructor | app.js:15-39 | buffer of `ledCount` blacks, one black frame of the 32 hardware LEDs shown, not connected |
| Strip.Ws2801.FadeTo | app.js:157-182 | commits exactly the frames of `FadeFrames(old buffer, to, steps)`; buffer becomes `to` (not the last frame); nothing else changes |
| Strip.Ws2801.SetGradient | app.js:87-98 | fades to the as-written gradient of `ledCount` when it is at least as long as the current buffer; otherwise fails with no frame and no state change |
| Strip.Ws2801.ParseWSData | app.js:68-85 | `fill` fades to 32 copies of `value`, and fails when the buffer is longer than 32; `rainbow` uses the 8 default stops; `gradient` and a `fill` without value fail; unknown types only log; no fade means no state change |
| Strip.Ws2801.ServerFound | app.js:47-50 | sets `isConnected` and opens the WebSocket client to the argument; buffer and frames unchanged |
| Strip.Ws2801.Deliver | broadcastConnector.js:47-50 | a datagram calls the registered callback with its payload; for the app's callback the WebSocket address is the payload |
| Strip.Ws2801.DiscoveryLoop | app.js:55-60 | alternates fades of all 32 LEDs to `[0,100,255]` and black until connected; ends with 32 blacks, with frames `IdleFrames(old buffer, 32, rounds)`; does nothing when already connected |
| Strip.Ws2801.DiscoverServer | app.js:43-53 | the first broadcast uses the default delay; the interval becomes 5000 and the callback is registered; the idle loop then runs until connected, and leaves the strip unchanged when it already was |
| Strip.DefaultRainbowGradientIsShort | app.js:79 | as written, the `rainbow` gradient has 29 pixels on the 32-LED strip |
| Strip.DefaultRainbowBytes | app.js:7 | all eight default rainbow stops are valid hardware colours |
| Strip.DefaultRainbowFullGradient | app.js:79 | the corrected `rainbow` gradient has 32 valid hardware colours |
| Strip.TwoStopGradientExample | app.js:89-95 | stops `[247,149,51]` and `[16,152,173]` over 4 LEDs give 4 colours starting and ending at the stops |
| Discovery.Delay | broadcastConnector.js:58 | `interval || 5000`: an unset or zero interval gives 5000, any other gives itself |
| Discovery.SearchingTicks | broadcastConnector.js:52-58 | never more announcements than events |
| Discovery.BroadcastConnector.constructor | broadcastConnector.js:9-32 | do-nothing callback, no interval, flag clear, one announcement sent and one tick scheduled with the default delay |
| Discovery.BroadcastConnector.Restart | broadcastConnector.js:34-37 | clears the flag and performs one tick at once |
| Discovery.BroadcastConnector.SetInterval | broadcastConnector.js:39-41 | only stores the interval |
| Discovery.BroadcastConnector.OnServerFound | broadcastConnector.js:43-45 | only replaces the callback |
| Discovery.BroadcastConnector.OnMessage | broadcastConnector.js:47-50 | any datagram sets the flag and calls the callback with the payload, even when already found |
| Discovery.BroadcastConnector.DiscoveryLoop | broadcastConnector.js:52-59 | does nothing once found; otherwise sends one announcement and schedules the next tick after `interval || 5000` |
| Discovery.BroadcastConnector.Handle | broadcastConnector.js:22-59 | a timer expiry sends and schedules one tick only while the flag is clear; a datagram sets the flag and calls the callback once |
| Discovery.BroadcastConnector.Discover | broadcastConnector.js:62-67 | sends `{"type":"ui"}` to 192.168.0.255:5000 |
| Discovery.BroadcastConnector.RunEvents | broadcastConnector.js:22-59 | over any sequence of timer expiries and datagrams: flag, announcements, delays and callback invocations are those of `FoundAfter`, `SearchingTicks` and `Invocations` |
| Discovery.FoundStaysSilent | broadcastConnector.js:52-53 | once found, no expiry sends anything |
| Discovery.SilenceKeepsSearching | broadcastConnector.js:52-58 | with no datagram the flag stays clear and every expiry sends one announcement |
| Discovery.NothingSentAfterDatagram | broadcastConnector.js:47-58 | after the first datagram no further announcement is sent |
| Discovery.InvocationsAppend | broadcastConnector.js:47-50 | every datagram adds one callback invocation carrying its payload, wherever it falls |
| Discovery.InvocationsConcat | broadcastConnector.js:47-50 | the callback invocations of two runs of events back to back are those of each run, in order |
| Discovery.EventStep | broadcastConnector.js:22-59 | one more event updates the flag, the announcement count and the invocations exactly as handling it does |

## Left out

- The SPI and WS2801 bindings (app.js:19-37) are not modelled beyond the frame log. `setLight` is the pixel appended to the frame being built, and `show()` appends that frame to `frames`.
- Strip.Ws2801.FadeTo: each logged frame holds the `|values|` pixels set in that step, not the hardware's whole 32-pixel buffer. The two are the same whenever the buffer has `ledCount` = 32 entries.
- The 100 ms pause between frames and the `setTimeout` waits are not modelled. The timer log records the delay requested, not any wait.
- Interleaving of fades is not modelled. In the source, the idle loop and server commands can run `_fadeTo` calls concurrently with no cancellation. Each fade here is one atomic method call. The source has no cancellation.
- Strip.Ws2801.DiscoveryLoop: the first datagram is a parameter: the iteration during which it arrives, with its payload. Timer ticks of the connector during the loop are not interleaved; `RunEvents` covers those.
- Strip.Ws2801.DiscoveryLoop: requires a buffer of at most 32 pixels. On a longer buffer the source's first fade to 32 pixels throws and ends the loop; that path is not modelled. The only strip app.js:10 builds has 32 LEDs, so the buffer never exceeds 32.
- Strip.Ws2801.DiscoverServer: requires a buffer of at most 32 pixels, for the same reason.
- Timer expiries are not tied to pending timers: an `Event` sequence may hold any number of `TimerFired`. So the model cannot show that `restart()` called while still searching (broadcastConnector.js:34-37, 58) leaves the earlier `setTimeout` chain alive, doubling the announcements.
- Strip.Ws2801.DiscoverServer is a separate method. The constructor's call to `_discoverServer` (app.js:40) is not made from the Dafny constructor, because the idle loop needs the arrival parameter.
- The WebSocket client (app.js:62-66) is only a log of addresses. `JSON.parse` is replaced by the parsed `Message` datatype.
- JavaScript TypeErrors become an explicit `Failed` outcome, with no frame and no state change:
  - the `gradient` branch passes the raw message text, so `data.stops` is undefined;
  - `fill` without `value`;
  - a fade target shorter than the buffer.
  `FadeTo` itself requires `|to| >= |values|`.
- A hardware write failure is not modelled: the source has no handling for it.
- Interpolation.Linspace: counts are integers. A fractional count, which makes `Array(count)` throw, is not modelled.
- Rainbow.Rainbow: requires 0 <= `ledCount` <= 256. For more LEDs the step is 0, and for a negative count it is negative; the source's loop never ends in both cases. For 0 LEDs the JavaScript step is `Infinity`; it is modelled as 256, which also yields one colour.
- IEEE-754 rounding of the spacing arithmetic is not modelled (exact reals), and neither is `Math.round`'s negative zero.
- The socket's `bind`, `listening` and `setBroadcast` handling (broadcastConnector.js:14-20) is not modelled, and neither is the send-error `throw` (broadcastConnector.js:65).
- rest.js is not part of this model: it is HTTP plumbing with no colour or discovery logic.

## Findings

| source | as written | input that shows it | evidently intended | confidence | as-written member | corrected member |
|---|---|---|---|---|---|---|
| app.js:89-94 | when `ledCount / (stops - 1)` is inexact, only one extra pixel goes to the last segment | the 8 `defaultRainbow` stops over 32 LEDs give 7 segments of 4 pixels plus 1, so 29 pixels; `_fadeTo` then reads `to[29]`, which is undefined, and throws, so the `rainbow` command never shows anything | the last segment absorbs the whole remainder, so the gradient has `ledCount` pixels | not executed | Strip.DefaultRainbowGradientIsShort | Gradients.FullGradientLength |

The dispatcher (`Ws2801.ParseWSData`, `Ws2801.SetGradient`) keeps the code's behaviour. It uses the as-written `Gradient`, so its `rainbow` case fails. `FullGradient`, `FullGradientLength`, `FullGradientBytes` and `DefaultRainbowFullGradient` state the corrected behaviour.
