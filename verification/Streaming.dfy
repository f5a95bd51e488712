/** Starting the streams of all devices, with rollback. Every device records what it was asked and how
    it answered. */
module Streaming {

  datatype Request = Reset | Start(stream: nat) | Stop(stream: nat) | Enable | Disable

  datatype Answer = Answer(request: Request, ok: bool)

  /** A device: which streams run, whether streaming is enabled, and everything it was asked so far. */
  datatype View = View(started: seq<bool>, enabled: bool, log: seq<Answer>)

  /** Later views of a device have longer records. */
  predicate Follows(was: View, now: View) {
    was.log <= now.log && |was.started| == |now.started|
  }

  function Since(was: View, now: View): (news: seq<Answer>)
    requires Follows(was, now)
  {
    now.log[|was.log|..]
  }

  lemma SinceIs(was: View, now: View, news: seq<Answer>)
    requires now.log == was.log + news && |was.started| == |now.started|
    ensures Follows(was, now) && Since(was, now) == news
  {}

  // ---- what can become of a device ----

  /** Every stream was asked to stop, in order; exactly those still run that ran before and refused. */
  predicate Stops(stops: seq<Answer>, was: seq<bool>, now: seq<bool>) {
    && |stops| == |was| == |now|
    && forall j :: 0 <= j < |stops| ==> stops[j].request == Stop(j) && now[j] == (was[j] && !stops[j].ok)
  }

  /** It was asked to disable streaming and to stop every stream. */
  predicate Stopping(was: View, now: View) {
    && Follows(was, now) && Since(was, now) != []
    && var disable, stops := Since(was, now)[0], Since(was, now)[1..];
       && disable.request == Disable && now.enabled == (was.enabled && !disable.ok)
       && Stops(stops, was.started, now.started)
  }

  /** The first streams were started, in order. */
  predicate Starts(starts: seq<Answer>) {
    forall j :: 0 <= j < |starts| ==> starts[j] == Answer(Start(j), true)
  }

  predicate AllRun(started: seq<bool>) {
    forall j :: 0 <= j < |started| ==> started[j]
  }

  /** It was reset and started every stream, in order, and was asked to enable streaming. */
  predicate Starting(was: View, now: View) {
    && Follows(was, now) && |Since(was, now)| == |was.started| + 2
    && var news, n := Since(was, now), |was.started|;
       && news[0] == Answer(Reset, true) && Starts(news[1..n + 1]) && AllRun(now.started)
       && news[n + 1].request == Enable && now.enabled == (was.enabled || news[n + 1].ok)
  }

  /** The same, and streaming was enabled. */
  predicate StartedUp(was: View, now: View) {
    Starting(was, now) && Since(was, now)[|was.started| + 1].ok
  }

  /** It refused to be enabled: all streams run and nobody stops them. */
  predicate NotEnabled(was: View, now: View) {
    Starting(was, now) && !Since(was, now)[|was.started| + 1].ok
  }

  predicate NotReset(was: View, now: View) {
    now == was.(log := was.log + [Answer(Reset, false)])
  }

  /** The first f streams were asked to stop, last first; exactly those of them run that refused, and
      the other streams are as they were. */
  predicate StopsBack(stops: seq<Answer>, f: nat, was: seq<bool>, now: seq<bool>) {
    && |stops| == f <= |was| == |now|
    && (forall i :: 0 <= i < f ==> stops[i].request == Stop(f - 1 - i) && now[f - 1 - i] == !stops[i].ok)
    && (forall j :: f <= j < |was| ==> now[j] == was[j])
  }

  /** Stream f refused to start and the streams before it were asked to stop. */
  predicate RolledBack(was: View, now: View, f: nat) {
    && Follows(was, now) && f < |was.started| && now.enabled == was.enabled && |Since(was, now)| == 2 + 2 * f
    && var news := Since(was, now);
       && news[0] == Answer(Reset, true) && Starts(news[1..1 + f]) && news[1 + f] == Answer(Start(f), false)
       && StopsBack(news[2 + f..], f, was.started, now.started)
  }

  ghost predicate NotStarted(was: View, now: View) {
    NotReset(was, now) || NotEnabled(was, now) || exists f: nat :: RolledBack(was, now, f)
  }

  /** It started up and was stopped again. */
  ghost predicate Undone(was: View, now: View) {
    exists up: View :: StartedUp(was, up) && Stopping(up, now)
  }

  // ---- all or nothing ----

  /** No stop or disable request, and no enable request, was refused since. */
  predicate Obliging(was: View, now: View) {
    Follows(was, now) && forall a :: a in Since(was, now) && !a.ok ==> a.request.Reset? || a.request.Start?
  }

  /** No stream runs that did not run before, and streaming is not enabled unless it was. */
  predicate NothingNew(was: View, now: View) {
    && |now.started| == |was.started| && (now.enabled ==> was.enabled)
    && forall j :: 0 <= j < |was.started| && now.started[j] ==> was.started[j]
  }

  lemma NotStartedLeavesNothing(was: View, now: View)
    requires NotStarted(was, now) && Obliging(was, now)
    ensures NothingNew(was, now)
  {
    var news := Since(was, now);
    if f: nat :| RolledBack(was, now, f) {
      var stops := news[2 + f..];
      forall j | 0 <= j < f ensures !now.started[j] {
        assert stops[f - 1 - j] in news && stops[f - 1 - j].request == Stop(j);
      }
    }
  }

  lemma SinceLater(was: View, up: View, now: View)
    requires Follows(was, up) && Follows(up, now)
    ensures Follows(was, now) && forall a :: a in Since(up, now) ==> a in Since(was, now)
  {
    var news := Since(up, now);
    assert Since(was, now) == Since(was, up) + news;
  }

  lemma UndoneLeavesNothing(was: View, now: View)
    requires Undone(was, now) && Obliging(was, now)
    ensures NothingNew(was, now)
  {
    hide Starts, AllRun;
    var up: View :| StartedUp(was, up) && Stopping(up, now);
    SinceLater(was, up, now);
    hide Since, StartedUp;
    StoppedAll(up, now);
  }

  /** A device that obliges stops everything. */
  lemma StoppedAll(up: View, now: View)
    requires Stopping(up, now) && Obliging(up, now)
    ensures !now.enabled && forall j :: 0 <= j < |now.started| ==> !now.started[j]
  {
    var news := Since(up, now);
    assert news[0] in news;
    var stops := news[1..];
    forall j | 0 <= j < |stops| ensures !now.started[j] { assert stops[j] in news; }
  }

  class FFADODevice {
    var started: seq<bool>
    var enabled: bool
    ghost var log: seq<Answer>

    constructor (streams: nat)
      ensures Now() == View(seq(streams, _ => false), false, [])
    {
      started, enabled, log := seq(streams, _ => false), false, [];
    }

    ghost function Now(): (v: View)
      reads this
    {
      View(started, enabled, log)
    }

    method ResetForStreaming() returns (ok: bool)
      modifies this`log
      ensures log == old(log) + [Answer(Reset, ok)]
    {
      ok := *;
      log := log + [Answer(Reset, ok)];
    }

    method StartStreamByIndex(j: nat) returns (ok: bool)
      requires j < |started|
      modifies this`started, this`log
      ensures started == if ok then old(started)[j := true] else old(started)
      ensures log == old(log) + [Answer(Start(j), ok)]
    {
      ok := *;
      log := log + [Answer(Start(j), ok)];
      if ok { started := started[j := true]; }
    }

    method StopStreamByIndex(j: nat) returns (ok: bool)
      requires j < |started|
      modifies this`started, this`log
      ensures started == if ok then old(started)[j := false] else old(started)
      ensures log == old(log) + [Answer(Stop(j), ok)]
    {
      ok := *;
      log := log + [Answer(Stop(j), ok)];
      if ok { started := started[j := false]; }
    }

    method EnableStreaming() returns (ok: bool)
      modifies this`enabled, this`log
      ensures enabled == (ok || old(enabled)) && log == old(log) + [Answer(Enable, ok)]
    {
      ok := *;
      log := log + [Answer(Enable, ok)];
      if ok { enabled := true; }
    }

    method DisableStreaming() returns (ok: bool)
      modifies this`enabled, this`log
      ensures enabled == (!ok && old(enabled)) && log == old(log) + [Answer(Disable, ok)]
    {
      ok := *;
      log := log + [Answer(Disable, ok)];
      if ok { enabled := false; }
    }
  }

  /** Starts everything or takes back what it started, except that a refused enable leaves the streams
      running. */
  method StartStreamingOnDevice(device: FFADODevice) returns (ok: bool)
    modifies device
    ensures ok <==> StartedUp(old(device.Now()), device.Now())
    ensures !ok ==> NotStarted(old(device.Now()), device.Now())
  {
    hide Since, Follows;
    ghost var was := device.Now();
    var reset := device.ResetForStreaming();
    if !reset {
      SinceIs(was, device.Now(), [Answer(Reset, false)]);
      return false;
    }
    var j, n, allStreamsStarted := 0, |device.started|, true;
    ghost var starts: seq<Answer> := [];
    while j < n
      invariant 0 <= j <= n == |device.started| == |was.started| && device.enabled == was.enabled && allStreamsStarted
      invariant device.log == was.log + [Answer(Reset, true)] + starts && |starts| == j && Starts(starts)
      invariant forall k :: 0 <= k < n ==> device.started[k] == (k < j || was.started[k])
    {
      var up := device.StartStreamByIndex(j);
      if !up { allStreamsStarted := false; break; }
      starts := starts + [Answer(Start(j), true)];
      j := j + 1;
    }
    if !allStreamsStarted {
      RollBack(device, j, was, starts);
      return false;
    }
    ok := device.EnableStreaming();
    ghost var news := [Answer(Reset, true)] + starts + [Answer(Enable, ok)];
    SinceIs(was, device.Now(), news);
    assert news[1..n + 1] == starts;
  }

  /** Stops the streams before the one that refused to start, going on after a refusal. */
  method RollBack(device: FFADODevice, f: nat, ghost was: View, ghost starts: seq<Answer>)
    requires f < |device.started| == |was.started| && device.enabled == was.enabled && |starts| == f && Starts(starts)
    requires device.log == was.log + [Answer(Reset, true)] + starts + [Answer(Start(f), false)]
    requires forall k :: 0 <= k < |was.started| ==> device.started[k] == (k < f || was.started[k])
    modifies device
    ensures RolledBack(was, device.Now(), f)
  {
    hide Starts, Since, Follows;
    var j := f - 1;
    ghost var front, stops: seq<Answer> := device.log, [];
    while j >= 0
      invariant -1 <= j < f && |device.started| == |was.started| && device.enabled == was.enabled
      invariant device.log == front + stops && |stops| == f - 1 - j
      invariant forall k :: 0 <= k <= j ==> device.started[k]
      invariant forall i :: 0 <= i < |stops| ==>
        stops[i].request == Stop(f - 1 - i) && device.started[f - 1 - i] == !stops[i].ok
      invariant forall k :: f <= k < |was.started| ==> device.started[k] == was.started[k]
    {
      var down := device.StopStreamByIndex(j);
      stops := stops + [Answer(Stop(j), down)];
      j := j - 1;
    }
    ghost var news := [Answer(Reset, true)] + starts + [Answer(Start(f), false)] + stops;
    SinceIs(was, device.Now(), news);
    assert news[1..1 + f] == starts && news[2 + f..] == stops;
  }

  /** Asks for everything to be stopped, going on after a refusal; true exactly if no stop was refused. */
  method StopStreamingOnDevice(device: FFADODevice) returns (result: bool)
    modifies device
    ensures Stopping(old(device.Now()), device.Now())
    ensures result <==> forall a :: a in Since(old(device.Now()), device.Now()) && a.request.Stop? ==> a.ok
  {
    hide Since, Follows;
    ghost var was := device.Now();
    result := true;
    var disabled := device.DisableStreaming();
    ghost var front, stops: seq<Answer> := device.log, [];
    for j := 0 to |device.started|
      invariant |device.started| == |was.started| && device.enabled == (was.enabled && !disabled)
      invariant device.log == front + stops && |stops| == j
      invariant forall k :: 0 <= k < j ==>
        stops[k].request == Stop(k) && device.started[k] == (was.started[k] && !stops[k].ok)
      invariant forall k :: j <= k < |was.started| ==> device.started[k] == was.started[k]
      invariant result <==> forall a :: a in stops ==> a.ok
    {
      var down := device.StopStreamByIndex(j);
      stops := stops + [Answer(Stop(j), down)];
      if !down { result := false; }
    }
    ghost var news := [Answer(Disable, disabled)] + stops;
    SinceIs(was, device.Now(), news);
    assert news[1..] == stops;
  }

  class DeviceManager {
    const avDevices: seq<FFADODevice>

    constructor (devices: seq<FFADODevice>)
      requires forall i, j :: 0 <= i < j < |devices| ==> devices[i] != devices[j]
      ensures Valid() && avDevices == devices
    {
      avDevices := devices;
    }

    ghost predicate Valid() {
      forall i, j :: 0 <= i < j < |avDevices| ==> avDevices[i] != avDevices[j]
    }

    method StopFirst(n: nat)
      requires Valid() && n <= |avDevices|
      modifies avDevices[..n]
      ensures forall i :: 0 <= i < n ==> Stopping(old(avDevices[i].Now()), avDevices[i].Now())
    {
      hide Stopping;
      for k := 0 to n
        invariant forall i :: 0 <= i < k ==> Stopping(old(avDevices[i].Now()), avDevices[i].Now())
        invariant forall i :: k <= i < n ==> avDevices[i].Now() == old(avDevices[i].Now())
      {
        var _ := StopStreamingOnDevice(avDevices[k]);
      }
    }

    /** All or nothing. failed is the device that did not start, if any. True: every device started up.
        False: the devices before the failed one, or all if it was the stream processors that did not
        start, were stopped again, and those behind it left alone. So nothing runs and nothing is
        enabled that was not before, on every device that did not refuse to be enabled, disabled or
        stopped. */
    method StartStreaming(processorsStart: bool) returns (ok: bool, ghost failed: nat)
      requires Valid()
      modifies avDevices
      ensures failed <= |avDevices| && (ok <==> failed == |avDevices| && processorsStart)
      ensures ok ==> forall i :: 0 <= i < |avDevices| ==> StartedUp(old(avDevices[i].Now()), avDevices[i].Now())
      ensures !ok ==> forall i :: 0 <= i < failed ==> Undone(old(avDevices[i].Now()), avDevices[i].Now())
      ensures failed < |avDevices| ==> NotStarted(old(avDevices[failed].Now()), avDevices[failed].Now())
      ensures forall i :: failed < i < |avDevices| ==> avDevices[i].Now() == old(avDevices[i].Now())
      ensures !ok ==> forall i :: 0 <= i < |avDevices| && Obliging(old(avDevices[i].Now()), avDevices[i].Now()) ==>
        NothingNew(old(avDevices[i].Now()), avDevices[i].Now())
    {
      hide Stopping, StartedUp, NotStarted, Obliging;
      var it := 0;
      while it < |avDevices|
        invariant 0 <= it <= |avDevices|
        invariant forall i :: 0 <= i < it ==> StartedUp(old(avDevices[i].Now()), avDevices[i].Now())
        invariant forall i :: it <= i < |avDevices| ==> avDevices[i].Now() == old(avDevices[i].Now())
      {
        var up := StartStreamingOnDevice(avDevices[it]);
        if !up { break; }
        it := it + 1;
      }
      failed := it;
      if it == |avDevices| && processorsStart { return true, failed; }
      StopFirst(it);
      forall i | 0 <= i < |avDevices| && Obliging(old(avDevices[i].Now()), avDevices[i].Now())
        ensures NothingNew(old(avDevices[i].Now()), avDevices[i].Now())
      {
        if i < it {
          UndoneLeavesNothing(old(avDevices[i].Now()), avDevices[i].Now());
        } else if i == it {
          NotStartedLeavesNothing(old(avDevices[i].Now()), avDevices[i].Now());
        }
      }
      return false, failed;
    }

    /** Asks every device to stop everything, but reports success whatever happened. */
    method StopStreaming() returns (result: bool)
      requires Valid()
      modifies avDevices
      ensures result
      ensures forall i :: 0 <= i < |avDevices| ==> Stopping(old(avDevices[i].Now()), avDevices[i].Now())
    {
      hide Stopping;
      StopFirst(|avDevices|);
      assert avDevices[..|avDevices|] == avDevices;
      return true;
    }
  }
}
