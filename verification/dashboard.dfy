/** The dashboard's live-event reducer: each push frame is normalised into an
    event (only for the `'create'` action), the event is prepended to a
    newest-first buffer of at most 200 events, and the running statistics are
    updated. Next to it sits the three-state connection status and the logout
    handler.

    Each frame is one atomic step of the whole state (the source issues two
    state updates, which the framework renders together). The locale
    formatting of the last event's time is a parameter, `localeTime`.
 */
module Dashboard {
  import opened Prelude
  import opened Types
  import opened Session

  /** The buffer keeps at most this many events. */
  const Capacity: nat := 200

  datatype Status = Disconnected | Connected | Errored

  datatype Stats = Stats(total: nat, maxMagnitude: real, lastEventTime: string)

  datatype State = State(status: Status, events: seq<Event>, stats: Stats)

  const InitialStats: Stats := Stats(0, 0.0, "")

  const Initial: State := State(Disconnected, [], InitialStats)

  /** The transport callbacks `onopen`, `onclose` and `onerror`. */
  datatype Signal = Open | Close | Error

  /** Everything the transport delivers: a lifecycle signal or a text frame
      (already through `JSON.parse`). */
  datatype Input = Transport(signal: Signal) | Frame(parsed: Parsed)

  /** What the message handler makes of one frame: an event, a frame that is
      silently ignored (another action), or one whose handling throws and is
      caught and logged (unparseable, or a `'create'` without `data` or
      `properties`). */
  datatype Normalized = Created(event: Event) | Ignored | Malformed

  function Normalize(p: Parsed): (r: Normalized)
    ensures r.Created? <==> p.ParseOk? && p.msg.action == "create"
                            && p.msg.data.Some? && p.msg.data.value.properties.Some?
    ensures r.Ignored? <==> p.ParseOk? && p.msg.action != "create"
    ensures r.Created? ==>
      var d := p.msg.data.value;
      var props := d.properties.value;
      && r.event.id == d.id
      && r.event.time == props.time
      && r.event.lat == props.lat
      && r.event.lon == props.lon
      && r.event.depth == props.depth
      && r.event.mag == props.mag
      && r.event.magtype == props.magtype
      && r.event.region == props.flynnRegion
      && r.event.auth == props.auth
  {
    match p
    case ParseFail => Malformed
    case ParseOk(msg) =>
      if msg.action != "create" then Ignored
      else
        match msg.data
        case None => Malformed
        case Some(d) =>
          match d.properties
          case None => Malformed
          case Some(props) =>
            Created(Event(d.id, props.time, props.lat, props.lon, props.depth,
                          props.mag, props.magtype, props.flynnRegion, props.auth))
  }

  /** `[newEvent, ...prevEvents].slice(0, 200)`. */
  function Push(buffer: seq<Event>, e: Event): (r: seq<Event>)
    ensures |r| == Min(|buffer| + 1, Capacity)
    ensures r[0] == e
    ensures forall i :: 0 <= i < |r| - 1 ==> r[i + 1] == buffer[i]
  {
    Slice([e] + buffer, 0, Capacity)
  }

  /** A full buffer loses exactly its oldest (last) event. */
  lemma PushFullDropsOldest(buffer: seq<Event>, e: Event)
    requires |buffer| == Capacity
    ensures Push(buffer, e) == [e] + buffer[..Capacity - 1]
    ensures Push(buffer, e)[1..] + [buffer[Capacity - 1]] == buffer
  {
    var r := Push(buffer, e);
    assert r == [e] + buffer[..Capacity - 1];
    assert buffer[..Capacity - 1] + [buffer[Capacity - 1]] == buffer;
  }

  /** The running statistics after one accepted event. */
  function UpdateStats(s: Stats, e: Event, localeTime: string -> string): (r: Stats)
    ensures r.total == s.total + 1
    ensures r.maxMagnitude >= s.maxMagnitude && r.maxMagnitude >= e.mag
    ensures r.maxMagnitude == s.maxMagnitude || r.maxMagnitude == e.mag
    ensures r.lastEventTime == localeTime(e.time)
  {
    Stats(s.total + 1,
          if s.maxMagnitude >= e.mag then s.maxMagnitude else e.mag,
          localeTime(e.time))
  }

  /** `sock.onmessage`: a created event enters the buffer and the statistics
      together; anything else leaves the state as it was. */
  function OnFrame(st: State, p: Parsed, localeTime: string -> string): (r: State)
    ensures r.status == st.status
    ensures !Normalize(p).Created? ==> r == st
    ensures Normalize(p).Created? ==>
      && r.events == Push(st.events, Normalize(p).event)
      && r.stats == UpdateStats(st.stats, Normalize(p).event, localeTime)
  {
    match Normalize(p)
    case Created(e) => st.(events := Push(st.events, e), stats := UpdateStats(st.stats, e, localeTime))
    case _ => st
  }

  /** `sock.onopen`, `sock.onclose`, `sock.onerror`: each moves the status from
      any state, and none touches the events or the statistics. */
  function OnSignal(st: State, sig: Signal): (r: State)
    ensures r.events == st.events && r.stats == st.stats
    ensures sig == Open <==> r.status == Connected
    ensures sig == Close <==> r.status == Disconnected
    ensures sig == Error <==> r.status == Errored
  {
    match sig
    case Open => st.(status := Connected)
    case Close => st.(status := Disconnected)
    case Error => st.(status := Errored)
  }

  function Step(st: State, input: Input, localeTime: string -> string): State {
    match input
    case Transport(sig) => OnSignal(st, sig)
    case Frame(p) => OnFrame(st, p, localeTime)
  }

  /** What holds of every state the dashboard reaches from its initial state. */
  predicate Invariant(st: State) {
    && |st.events| <= Capacity
    && |st.events| <= st.stats.total
    && 0.0 <= st.stats.maxMagnitude
    && forall i :: 0 <= i < |st.events| ==> st.events[i].mag <= st.stats.maxMagnitude
  }

  lemma InitialInvariant()
    ensures Invariant(Initial)
    ensures Initial.status == Disconnected && Initial.events == [] && Initial.stats.total == 0
  {
  }

  /** Every step keeps the invariant, and neither counter ever decreases. */
  lemma StepPreservesInvariant(st: State, input: Input, localeTime: string -> string)
    requires Invariant(st)
    ensures Invariant(Step(st, input, localeTime))
    ensures Step(st, input, localeTime).stats.total >= st.stats.total
    ensures Step(st, input, localeTime).stats.maxMagnitude >= st.stats.maxMagnitude
  {
    var r := Step(st, input, localeTime);
    if input.Frame? && Normalize(input.parsed).Created? {
      var e := Normalize(input.parsed).event;
      forall i | 0 <= i < |r.events|
        ensures r.events[i].mag <= r.stats.maxMagnitude
      {
        if i > 0 {
          assert r.events[i] == st.events[i - 1];
        }
      }
    }
  }

  /** The state after a sequence of inputs, from the initial state. */
  function Run(inputs: seq<Input>, localeTime: string -> string): State {
    if |inputs| == 0 then Initial
    else Step(Run(inputs[..|inputs| - 1], localeTime), inputs[|inputs| - 1], localeTime)
  }

  /** Every reachable state satisfies the invariant. */
  lemma {:induction false} RunKeepsInvariant(inputs: seq<Input>, localeTime: string -> string)
    ensures Invariant(Run(inputs, localeTime))
  {
    if |inputs| > 0 {
      RunKeepsInvariant(inputs[..|inputs| - 1], localeTime);
      StepPreservesInvariant(Run(inputs[..|inputs| - 1], localeTime), inputs[|inputs| - 1], localeTime);
    }
  }

  /** The events the inputs create, in arrival order. */
  function Accepted(inputs: seq<Input>): seq<Event> {
    if |inputs| == 0 then []
    else
      var prior := Accepted(inputs[..|inputs| - 1]);
      match inputs[|inputs| - 1]
      case Frame(p) => if Normalize(p).Created? then prior + [Normalize(p).event] else prior
      case Transport(_) => prior
  }

  /** The events of `acc`, most recent first. */
  function NewestFirst(acc: seq<Event>): (r: seq<Event>)
    ensures |r| == |acc|
    ensures forall i :: 0 <= i < |acc| ==> r[i] == acc[|acc| - 1 - i]
  {
    if |acc| == 0 then [] else [acc[|acc| - 1]] + NewestFirst(acc[..|acc| - 1])
  }

  /** The most recent `Capacity` events of `acc`, most recent first. */
  function Window(acc: seq<Event>): seq<Event> {
    NewestFirst(acc)[..Min(|acc|, Capacity)]
  }

  /** Pushing onto the window of a history gives the window of the longer history. */
  lemma PushExtendsWindow(acc: seq<Event>, e: Event)
    ensures Push(Window(acc), e) == Window(acc + [e])
  {
    var l := Push(Window(acc), e);
    var w := Window(acc + [e]);
    assert |l| == |w|;
    forall i | 0 <= i < |l|
      ensures l[i] == w[i]
    {
      if i > 0 {
        assert l[i] == Window(acc)[i - 1];
      }
    }
  }

  /** The stored maximum magnitude is the largest of 0 and the magnitudes of
      all accepted events. */
  ghost predicate IsMaxMagnitude(m: real, acc: seq<Event>) {
    && 0.0 <= m
    && (forall i :: 0 <= i < |acc| ==> acc[i].mag <= m)
    && (m == 0.0 || exists i :: 0 <= i < |acc| && acc[i].mag == m)
  }

  /** The state after any run is determined by the accepted events: the buffer
      is their newest-first window, the total counts all of them (it is not
      cut at the capacity), the maximum is their largest magnitude, and the
      last-event time is that of the latest one. */
  lemma {:induction false} RunReflectsHistory(inputs: seq<Input>, localeTime: string -> string)
    ensures Run(inputs, localeTime).events == Window(Accepted(inputs))
    ensures Run(inputs, localeTime).stats.total == |Accepted(inputs)|
    ensures |Run(inputs, localeTime).events| == Min(Run(inputs, localeTime).stats.total, Capacity)
    ensures IsMaxMagnitude(Run(inputs, localeTime).stats.maxMagnitude, Accepted(inputs))
    ensures Run(inputs, localeTime).stats.lastEventTime ==
              if |Accepted(inputs)| == 0 then "" else localeTime(Accepted(inputs)[|Accepted(inputs)| - 1].time)
  {
    if |inputs| > 0 {
      var prefix := inputs[..|inputs| - 1];
      RunReflectsHistory(prefix, localeTime);
      var prev := Run(prefix, localeTime);
      var acc := Accepted(prefix);
      var input := inputs[|inputs| - 1];
      if input.Frame? && Normalize(input.parsed).Created? {
        var e := Normalize(input.parsed).event;
        assert Accepted(inputs) == acc + [e];
        PushExtendsWindow(acc, e);
        var m := Run(inputs, localeTime).stats.maxMagnitude;
        assert forall i :: 0 <= i < |acc| ==> (acc + [e])[i] == acc[i];
        if m != 0.0 {
          if m == e.mag {
            assert (acc + [e])[|acc|].mag == m;
          } else {
            assert m == prev.stats.maxMagnitude;
            var i :| 0 <= i < |acc| && acc[i].mag == m;
            assert (acc + [e])[i].mag == m;
          }
        }
      }
    }
  }

  /** `handleLogout`: store `'false'` and go to the login page. */
  datatype Logout = Logout(flag: Flag, navigate: Path)

  function HandleLogout(flag: Flag): (r: Logout)
    ensures r.flag == Stored("false") && r.navigate == LoginRoute
  {
    Logout(Stored("false"), LoginRoute)
  }
}
