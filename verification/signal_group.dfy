/** The per (device, signal group) state machine that turns polled status
    codes into "red, green, red again" cycle events. Timestamps are opaque
    values of type `T`: the machine only stores and forwards them. */
module SignalGroups {
  import opened Wrappers
  import opened LightStatus

  /** One tracked signal group. `redStart` and `greenStart` are the starts of
      the current red and green phases, when known. */
  datatype Group<T> = Group(
    device: string,
    name: string,
    status: Status,
    redStart: Option<T>,
    greenStart: Option<T>)

  /** A completed cycle: when red started, when green started, and when red
      started again. The red start is optional because the record is built
      from the fields as they are; `EventHasRedStart` shows it is always
      present for a group reachable from `Create`. */
  datatype Event<T> = Event(
    device: string,
    name: string,
    redStart: Option<T>,
    greenStart: T,
    end: T)

  /** The invariant linking the status to the two phase starts. */
  predicate Valid<T>(g: Group<T>) {
    && (g.greenStart.Some? ==> g.status == Green && g.redStart.Some?)
    && (g.status == Red ==> g.redStart.Some?)
    && (g.status == Other ==> g.redStart.None? && g.greenStart.None?)
  }

  /** First sighting of a signal group: the status is decoded, a red group
      starts its red phase at `timestamp`, nothing else is known yet. */
  function Create<T>(device: string, name: string, timestamp: T, code: string)
    : (r: Result<Group<T>, DecodeError>)
    ensures r.Failure? <==> Decode(code).Failure?
    ensures r.Success? ==>
      && r.value.device == device && r.value.name == name
      && r.value.status == Decode(code).value
      && (r.value.redStart == Some(timestamp) <==> r.value.status == Red)
      && (r.value.status != Red ==> r.value.redStart.None?)
      && r.value.greenStart.None?
      && Valid(r.value)
  {
    match Decode(code)
    case Failure(e) => Failure(e)
    case Success(status) =>
      Success(Group(device, name, status,
                    if status == Red then Some(timestamp) else None, None))
  }

  /** One observation of the group. An invalid code fails before anything
      changes; an unchanged status changes nothing; otherwise the group
      moves to the new status and, on green to red, reports the cycle. */
  function Update<T>(g: Group<T>, timestamp: T, code: string)
    : (r: Result<(Group<T>, Option<Event<T>>), DecodeError>)
    ensures r.Failure? <==> Decode(code).Failure?
    ensures r.Success? ==>
      var (g', ev) := r.value;
      && g'.device == g.device && g'.name == g.name
      && g'.status == Decode(code).value
      && (g'.status == g.status ==> g' == g && ev.None?)
      && (ev.Some? <==> g.status != Red && g'.status == Red && g.greenStart.Some?)
      && (ev.Some? ==> ev.value == Event(g.device, g.name, g.redStart, g.greenStart.value, timestamp))
    ensures r.Success? && Valid(g) ==> Valid(r.value.0)
    ensures r.Success? && Valid(g) && r.value.1.Some? ==> r.value.1.value.redStart.Some?
  {
    match Decode(code)
    case Failure(e) => Failure(e)
    case Success(status) =>
      if status == g.status then
        Success((g, None))
      else
        match status
        case Other =>
          Success((g.(status := Other, redStart := None, greenStart := None), None))
        case Green =>
          var green := if g.redStart.Some? then Some(timestamp) else g.greenStart;
          Success((g.(status := Green, greenStart := green), None))
        case Red =>
          var ev := if g.greenStart.Some?
                    then Some(Event(g.device, g.name, g.redStart, g.greenStart.value, timestamp))
                    else None;
          Success((g.(status := Red, redStart := Some(timestamp), greenStart := None), ev))
  }

  /** A change to other forgets the cycle in progress. */
  lemma ChangeToOtherClears<T>(g: Group<T>, timestamp: T, code: string)
    requires g.status != Other
    requires Decode(code) == Success(Other)
    ensures Update(g, timestamp, code) == Success((Group(g.device, g.name, Other, None, None), None))
  {
  }

  /** A change to green records the green start exactly when a red phase is
      known, and never reports an event. */
  lemma ChangeToGreen<T>(g: Group<T>, timestamp: T, code: string)
    requires Valid(g) && g.status != Green
    requires Decode(code) == Success(Green)
    ensures Update(g, timestamp, code).Success?
    ensures var (g', ev) := Update(g, timestamp, code).value;
      && ev.None? && g'.redStart == g.redStart
      && (g'.greenStart == Some(timestamp) <==> g.redStart.Some?)
      && (g.redStart.None? ==> g'.greenStart.None?)
  {
  }

  /** A change to red restarts the red phase at the observation time and
      reports a cycle exactly when a green phase was in progress. */
  lemma ChangeToRed<T>(g: Group<T>, timestamp: T, code: string)
    requires g.status != Red
    requires Decode(code) == Success(Red)
    ensures Update(g, timestamp, code).Success?
    ensures var (g', ev) := Update(g, timestamp, code).value;
      && g'.redStart == Some(timestamp) && g'.greenStart.None?
      && (ev.Some? <==> g.greenStart.Some?)
  {
  }

  /** Under the invariant, an event only arises on green to red and always
      carries both phase starts. */
  lemma EventHasRedStart<T>(g: Group<T>, timestamp: T, code: string)
    requires Valid(g)
    requires Update(g, timestamp, code).Success?
    requires Update(g, timestamp, code).value.1.Some?
    ensures g.status == Green
    ensures Update(g, timestamp, code).value.0.status == Red
    ensures Update(g, timestamp, code).value.1.value.redStart == g.redStart
    ensures g.redStart.Some?
  {
  }

  /** Feeds a sequence of (timestamp, code) observations to a group and
      collects the events in order; stops at the first invalid code. */
  function Run<T>(g: Group<T>, obs: seq<(T, string)>): (r: Result<(Group<T>, seq<Event<T>>), DecodeError>)
    decreases |obs|
  {
    if |obs| == 0 then Success((g, []))
    else
      match Update(g, obs[0].0, obs[0].1)
      case Failure(e) => Failure(e)
      case Success((g', ev)) =>
        match Run(g', obs[1..])
        case Failure(e) => Failure(e)
        case Success((g'', evs)) =>
          Success((g'', if ev.Some? then [ev.value] + evs else evs))
  }

  /** The invariant holds after any run from a valid group, and every event
      of the run carries its red start. */
  lemma {:induction false} RunKeepsValid<T>(g: Group<T>, obs: seq<(T, string)>)
    requires Valid(g)
    requires Run(g, obs).Success?
    ensures Valid(Run(g, obs).value.0)
    ensures forall i :: 0 <= i < |Run(g, obs).value.1| ==> Run(g, obs).value.1[i].redStart.Some?
    decreases |obs|
  {
    if |obs| > 0 {
      var (g', ev) := Update(g, obs[0].0, obs[0].1).value;
      RunKeepsValid(g', obs[1..]);
      if ev.Some? {
        EventHasRedStart(g, obs[0].0, obs[0].1);
      }
    }
  }

  /** The cycle round trip: red at t0, green at t2, red at t4 reports exactly
      one event (t0, t2, t4), on the last observation, and the group is then
      red again from t4. */
  lemma CycleRoundTrip<T>(device: string, name: string, t0: T, t1: T, t2: T, t3: T, t4: T)
    ensures var g := Create(device, name, t0, "A");
      && g.Success?
      && Run(g.value, [(t1, "A"), (t2, "1"), (t3, "1"), (t4, "A")])
         == Success((Group(device, name, Red, Some(t4), None),
                     [Event(device, name, Some(t0), t2, t4)]))
  {
    var g := Create(device, name, t0, "A").value;
    assert Decode("A") == Success(Red);
    assert Decode("1") == Success(Green);
    var g2 := Group(device, name, Green, Some(t0), Some(t2));
    assert Update(g, t1, "A") == Success((g, None));
    assert Update(g, t2, "1") == Success((g2, None));
    assert Update(g2, t3, "1") == Success((g2, None));
    var g4 := Group(device, name, Red, Some(t4), None);
    assert Update(g2, t4, "A") == Success((g4, Some(Event(device, name, Some(t0), t2, t4))));
    var ev := Event(device, name, Some(t0), t2, t4);
    var obs := [(t1, "A"), (t2, "1"), (t3, "1"), (t4, "A")];
    assert obs[1..] == [(t2, "1"), (t3, "1"), (t4, "A")];
    assert obs[1..][1..] == [(t3, "1"), (t4, "A")];
    assert obs[1..][1..][1..] == [(t4, "A")];
    assert obs[1..][1..][1..][1..] == [];
    assert Run(g4, []) == Success((g4, []));
    assert [(t4, "A")][1..] == [];
    assert [ev] + [] == [ev];
    assert Run(g2, [(t4, "A")]) == Success((g4, [ev]));
    assert [(t3, "1"), (t4, "A")][1..] == [(t4, "A")];
    assert Run(g2, [(t3, "1"), (t4, "A")]) == Success((g4, [ev]));
    assert Run(g, [(t2, "1"), (t3, "1"), (t4, "A")]) == Success((g4, [ev]));
  }

  /** An interruption to other between green and red cancels the cycle: no
      event is reported for it. */
  lemma InterruptedCycle<T>(device: string, name: string, t0: T, t2: T, t3: T, t4: T)
    ensures var g := Create(device, name, t0, "A");
      && g.Success?
      && Run(g.value, [(t2, "1"), (t3, "="), (t4, "A")])
         == Success((Group(device, name, Red, Some(t4), None), []))
  {
    var g := Create(device, name, t0, "A").value;
    assert Decode("A") == Success(Red);
    assert Decode("1") == Success(Green);
    assert Decode("=") == Success(Other);
    var g2 := Group(device, name, Green, Some(t0), Some(t2));
    var g3 := Group(device, name, Other, None, None);
    var g4 := Group(device, name, Red, Some(t4), None);
    assert Update(g, t2, "1") == Success((g2, None));
    assert Update(g2, t3, "=") == Success((g3, None));
    assert Update(g3, t4, "A") == Success((g4, None));
    var obs := [(t2, "1"), (t3, "="), (t4, "A")];
    assert obs[1..] == [(t3, "="), (t4, "A")];
    assert obs[1..][1..] == [(t4, "A")];
    assert obs[1..][1..][1..] == [];
    assert Run(g4, []) == Success((g4, []));
    assert [(t4, "A")][1..] == [];
    assert Run(g3, [(t4, "A")]) == Success((g4, []));
    assert Run(g2, [(t3, "="), (t4, "A")]) == Success((g4, []));
  }
}
