/** The polling client: per-response dispatch of signal readings to the
    table of signal groups, in batch mode (collect completed cycles and store
    them) and in callback mode (report every resolved status change). HTTP,
    JSON and the database are replaced by an abstract `Response` and an
    append-only sequence of stored events. */
module ApiClient {
  import opened Wrappers
  import opened LightStatus
  import opened SignalGroups

  /** The table key: the device reported by the response and the group name. */
  datatype Key = Key(device: string, name: string)

  type Table<T> = map<Key, Group<T>>

  /** One entry of a response's signal group list. */
  datatype Reading = Reading(name: string, code: string)

  /** The decoded answer to one GET of a device state. */
  datatype Response<T> =
    | Ok(device: string, timestamp: T, readings: seq<Reading>)
    | NotOk(statusCode: int)

  /** What the update of one device gives back: the completed cycles, the
      `None` of a failed fetch, or the ValueError of an invalid status code. */
  datatype Fetch<T> = Events(events: seq<Event<T>>) | NoData | Raised(error: DecodeError)

  datatype ClientError =
    | InvalidCode(error: DecodeError)
    | InvalidInterval
    | TypeError

  /** A callback invocation of listen mode: device, group, time, new status. */
  datatype Call<T> = Call(device: string, name: string, timestamp: T, status: Status)

  /** Every stored group satisfies the state-machine invariant and is stored
      under its own device and name. */
  predicate TableValid<T>(table: Table<T>) {
    forall k :: k in table ==>
      Valid(table[k]) && table[k].device == k.device && table[k].name == k.name
  }

  /** The keys a response for `device` touches. */
  function ResponseKeys(device: string, readings: seq<Reading>): set<Key> {
    set i | 0 <= i < |readings| :: Key(device, readings[i].name)
  }

  function EventList<T>(ev: Option<Event<T>>): seq<Event<T>> {
    if ev.Some? then [ev.value] else []
  }

  /** The loop over one response's readings: unseen keys get a fresh group and
      no event, known keys are updated and contribute their event, if any. A
      ValueError ends the loop; the table keeps the changes made before it. */
  function Dispatch<T>(table: Table<T>, device: string, timestamp: T, readings: seq<Reading>)
    : (r: (Table<T>, Result<seq<Event<T>>, DecodeError>))
    ensures r.1.Success? ==> |r.1.value| <= |readings|
    ensures r.1.Success? <==> forall i :: 0 <= i < |readings| ==> Decode(readings[i].code).Success?
    ensures r.1.Failure? ==>
              exists i :: 0 <= i < |readings| && Decode(readings[i].code).Failure?
                          && r.1.error == InvalidStatusCode(readings[i].code)
    decreases |readings|
  {
    if |readings| == 0 then
      (table, Success([]))
    else
      var key := Key(device, readings[0].name);
      assert forall i :: 0 <= i < |readings[1..]| ==> readings[1..][i] == readings[i + 1];
      if key !in table then
        match Create(device, readings[0].name, timestamp, readings[0].code)
        case Failure(e) => (table, Failure(e))
        case Success(g) => Dispatch(table[key := g], device, timestamp, readings[1..])
      else
        match Update(table[key], timestamp, readings[0].code)
        case Failure(e) => (table, Failure(e))
        case Success((g', ev)) =>
          var (t', rest) := Dispatch(table[key := g'], device, timestamp, readings[1..]);
          (t', if rest.Success? then Success(EventList(ev) + rest.value) else rest)
  }

  /** Table keys come from the response's device and group names; entries
      under other keys are left as they were. */
  lemma {:induction false} DispatchFrame<T>(table: Table<T>, device: string, timestamp: T, readings: seq<Reading>)
    ensures var r := Dispatch(table, device, timestamp, readings);
      && table.Keys <= r.0.Keys <= table.Keys + ResponseKeys(device, readings)
      && (r.1.Success? ==> r.0.Keys == table.Keys + ResponseKeys(device, readings))
      && (forall k :: k in table && k !in ResponseKeys(device, readings) ==> r.0[k] == table[k])
    decreases |readings|
  {
    if |readings| > 0 {
      var key := Key(device, readings[0].name);
      ResponseKeysCons(device, readings);
      if key !in table {
        match Create(device, readings[0].name, timestamp, readings[0].code)
        case Failure(e) =>
        case Success(g) => DispatchFrame(table[key := g], device, timestamp, readings[1..]);
      } else {
        match Update(table[key], timestamp, readings[0].code)
        case Failure(e) =>
        case Success((g', ev)) => DispatchFrame(table[key := g'], device, timestamp, readings[1..]);
      }
    }
  }

  /** Dispatch keeps every stored group valid, and under that invariant every
      reported event belongs to the response's device and carries both
      phase starts. */
  lemma {:induction false} DispatchKeepsValid<T>(table: Table<T>, device: string, timestamp: T, readings: seq<Reading>)
    requires TableValid(table)
    ensures var r := Dispatch(table, device, timestamp, readings);
      && TableValid(r.0)
      && (r.1.Success? ==> forall i :: 0 <= i < |r.1.value| ==>
            && r.1.value[i].device == device
            && Key(device, r.1.value[i].name) in ResponseKeys(device, readings)
            && r.1.value[i].redStart.Some?)
    decreases |readings|
  {
    if |readings| > 0 {
      var key := Key(device, readings[0].name);
      ResponseKeysCons(device, readings);
      if key !in table {
        match Create(device, readings[0].name, timestamp, readings[0].code)
        case Failure(e) =>
        case Success(g) => DispatchKeepsValid(table[key := g], device, timestamp, readings[1..]);
      } else {
        match Update(table[key], timestamp, readings[0].code)
        case Failure(e) =>
        case Success((g', ev)) =>
          DispatchKeepsValid(table[key := g'], device, timestamp, readings[1..]);
      }
    }
  }

  lemma ResponseKeysCons(device: string, readings: seq<Reading>)
    requires |readings| > 0
    ensures ResponseKeys(device, readings) ==
            {Key(device, readings[0].name)} + ResponseKeys(device, readings[1..])
  {
    var a := ResponseKeys(device, readings);
    var b := {Key(device, readings[0].name)} + ResponseKeys(device, readings[1..]);
    forall k | k in a ensures k in b {
      var i :| 0 <= i < |readings| && k == Key(device, readings[i].name);
      if i > 0 {
        assert readings[1..][i - 1] == readings[i];
      }
    }
    forall k | k in b ensures k in a {
      if k != Key(device, readings[0].name) {
        var i :| 0 <= i < |readings[1..]| && k == Key(device, readings[1..][i].name);
        assert readings[i + 1] == readings[1..][i];
      }
    }
  }

  /** `update_device_state` for one fetched response: a failed fetch changes
      nothing and gives `None`; otherwise the readings are dispatched under
      the device the response names. */
  function UpdateDeviceState<T>(table: Table<T>, resp: Response<T>): (r: (Table<T>, Fetch<T>))
    ensures resp.NotOk? ==> r == (table, NoData)
    ensures resp.Ok? ==> r.1 != NoData
    ensures resp.Ok? ==> forall k :: k in table && k.device != resp.device ==> k in r.0 && r.0[k] == table[k]
    ensures TableValid(table) ==> TableValid(r.0)
  {
    match resp
    case NotOk(_) => (table, NoData)
    case Ok(device, timestamp, readings) =>
      DispatchFrame(table, device, timestamp, readings);
      var (t', result) := Dispatch(table, device, timestamp, readings);
      assert TableValid(table) ==> TableValid(t') by {
        if TableValid(table) {
          DispatchKeepsValid(table, device, timestamp, readings);
        }
      }
      (t', match result case Success(evs) => Events(evs) case Failure(e) => Raised(e))
  }

  /** Events come out in the order of the readings: dispatching `a + b` is
      dispatching `a` and then `b` on the resulting table, with the event
      lists concatenated. */
  lemma {:induction false} DispatchSplit<T>(table: Table<T>, device: string, timestamp: T,
                                            a: seq<Reading>, b: seq<Reading>)
    ensures var (t1, r1) := Dispatch(table, device, timestamp, a);
      Dispatch(table, device, timestamp, a + b) ==
        if r1.Failure? then (t1, r1)
        else
          var (t2, r2) := Dispatch(t1, device, timestamp, b);
          (t2, if r2.Success? then Success(r1.value + r2.value) else r2)
    decreases |a|
  {
    if |a| == 0 {
      assert a + b == b;
      var (t2, r2) := Dispatch(table, device, timestamp, b);
      if r2.Success? {
        assert [] + r2.value == r2.value;
      }
    } else {
      TailOfConcat(a, b);
      var key := Key(device, a[0].name);
      if key !in table {
        match Create(device, a[0].name, timestamp, a[0].code)
        case Failure(e) =>
        case Success(g) =>
          DispatchSplit(table[key := g], device, timestamp, a[1..], b);
      } else {
        match Update(table[key], timestamp, a[0].code)
        case Failure(e) =>
        case Success((g', ev)) =>
          DispatchSplit(table[key := g'], device, timestamp, a[1..], b);
          var (t1, r1) := Dispatch(table[key := g'], device, timestamp, a[1..]);
          if r1.Success? {
            var (t2, r2) := Dispatch(t1, device, timestamp, b);
            if r2.Success? {
              assert EventList(ev) + (r1.value + r2.value) == (EventList(ev) + r1.value) + r2.value;
            }
          }
      }
    }
  }

  /** A reading for a known group contributes exactly the event of its
      update, if there is one. */
  lemma DispatchKnownGroup<T>(table: Table<T>, device: string, timestamp: T, name: string, code: string)
    requires Key(device, name) in table
    requires Update(table[Key(device, name)], timestamp, code).Success?
    ensures var (g', ev) := Update(table[Key(device, name)], timestamp, code).value;
      Dispatch(table, device, timestamp, [Reading(name, code)]) ==
        (table[Key(device, name) := g'], Success(EventList(ev)))
  {
    var rs := [Reading(name, code)];
    assert rs[1..] == [];
    var (g', ev) := Update(table[Key(device, name)], timestamp, rs[0].code).value;
    assert EventList(ev) + [] == EventList(ev);
  }

  /** The first sighting of groups creates them from the response's
      timestamp and code and reports no event. */
  lemma {:induction false} FirstSightingNoEvents<T>(table: Table<T>, device: string, timestamp: T,
                                                    readings: seq<Reading>)
    requires forall i :: 0 <= i < |readings| ==> Key(device, readings[i].name) !in table
    requires forall i, j :: 0 <= i < j < |readings| ==> readings[i].name != readings[j].name
    requires forall i :: 0 <= i < |readings| ==> Decode(readings[i].code).Success?
    ensures Dispatch(table, device, timestamp, readings).1 == Success([])
    ensures forall i :: 0 <= i < |readings| ==>
      Key(device, readings[i].name) in Dispatch(table, device, timestamp, readings).0
    ensures forall i :: 0 <= i < |readings| ==>
      Dispatch(table, device, timestamp, readings).0[Key(device, readings[i].name)]
        == Create(device, readings[i].name, timestamp, readings[i].code).value
    decreases |readings|
  {
    DispatchFrame(table, device, timestamp, readings);
    if |readings| > 0 {
      var key := Key(device, readings[0].name);
      var g := Create(device, readings[0].name, timestamp, readings[0].code).value;
      var rest := readings[1..];
      assert forall i :: 0 <= i < |rest| ==> rest[i] == readings[i + 1];
      FirstSightingNoEvents(table[key := g], device, timestamp, rest);
      var t' := Dispatch(table, device, timestamp, readings).0;
      assert t' == Dispatch(table[key := g], device, timestamp, rest).0;
      DispatchFrame(table[key := g], device, timestamp, rest);
      assert key !in ResponseKeys(device, rest);
      forall i | 0 <= i < |readings|
        ensures t'[Key(device, readings[i].name)]
                == Create(device, readings[i].name, timestamp, readings[i].code).value
      {
        if i > 0 {
          assert readings[i] == rest[i - 1];
        }
      }
    }
  }

  /** Callback mode's loop over one response: the same table update as batch
      mode, plus a call for every known group whose resolved status changed,
      with the new status. First sightings never call back. Calls made before
      a ValueError have been made. */
  function Listen<T>(table: Table<T>, device: string, timestamp: T, readings: seq<Reading>)
    : (r: (Table<T>, seq<Call<T>>, Option<DecodeError>))
    ensures r.0 == Dispatch(table, device, timestamp, readings).0
    ensures r.2.None? <==> Dispatch(table, device, timestamp, readings).1.Success?
    ensures |r.1| <= |readings|
    ensures forall i :: 0 <= i < |r.1| ==>
      r.1[i].device == device && r.1[i].timestamp == timestamp
      && Key(device, r.1[i].name) in ResponseKeys(device, readings)
    decreases |readings|
  {
    if |readings| == 0 then
      (table, [], None)
    else
      var key := Key(device, readings[0].name);
      ResponseKeysCons(device, readings);
      if key !in table then
        match Create(device, readings[0].name, timestamp, readings[0].code)
        case Failure(e) => (table, [], Some(e))
        case Success(g) => Listen(table[key := g], device, timestamp, readings[1..])
      else
        var before := table[key].status;
        match Update(table[key], timestamp, readings[0].code)
        case Failure(e) => (table, [], Some(e))
        case Success((g', _)) =>
          var call := if before != g'.status
                      then [Call(device, readings[0].name, timestamp, g'.status)]
                      else [];
          var (t', calls, err) := Listen(table[key := g'], device, timestamp, readings[1..]);
          (t', call + calls, err)
  }

  /** For a known group the callback fires exactly when the code is valid
      and its decoded status differs from the stored one, and receives the
      new status; an invalid code is reported and calls nothing back. */
  lemma ListenFiresOnChange<T>(table: Table<T>, device: string, timestamp: T, name: string, code: string)
    requires Key(device, name) in table
    ensures var (_, calls, err) := Listen(table, device, timestamp, [Reading(name, code)]);
      && (err.None? <==> Decode(code).Success?)
      && (|calls| == 1 <==> Decode(code).Success? && Decode(code).value != table[Key(device, name)].status)
      && (|calls| != 1 ==> calls == [])
      && (|calls| == 1 ==> calls[0] == Call(device, name, timestamp, Decode(code).value))
  {
    var rs := [Reading(name, code)];
    assert rs[1..] == [];
  }

  /** An invalid code raises before anything is modified: when the next
      reading's code is invalid, the table is left exactly as it was, no
      callback is made for it, and the error names the code. With
      `DispatchSplit` and `ListenSplit` this fixes the error path of any
      response. */
  lemma InvalidCodeChangesNothing<T>(table: Table<T>, device: string, timestamp: T, readings: seq<Reading>)
    requires |readings| > 0 && Decode(readings[0].code).Failure?
    ensures Dispatch(table, device, timestamp, readings) == (table, Failure(InvalidStatusCode(readings[0].code)))
    ensures Listen(table, device, timestamp, readings) == (table, [], Some(InvalidStatusCode(readings[0].code)))
  {
  }

  /** A group seen for the first time is created without a callback. */
  lemma ListenSilentOnFirstSighting<T>(table: Table<T>, device: string, timestamp: T, name: string, code: string)
    requires Key(device, name) !in table
    ensures Listen(table, device, timestamp, [Reading(name, code)]).1 == []
  {
    var rs := [Reading(name, code)];
    assert rs[1..] == [];
  }

  /** Calls come out in the order of the readings: listening to `a + b` is
      listening to `a` and then to `b` on the resulting table, with the
      call lists concatenated; an invalid code in `a` ends the loop there,
      keeping the calls already made. */
  lemma {:induction false} ListenSplit<T>(table: Table<T>, device: string, timestamp: T,
                                          a: seq<Reading>, b: seq<Reading>)
    ensures var (t1, c1, e1) := Listen(table, device, timestamp, a);
      Listen(table, device, timestamp, a + b) ==
        if e1.Some? then (t1, c1, e1)
        else
          var (t2, c2, e2) := Listen(t1, device, timestamp, b);
          (t2, c1 + c2, e2)
    decreases |a|
  {
    if |a| == 0 {
      assert a + b == b;
      var (t2, c2, e2) := Listen(table, device, timestamp, b);
      assert [] + c2 == c2;
    } else {
      TailOfConcat(a, b);
      var key := Key(device, a[0].name);
      if key !in table {
        match Create(device, a[0].name, timestamp, a[0].code)
        case Failure(e) =>
        case Success(g) =>
          ListenSplit(table[key := g], device, timestamp, a[1..], b);
      } else {
        match Update(table[key], timestamp, a[0].code)
        case Failure(e) =>
        case Success((g', ev)) =>
          ListenSplit(table[key := g'], device, timestamp, a[1..], b);
          var call := if table[key].status != g'.status
                      then [Call(device, a[0].name, timestamp, g'.status)]
                      else [];
          var (t1, c1, e1) := Listen(table[key := g'], device, timestamp, a[1..]);
          if e1.None? {
            var (t2, c2, e2) := Listen(t1, device, timestamp, b);
            assert call + (c1 + c2) == (call + c1) + c2;
          }
      }
    }
  }

  /** The calls a response owes the callback, read off the table as it was
      before the response: one per known group whose decoded status differs
      from the stored one, with the new status, in response order. */
  function Changes<T>(table: Table<T>, device: string, timestamp: T, readings: seq<Reading>): seq<Call<T>>
    decreases |readings|
  {
    if |readings| == 0 then []
    else
      var key := Key(device, readings[0].name);
      var s := Decode(readings[0].code);
      (if key in table && s.Success? && s.value != table[key].status
       then [Call(device, readings[0].name, timestamp, s.value)]
       else [])
      + Changes(table, device, timestamp, readings[1..])
  }

  /** Changing an entry the response does not name does not change the
      calls it owes. */
  lemma {:induction false} ChangesFrame<T>(table: Table<T>, device: string, timestamp: T,
                                           readings: seq<Reading>, k: Key, g: Group<T>)
    requires k !in ResponseKeys(device, readings)
    ensures Changes(table[k := g], device, timestamp, readings) == Changes(table, device, timestamp, readings)
    decreases |readings|
  {
    if |readings| > 0 {
      ResponseKeysCons(device, readings);
      ChangesFrame(table, device, timestamp, readings[1..], k, g);
    }
  }

  /** Callback mode in general: for a response that names each group once
      and carries only valid codes, the loop completes and calls back
      exactly for the known groups whose status changed, with the new
      status, in response order; first sightings never call back. */
  lemma {:induction false} ListenReportsChanges<T>(table: Table<T>, device: string, timestamp: T,
                                                   readings: seq<Reading>)
    requires forall i, j :: 0 <= i < j < |readings| ==> readings[i].name != readings[j].name
    requires forall i :: 0 <= i < |readings| ==> Decode(readings[i].code).Success?
    ensures Listen(table, device, timestamp, readings).2.None?
    ensures Listen(table, device, timestamp, readings).1 == Changes(table, device, timestamp, readings)
    decreases |readings|
  {
    if |readings| > 0 {
      var key := Key(device, readings[0].name);
      var rest := readings[1..];
      assert forall i :: 0 <= i < |rest| ==> rest[i] == readings[i + 1];
      assert key !in ResponseKeys(device, rest) by {
        forall i | 0 <= i < |rest| ensures Key(device, rest[i].name) != key {
          assert rest[i].name == readings[i + 1].name != readings[0].name;
        }
      }
      if key !in table {
        var g := Create(device, readings[0].name, timestamp, readings[0].code).value;
        ListenReportsChanges(table[key := g], device, timestamp, rest);
        ChangesFrame(table, device, timestamp, rest, key, g);
        assert [] + Changes(table, device, timestamp, rest) == Changes(table, device, timestamp, rest);
      } else {
        var (g', ev) := Update(table[key], timestamp, readings[0].code).value;
        ListenReportsChanges(table[key := g'], device, timestamp, rest);
        ChangesFrame(table, device, timestamp, rest, key, g');
      }
    }
  }

  /** The client's polling state: monitored devices, the `active` flag and
      the table of signal groups. */
  datatype Client<T> = Client(devices: seq<string>, active: bool, groups: Table<T>)

  /** A new client is inactive and tracks no group yet. */
  function NewClient<T>(devices: seq<string>): (c: Client<T>)
    ensures c.devices == devices && !c.active && c.groups == map[]
  {
    Client(devices, false, map[])
  }

  /** Entry of both polling loops: a non-positive interval is rejected
      before the client is marked active. */
  function StartLoop<T>(c: Client<T>, interval: real): (r: Result<Client<T>, ClientError>)
    ensures r.Failure? <==> interval <= 0.0
    ensures r.Failure? ==> r.error == InvalidInterval
    ensures r.Success? ==> r.value == c.(active := true)
  {
    if interval <= 0.0 then Failure(InvalidInterval) else Success(c.(active := true))
  }

  /** `stop_polling` clears the flag and touches nothing else. */
  function StopPolling<T>(c: Client<T>): (r: Client<T>)
    ensures !r.active && r.devices == c.devices && r.groups == c.groups
  {
    if c.active then c.(active := false) else c
  }

  /** Stopping twice is the same as stopping once. */
  lemma StopPollingIdempotent<T>(c: Client<T>)
    ensures StopPolling(StopPolling(c)) == StopPolling(c)
  {
  }

  /** Storing a batch of completed cycles: an empty batch leaves the store
      alone, a non-empty one is appended row by row. */
  function Store<T>(db: seq<Event<T>>, events: seq<Event<T>>): (r: seq<Event<T>>)
    ensures |events| == 0 ==> r == db
    ensures r == db + events
  {
    if |events| < 1 then db else db + events
  }

  /** Storing batch after batch is storing their concatenation. */
  lemma StoreBatches<T>(db: seq<Event<T>>, a: seq<Event<T>>, b: seq<Event<T>>)
    ensures Store(Store(db, a), b) == Store(db, a + b)
  {
    assert (db + a) + b == db + (a + b);
  }

  /** `store` as written: every row calls the date parser through the
      instance, but the parser is declared without `self`, so the call gets
      one argument too many and raises a TypeError before any row is
      inserted. Only the empty batch gets through. */
  function StoreAsWritten<T>(db: seq<Event<T>>, events: seq<Event<T>>)
    : (r: Result<seq<Event<T>>, ClientError>)
    ensures r.Success? <==> |events| == 0
    ensures r.Success? ==> r.value == db
    ensures r.Failure? ==> r.error == TypeError
  {
    if |events| < 1 then Success(db) else Failure(TypeError)
  }

  /** The discrepancy: any non-empty batch is lost as written, while the
      intended store keeps every event. */
  lemma StoreAsWrittenLosesEvents<T>(db: seq<Event<T>>, e: Event<T>)
    ensures StoreAsWritten(db, [e]).Failure?
    ensures Store(db, [e]) == db + [e]
  {
  }

  /** The events of one batch round: every monitored device's update in
      turn, events concatenated. A failed fetch makes the update return
      `None`, which the loop cannot extend its list with (TypeError); an
      invalid code propagates its ValueError. `responses` holds one fetch per
      monitored device, in monitored-device order; any list of them is
      accepted so that a round can be split into rounds over its parts. */
  function CollectRound<T>(table: Table<T>, responses: seq<Response<T>>)
    : (r: (Table<T>, Result<seq<Event<T>>, ClientError>))
    ensures TableValid(table) ==> TableValid(r.0)
    ensures r.1.Success? ==> forall i :: 0 <= i < |responses| ==> responses[i].Ok?
    ensures TableValid(table) && r.1.Success? ==>
      forall i :: 0 <= i < |r.1.value| ==> r.1.value[i].redStart.Some?
    decreases |responses|
  {
    if |responses| == 0 then
      (table, Success([]))
    else
      var (t1, fetch) := UpdateDeviceState(table, responses[0]);
      match fetch
      case NoData => (t1, Failure(TypeError))
      case Raised(e) => (t1, Failure(InvalidCode(e)))
      case Events(evs) =>
        var (t2, rest) := CollectRound(t1, responses[1..]);
        if rest.Success? then
          assert TableValid(table) ==> forall i :: 0 <= i < |evs| ==> evs[i].redStart.Some? by {
            if TableValid(table) {
              DispatchKeepsValid(table, responses[0].device, responses[0].timestamp, responses[0].readings);
            }
          }
          (t2, Success(evs + rest.value))
        else
          (t2, rest)
  }

  /** A round over one response: a failed fetch is a TypeError, and an
      OK response gives that device's dispatch, its events on success and
      its ValueError otherwise. */
  lemma CollectRoundOne<T>(table: Table<T>, resp: Response<T>)
    ensures resp.NotOk? ==> CollectRound(table, [resp]) == (table, Failure(TypeError))
    ensures resp.Ok? ==>
      var (t, d) := Dispatch(table, resp.device, resp.timestamp, resp.readings);
      && CollectRound(table, [resp]).0 == t
      && (d.Success? ==> CollectRound(table, [resp]).1 == Success(d.value))
      && (d.Failure? ==> CollectRound(table, [resp]).1 == Failure(InvalidCode(d.error)))
  {
    assert [resp][1..] == [];
    if resp.Ok? {
      var d := Dispatch(table, resp.device, resp.timestamp, resp.readings).1;
      if d.Success? {
        assert d.value + [] == d.value;
      }
    }
  }

  /** The devices' events are concatenated in the order of the monitored
      devices: a round over `a + b` is a round over `a` and then over `b`
      on the resulting table; an error in `a` ends the round there. */
  lemma {:induction false} CollectRoundSplit<T>(table: Table<T>, a: seq<Response<T>>, b: seq<Response<T>>)
    ensures var (t1, r1) := CollectRound(table, a);
      CollectRound(table, a + b) ==
        if r1.Failure? then (t1, r1)
        else
          var (t2, r2) := CollectRound(t1, b);
          (t2, if r2.Success? then Success(r1.value + r2.value) else r2)
    decreases |a|
  {
    if |a| == 0 {
      assert a + b == b;
      var (t2, r2) := CollectRound(table, b);
      if r2.Success? {
        assert [] + r2.value == r2.value;
      }
    } else {
      TailOfConcat(a, b);
      var (t1, fetch) := UpdateDeviceState(table, a[0]);
      if fetch.Events? {
        CollectRoundSplit(t1, a[1..], b);
        var (t2, r1) := CollectRound(t1, a[1..]);
        if r1.Success? {
          var (t3, r2) := CollectRound(t2, b);
          if r2.Success? {
            assert fetch.events + (r1.value + r2.value) == (fetch.events + r1.value) + r2.value;
          }
        }
      }
    }
  }

  /** One round of `start_polling`: collect every device's events, then
      store them as one batch. On an error the round stops and nothing of it
      is stored. The round fetches once per monitored device, in order, so
      `responses[i]` is the response for `c.devices[i]`. */
  function PollRound<T>(c: Client<T>, db: seq<Event<T>>, responses: seq<Response<T>>)
    : (r: (Client<T>, seq<Event<T>>, Result<(), ClientError>))
    requires |responses| == |c.devices|
    ensures r.0.devices == c.devices && r.0.active == c.active
    ensures TableValid(c.groups) ==> TableValid(r.0.groups)
    ensures |r.1| >= |db| && r.1[..|db|] == db
    ensures r.2.Failure? ==> r.1 == db
    ensures TableValid(c.groups) ==> forall i :: |db| <= i < |r.1| ==> r.1[i].redStart.Some?
    ensures r.0.groups == CollectRound(c.groups, responses).0
    ensures r.2.Success? <==> CollectRound(c.groups, responses).1.Success?
    ensures r.2.Success? ==> r.1 == db + CollectRound(c.groups, responses).1.value
    ensures r.2.Failure? ==> r.2.error == CollectRound(c.groups, responses).1.error
  {
    var (groups, collected) := CollectRound(c.groups, responses);
    match collected
    case Failure(e) => (c.(groups := groups), db, Failure(e))
    case Success(evs) => (c.(groups := groups), Store(db, evs), Success(()))
  }

  /** How one round of callback mode ends. */
  datatype ListenEnd = Continue | Returned | Aborted(error: ClientError)

  /** Callback mode for one fetched response as written: the timestamp is
      parsed through the instance with the parser declared without `self`,
      which raises a TypeError for every successful fetch before any group
      is looked at; a failed fetch returns from the loop. */
  function ListenDeviceAsWritten<T>(table: Table<T>, resp: Response<T>)
    : (r: (Table<T>, seq<Call<T>>, ListenEnd))
    ensures r.0 == table && r.1 == []
    ensures resp.Ok? ==> r.2 == Aborted(TypeError)
    ensures resp.NotOk? ==> r.2 == Returned
  {
    match resp
    case NotOk(_) => (table, [], Returned)
    case Ok(_, _, _) => (table, [], Aborted(TypeError))
  }

  /** Callback mode for one fetched response with the timestamp converted as
      intended (timestamps stay opaque in this model). */
  function ListenDevice<T>(table: Table<T>, resp: Response<T>): (r: (Table<T>, seq<Call<T>>, ListenEnd))
    ensures resp.NotOk? ==> r == (table, [], Returned)
    ensures resp.Ok? ==> r.0 == UpdateDeviceState(table, resp).0
    ensures resp.Ok? ==> (r.2 == Continue <==> UpdateDeviceState(table, resp).1.Events?)
    ensures TableValid(table) ==> TableValid(r.0)
  {
    match resp
    case NotOk(_) => (table, [], Returned)
    case Ok(device, timestamp, readings) =>
      var (t', calls, err) := Listen(table, device, timestamp, readings);
      (t', calls, if err.Some? then Aborted(InvalidCode(err.value)) else Continue)
  }

  /** The discrepancy: as written, a status change never reaches the
      callback; as intended, it does. */
  lemma ListenAsWrittenMissesChange<T>(table: Table<T>, device: string, timestamp: T, name: string)
    requires Key(device, name) in table
    requires table[Key(device, name)].status == Red
    ensures ListenDeviceAsWritten(table, Ok(device, timestamp, [Reading(name, "1")])).1 == []
    ensures ListenDevice(table, Ok(device, timestamp, [Reading(name, "1")])).1
            == [Call(device, name, timestamp, Green)]
  {
    assert Decode("1") == Success(Green);
    ListenFiresOnChange(table, device, timestamp, name, "1");
  }

  /** One round of `listen_for_light_change_events` over the monitored
      devices' responses, one per device in monitored-device order; it ends
      early when a fetch fails (the loop returns) or a code is invalid. */
  function ListenRound<T>(table: Table<T>, responses: seq<Response<T>>)
    : (r: (Table<T>, seq<Call<T>>, ListenEnd))
    ensures TableValid(table) ==> TableValid(r.0)
    ensures r.2 == Continue ==> forall i :: 0 <= i < |responses| ==> responses[i].Ok?
    ensures r.2 == Continue ==> r.0 == CollectRound(table, responses).0
    decreases |responses|
  {
    if |responses| == 0 then
      (table, [], Continue)
    else
      var (t1, calls, end) := ListenDevice(table, responses[0]);
      if end != Continue then (t1, calls, end)
      else
        var (t2, more, end') := ListenRound(t1, responses[1..]);
        (t2, calls + more, end')
  }

  /** A callback round over `a` that does not run to its end ends a round
      over `a + b` at the same point. */
  lemma {:induction false} ListenRoundStops<T>(table: Table<T>, a: seq<Response<T>>, b: seq<Response<T>>)
    ensures ListenRound(table, a).2 != Continue ==> ListenRound(table, a + b) == ListenRound(table, a)
    decreases |a|
  {
    if |a| > 0 {
      var ab := a + b;
      assert ab[0] == a[0];
      assert ab[1..] == a[1..] + b;
      var d := ListenDevice(table, a[0]);
      if d.2 == Continue {
        ListenRoundStops(d.0, a[1..], b);
      }
    }
  }

  /** A callback round that runs to its end leaves the table exactly as a
      batch round over the same responses, and that batch round succeeds. */
  lemma {:induction false} ListenRoundAgreesWithBatch<T>(table: Table<T>, responses: seq<Response<T>>)
    ensures ListenRound(table, responses).2 == Continue ==>
              && CollectRound(table, responses).1.Success?
              && ListenRound(table, responses).0 == CollectRound(table, responses).0
    decreases |responses|
  {
    if |responses| > 0 {
      var d := ListenDevice(table, responses[0]);
      if d.2 == Continue {
        ListenRoundAgreesWithBatch(d.0, responses[1..]);
      }
    }
  }

  lemma TailOfConcat<X>(a: seq<X>, b: seq<X>)
    requires |a| > 0
    ensures (a + b)[0] == a[0] && (a + b)[1..] == a[1..] + b
  {
  }

  lemma CallsAssociate<T>(x: seq<Call<T>>, y: seq<Call<T>>, z: seq<Call<T>>)
    ensures x + (y + z) == (x + y) + z
  {
  }

  /** A callback round whose first device runs to its end continues with
      the remaining devices on the updated table. */
  lemma ListenRoundCons<T>(table: Table<T>, s: seq<Response<T>>)
    requires |s| > 0 && ListenDevice(table, s[0]).2 == Continue
    ensures var d := ListenDevice(table, s[0]);
      var m := ListenRound(d.0, s[1..]);
      ListenRound(table, s) == (m.0, d.1 + m.1, m.2)
  {
  }

  /** Callback rounds compose like batch rounds: when the round over `a`
      runs to its end, a round over `a + b` is the round over `a` and then
      the round over `b` on the resulting table, with the calls
      concatenated. */
  lemma {:induction false} ListenRoundSplit<T>(table: Table<T>, a: seq<Response<T>>, b: seq<Response<T>>)
    requires ListenRound(table, a).2 == Continue
    ensures var r1 := ListenRound(table, a);
      var r2 := ListenRound(r1.0, b);
      ListenRound(table, a + b) == (r2.0, r1.1 + r2.1, r2.2)
    decreases |a|
  {
    if |a| == 0 {
      assert a + b == b;
      assert [] + ListenRound(table, b).1 == ListenRound(table, b).1;
    } else {
      var ab := a + b;
      var d := ListenDevice(table, a[0]);
      var m := ListenRound(d.0, a[1..]);
      var k := ListenRound(m.0, b);
      assert ListenRound(table, a) == (m.0, d.1 + m.1, m.2) by {
        ListenRoundCons(table, a);
      }
      assert ListenRound(d.0, a[1..] + b) == (k.0, m.1 + k.1, k.2) by {
        ListenRoundSplit(d.0, a[1..], b);
      }
      assert ListenRound(table, ab) == (k.0, d.1 + (m.1 + k.1), k.2) by {
        TailOfConcat(a, b);
        ListenRoundCons(table, ab);
      }
      CallsAssociate(d.1, m.1, k.1);
    }
  }

  /** A round over one response is callback mode for that response. */
  lemma ListenRoundOne<T>(table: Table<T>, resp: Response<T>)
    ensures ListenRound(table, [resp]) == ListenDevice(table, resp)
  {
    assert [resp][1..] == [];
    var (t1, calls, end) := ListenDevice(table, resp);
    assert calls + [] == calls;
  }
}
