/** The per-device session registry of `AndroidDevice` (android_device.py):
    the map from sl4a session uid to the connections of that session, the map
    from `serial + str(uid)` to the session's event dispatcher, and the host
    port forwarded to the device's sl4a port.

    Every operation is a pure transition that returns an `Exec`: the device as
    the Python object stands afterwards (a raised exception keeps whatever
    was changed before it), the value or the exception, and the remote calls
    made, in order. The sl4a agent, adb and the port prober are not modelled:
    their answers are parameters (`Reply`, `Faults`, `Bootstrap`). */
module Registry {
  import opened Results
  import opened Text
  import Order

  /** One `android.Android` client connection: the session it belongs to,
      the host port it was opened on, and whether it joined an existing
      session (`cmd='continue'`) rather than starting one. */
  datatype Conn = Conn(uid: int, port: Option<int>, joined: bool)

  /** An `EventDispatcher`, bound to the connection that carries its events. */
  datatype Dispatcher = Dispatcher(conn: Conn)

  /** The values a JSON device config holds: strings, numbers, booleans,
      `null`, and `Opaque` for the nested lists and objects the controller
      only stores and compares. */
  datatype Value = Str(s: string) | Number(n: int) | Flag(b: bool) | Null | Opaque(name: string)

  /** The state of one `AndroidDevice`. `hPort` is `h_port` (`None` when
      unset), `dPort` is `d_port`, `attrs` the attributes `load_config` set. */
  datatype Device = Device(
    serial: string,
    hPort: Option<int>,
    dPort: int,
    sessions: map<int, seq<Conn>>,
    dispatchers: map<string, Option<Dispatcher>>,
    attrs: map<string, Value>)

  /** `d_port`'s default: sl4a's port on the device. */
  const DefaultDevicePort := 8080

  /** `AndroidDevice(serial)`: no host port, no session, no dispatcher. */
  function NewDevice(serial: string): (d: Device)
    ensures d.serial == serial && d.hPort == None && d.dPort == 8080
    ensures |d.sessions| == 0 && |d.dispatchers| == 0 && |d.attrs| == 0
  {
    Device(serial, None, DefaultDevicePort, map[], map[], map[])
  }

  /** Python truthiness of `h_port`: `None` and `0` are false. */
  predicate Truthy(p: Option<int>)
  {
    p.Some? && p.value != 0
  }

  /** The dispatcher key of a session: `serial + str(uid)`. */
  function Key(serial: string, uid: int): string
  {
    serial + IntToString(uid)
  }

  /** Within one device, distinct sessions have distinct dispatcher keys. */
  lemma KeyInjective(serial: string, a: int, b: int)
    requires Key(serial, a) == Key(serial, b)
    ensures a == b
  {
    assert Key(serial, a)[|serial|..] == IntToString(a);
    assert Key(serial, b)[|serial|..] == IntToString(b);
    IntToStringInjective(a, b);
  }

  lemma KeysDistinct(serial: string)
    ensures forall a, b :: a != b ==> Key(serial, a) != Key(serial, b)
  {
    forall a, b | Key(serial, a) == Key(serial, b)
      ensures a == b
    {
      KeyInjective(serial, a, b);
    }
  }

  /** Remote calls, recorded in the order they are made. */
  datatype Call =
    | Forward(host: int, device: int)          // adb forward tcp:host tcp:device
    | RemoveForward(host: int)                  // adb forward --remove tcp:host
    | OpenSession(port: Option<int>)            // android.Android(port=...)
    | JoinSession(uid: int, port: Option<int>)  // android.Android(cmd='continue', uid=...)
    | StartAgent                                // adb.start_sl4a()
    | CloseSession(conn: Conn)                  // droid.closeSl4aSession()
    | CloseConnection(conn: Conn)               // droid.close()
    | CleanUp(key: string)                      // dispatcher.clean_up()
    | StartEvents(dispatcher: Dispatcher)       // dispatcher.start()

  /** The device after an operation, its value or exception, and its calls. */
  datatype Exec<T> = Exec(dev: Device, out: Result<T>, calls: seq<Call>)

  /** The sl4a agent's answer to a new-session request. */
  datatype Reply = Granted(uid: int) | Refused

  /** Remote failures during teardown: the connections whose
      `closeSl4aSession` raises, those whose `close` raises, and the
      dispatcher keys whose `clean_up` raises. */
  datatype Faults = Faults(closeSession: set<Conn>, closeConnection: set<Conn>, cleanUp: set<string>)

  const NoFaults := Faults({}, {}, {})

  /** The registry invariant every operation keeps: each session has at
      least one connection and all its connections carry its uid; each
      dispatcher is present (not `None`) and is filed under the key of the
      session its connection belongs to. */
  predicate Wf(d: Device)
  {
    && (forall u :: u in d.sessions ==>
          |d.sessions[u]| > 0 && forall j :: 0 <= j < |d.sessions[u]| ==> d.sessions[u][j].uid == u)
    && (forall k :: k in d.dispatchers ==>
          d.dispatchers[k].Some? && k == Key(d.serial, d.dispatchers[k].value.conn.uid))
  }

  /** Sessions and dispatchers correspond one to one, as after `get_droid()`
      with event handling. */
  predicate Aligned(d: Device)
  {
    && Wf(d)
    && (forall u :: u in d.sessions ==> Key(d.serial, u) in d.dispatchers)
    && (forall k :: k in d.dispatchers ==> d.dispatchers[k].Some? && d.dispatchers[k].value.conn.uid in d.sessions)
  }

  /** A new-session reply that yields a session: a uid not yet registered. */
  predicate Opens(d: Device, reply: Reply)
  {
    reply.Granted? && reply.uid !in d.sessions
  }

  /** `start_new_session`: ask sl4a for a session on the current host port;
      refuse a uid that is already registered. */
  function StartNewSession(d: Device, reply: Reply): (r: Exec<Conn>)
    ensures r.calls == [OpenSession(d.hPort)]
    ensures r.out.Ok? <==> Opens(d, reply)
    ensures reply.Granted? && reply.uid in d.sessions ==> r.out == Err(DuplicateSession(reply.uid))
    ensures r.out.Err? ==> r.dev == d
    ensures r.out.Ok? ==>
      && r.out.value == Conn(reply.uid, d.hPort, false)
      && r.dev == d.(sessions := r.dev.sessions)
      && r.dev.sessions.Keys == d.sessions.Keys + {reply.uid}
      && r.dev.sessions[reply.uid] == [r.out.value]
      && forall u :: u in d.sessions ==> r.dev.sessions[u] == d.sessions[u]
    ensures Wf(d) ==> Wf(r.dev)
  {
    var calls := [OpenSession(d.hPort)];
    match reply
    case Refused => Exec(d, Err(AgentFailure), calls)
    case Granted(uid) =>
      if uid in d.sessions then Exec(d, Err(DuplicateSession(uid)), calls)
      else
        var droid := Conn(uid, d.hPort, false);
        Exec(d.(sessions := d.sessions[uid := [droid]]), Ok(droid), calls)
  }

  /** `add_new_connection_to_session`: open one more connection to a
      registered session. The connection is handed back and never filed in
      the session's list. */
  function AddNewConnectionToSession(d: Device, id: int, granted: bool): (r: Exec<Conn>)
    ensures r.dev == d
    ensures id !in d.sessions ==> r.out == Err(DoesNotExist(SessionId(id))) && r.calls == []
    ensures id in d.sessions ==> r.calls == [JoinSession(id, d.hPort)] && (r.out.Ok? <==> granted)
    ensures r.out.Ok? ==> r.out.value == Conn(id, d.hPort, true)
  {
    if id !in d.sessions then Exec(d, Err(DoesNotExist(SessionId(id))), [])
    else
      var calls := [JoinSession(id, d.hPort)];
      if granted then Exec(d, Ok(Conn(id, d.hPort, true)), calls)
      else Exec(d, Err(AgentFailure), calls)
  }

  /** `get_dispatcher`: the dispatcher filed under `serial + str(uid)`, or a
      new one on a fresh connection to that session. */
  function GetDispatcher(d: Device, droid: Conn, granted: bool): (r: Exec<Dispatcher>)
    ensures var key := Key(d.serial, droid.uid);
      && (key in d.dispatchers && d.dispatchers[key].Some? ==>
            r == Exec(d, Ok(d.dispatchers[key].value), []))
      && (key in d.dispatchers && d.dispatchers[key].None? ==>
            r == Exec(d, Err(DeviceError(EmptyDispatcherKey)), []))
      && (key !in d.dispatchers ==> (r.out.Ok? <==> droid.uid in d.sessions && granted))
      && (key !in d.dispatchers && r.out.Ok? ==>
            && r.out.value.conn == Conn(droid.uid, d.hPort, true)
            && r.dev == d.(dispatchers := d.dispatchers[key := Some(r.out.value)])
            && r.calls == [JoinSession(droid.uid, d.hPort)])
    ensures r.out.Err? ==> r.dev == d
    ensures r.dev.sessions == d.sessions
    ensures |r.calls| <= 1 && forall i :: 0 <= i < |r.calls| ==> r.calls[i].JoinSession?
    ensures Wf(d) ==> Wf(r.dev)
  {
    var key := Key(d.serial, droid.uid);
    if key in d.dispatchers then
      match d.dispatchers[key]
      case None => Exec(d, Err(DeviceError(EmptyDispatcherKey)), [])
      case Some(ed) => Exec(d, Ok(ed), [])
    else
      var joined := AddNewConnectionToSession(d, droid.uid, granted);
      match joined.out
      case Err(e) => Exec(d, Err(e), joined.calls)
      case Ok(eventDroid) =>
        var ed := Dispatcher(eventDroid);
        Exec(d.(dispatchers := d.dispatchers[key := Some(ed)]), Ok(ed), joined.calls)
  }

  /** Asking twice for a session's dispatcher: the second request hands back
      the first one and opens nothing. */
  lemma GetDispatcherIdempotent(d: Device, droid: Conn, first: bool, second: bool)
    requires GetDispatcher(d, droid, first).out.Ok?
    ensures var r := GetDispatcher(d, droid, first);
      GetDispatcher(r.dev, droid, second) == Exec(r.dev, r.out, [])
  {
  }

  /** Closing `c` raises: either `closeSl4aSession` or `close` does. */
  predicate CloseRaises(c: Conn, f: Faults)
  {
    c in f.closeSession || c in f.closeConnection
  }

  /** A connection list whose closing raises somewhere. */
  predicate CloseFails(conns: seq<Conn>, f: Faults)
  {
    exists j :: 0 <= j < |conns| && CloseRaises(conns[j], f)
  }

  /** The position of the first connection whose closing raises, or
      `|conns|` when none does. */
  function FirstCloseFailure(conns: seq<Conn>, f: Faults): (j: nat)
    ensures j <= |conns|
    ensures j < |conns| ==> CloseRaises(conns[j], f)
    ensures forall i :: 0 <= i < j ==> !CloseRaises(conns[i], f)
    ensures j < |conns| <==> CloseFails(conns, f)
    decreases |conns|
  {
    if |conns| == 0 then 0
    else if CloseRaises(conns[0], f) then 0
    else
      var rest := FirstCloseFailure(conns[1..], f);
      assert forall i :: 1 <= i < |conns| ==> conns[1..][i - 1] == conns[i];
      1 + rest
  }

  /** `calls` begins with the closing of `conns[..n]`: for each connection
      in order, `closeSl4aSession` and then `close`. */
  predicate ClosesFirst(calls: seq<Call>, conns: seq<Conn>, n: nat)
  {
    && n <= |conns| && 2 * n <= |calls|
    && forall i :: 0 <= i < n ==>
         calls[2 * i] == CloseSession(conns[i]) && calls[2 * i + 1] == CloseConnection(conns[i])
  }

  lemma ClosesFirstCons(conns: seq<Conn>, rest: seq<Call>, n: nat)
    requires |conns| > 0 && ClosesFirst(rest, conns[1..], n)
    ensures ClosesFirst([CloseSession(conns[0]), CloseConnection(conns[0])] + rest, conns, n + 1)
  {
    var calls := [CloseSession(conns[0]), CloseConnection(conns[0])] + rest;
    forall i | 1 <= i < n + 1
      ensures calls[2 * i] == CloseSession(conns[i]) && calls[2 * i + 1] == CloseConnection(conns[i])
    {
      assert calls[2 * i] == rest[2 * (i - 1)] && calls[2 * i + 1] == rest[2 * (i - 1) + 1];
      assert conns[1..][i - 1] == conns[i];
    }
  }

  datatype Closing = Closing(ok: bool, calls: seq<Call>)

  /** The loop of `terminate_session` over a session's connections: close
      the remote session, then the socket; stop at the first call that
      raises. */
  function CloseConns(conns: seq<Conn>, f: Faults): (r: Closing)
    ensures r.ok <==> !CloseFails(conns, f)
    ensures r.ok ==> |r.calls| == 2 * |conns|
    decreases |conns|
  {
    if |conns| == 0 then Closing(true, [])
    else if conns[0] in f.closeSession then Closing(false, [CloseSession(conns[0])])
    else if conns[0] in f.closeConnection then Closing(false, [CloseSession(conns[0]), CloseConnection(conns[0])])
    else
      var rest := CloseConns(conns[1..], f);
      assert CloseFails(conns[1..], f) <==> CloseFails(conns, f) by {
        if CloseFails(conns, f) {
          var j :| 0 <= j < |conns| && CloseRaises(conns[j], f);
          assert conns[1..][j - 1] == conns[j];
        }
        if CloseFails(conns[1..], f) {
          var j :| 0 <= j < |conns[1..]| && CloseRaises(conns[1..][j], f);
          assert conns[j + 1] == conns[1..][j];
        }
      }
      Closing(rest.ok, [CloseSession(conns[0]), CloseConnection(conns[0])] + rest.calls)
  }

  /** Closing a session closes every connection before the first failing
      one, in order: `closeSl4aSession` and then `close` for each. */
  lemma {:induction false} CloseConnsPrefix(conns: seq<Conn>, f: Faults)
    ensures ClosesFirst(CloseConns(conns, f).calls, conns, FirstCloseFailure(conns, f))
    decreases |conns|
  {
    if |conns| > 0 && conns[0] !in f.closeSession && conns[0] !in f.closeConnection {
      CloseConnsPrefix(conns[1..], f);
      ClosesFirstCons(conns, CloseConns(conns[1..], f).calls, FirstCloseFailure(conns[1..], f));
    }
  }

  /** Where closing a session stops: at the first failing connection,
      after its `closeSl4aSession`, and after its `close` too unless that
      first call raised; nothing after it is touched. */
  lemma {:induction false} CloseConnsStop(conns: seq<Conn>, f: Faults)
    ensures var r := CloseConns(conns, f); var j := FirstCloseFailure(conns, f);
      !r.ok ==>
        && j < |conns|
        && |r.calls| == 2 * j + (if conns[j] in f.closeSession then 1 else 2)
        && r.calls[2 * j] == CloseSession(conns[j])
        && (conns[j] !in f.closeSession ==> r.calls[2 * j + 1] == CloseConnection(conns[j]))
    decreases |conns|
  {
    if |conns| > 0 && conns[0] !in f.closeSession && conns[0] !in f.closeConnection {
      var j := FirstCloseFailure(conns[1..], f);
      CloseConnsStop(conns[1..], f);
      assert FirstCloseFailure(conns, f) == j + 1;
      if j < |conns| - 1 {
        assert conns[1..][j] == conns[j + 1];
      }
    }
  }

  /** Whether `terminate_session(id)` calls `clean_up` on the session's
      dispatcher: closing the connections did not raise and the key holds
      a dispatcher rather than `None`. */
  predicate CleansUp(d: Device, id: int, f: Faults)
  {
    var key := Key(d.serial, id);
    && !(id in d.sessions && CloseFails(d.sessions[id], f))
    && key in d.dispatchers && d.dispatchers[key].Some?
  }

  /** Whether `terminate_session(id)` gets as far as removing the session's
      dispatcher: it calls `clean_up`, and that call does not raise. */
  predicate DropsDispatcher(d: Device, id: int, f: Faults)
  {
    CleansUp(d, id, f) && Key(d.serial, id) !in f.cleanUp
  }

  /** `terminate_session(id)`: close the session's connections (aborting on
      the first failure), drop the session, then clean up and drop its
      dispatcher. An unknown id with no dispatcher is a no-op. */
  function TerminateSession(d: Device, id: int, f: Faults): (r: Exec<()>)
    ensures r.dev.serial == d.serial && r.dev.hPort == d.hPort && r.dev.dPort == d.dPort
    ensures r.dev.attrs == d.attrs
    ensures r.dev.sessions.Keys <= d.sessions.Keys
    ensures forall u :: u in r.dev.sessions ==> r.dev.sessions[u] == d.sessions[u]
    ensures forall u :: u in d.sessions && u != id ==> u in r.dev.sessions
    ensures r.dev.dispatchers.Keys <= d.dispatchers.Keys
    ensures forall k :: k in r.dev.dispatchers ==> r.dev.dispatchers[k] == d.dispatchers[k]
    ensures forall k :: k in d.dispatchers && k != Key(d.serial, id) ==> k in r.dev.dispatchers
    ensures id in d.sessions && CloseFails(d.sessions[id], f) ==>
      r.dev == d && r.out == Err(AgentFailure)
    ensures !(id in d.sessions && CloseFails(d.sessions[id], f)) ==> id !in r.dev.sessions
    ensures r.out.Ok? <==>
      && !(id in d.sessions && CloseFails(d.sessions[id], f))
      && var key := Key(d.serial, id);
         !(key in d.dispatchers && (d.dispatchers[key].None? || key in f.cleanUp))
    ensures r.out.Ok? ==> id !in r.dev.sessions && Key(d.serial, id) !in r.dev.dispatchers
    ensures Key(d.serial, id) in d.dispatchers ==>
      (Key(d.serial, id) in r.dev.dispatchers <==> !DropsDispatcher(d, id, f))
    ensures var key := Key(d.serial, id);
      !(id in d.sessions && CloseFails(d.sessions[id], f)) && key in d.dispatchers ==>
        r.out == (if d.dispatchers[key].None? then Err(NoneAttribute)
                  else if key in f.cleanUp then Err(AgentFailure) else Ok(()))
    ensures id !in d.sessions && Key(d.serial, id) !in d.dispatchers ==> r == Exec(d, Ok(()), [])
    ensures var key := Key(d.serial, id);
      r.calls == (if id in d.sessions then CloseConns(d.sessions[id], f) else Closing(true, [])).calls
        + (if CleansUp(d, id, f) then [CleanUp(key)] else [])
    ensures Wf(d) ==> Wf(r.dev)
  {
    var closing := if id in d.sessions then CloseConns(d.sessions[id], f) else Closing(true, []);
    if !closing.ok then Exec(d, Err(AgentFailure), closing.calls)
    else
      var dropped := d.(sessions := d.sessions - {id});
      var key := Key(d.serial, id);
      if key !in d.dispatchers then Exec(dropped, Ok(()), closing.calls)
      else
        match d.dispatchers[key]
        case None => Exec(dropped, Err(NoneAttribute), closing.calls)
        case Some(_) =>
          var calls := closing.calls + [CleanUp(key)];
          if key in f.cleanUp then Exec(dropped, Err(AgentFailure), calls)
          else Exec(dropped.(dispatchers := d.dispatchers - {key}), Ok(()), calls)
  }

  /** Closing connections makes no call other than `closeSl4aSession`
      and `close`. */
  lemma {:induction false} CloseConnsOnlyCloses(conns: seq<Conn>, f: Faults)
    ensures forall c :: c in CloseConns(conns, f).calls ==> c.CloseSession? || c.CloseConnection?
    decreases |conns|
  {
    if |conns| > 0 && conns[0] !in f.closeSession && conns[0] !in f.closeConnection {
      CloseConnsOnlyCloses(conns[1..], f);
    }
  }

  /** The calls of `terminate_session(id)`: the session's connections are
      closed in order, each with `closeSl4aSession` then `close`, up to the
      first that raises; `clean_up` is called, last and once, exactly when
      every close went through and a dispatcher (not `None`) is filed under
      the session's key. A failing close is never followed by a
      `clean_up`. */
  lemma TerminateSessionTrace(d: Device, id: int, f: Faults)
    ensures var r := TerminateSession(d, id, f);
      var conns := if id in d.sessions then d.sessions[id] else [];
      var key := Key(d.serial, id);
      && ClosesFirst(r.calls, conns, FirstCloseFailure(conns, f))
      && (CleanUp(key) in r.calls <==> CleansUp(d, id, f))
      && (CleanUp(key) in r.calls ==> r.calls[|r.calls| - 1] == CleanUp(key))
      && (!CloseFails(conns, f) ==> |r.calls| == 2 * |conns| + (if CleansUp(d, id, f) then 1 else 0))
      && (CloseFails(conns, f) ==> CleanUp(key) !in r.calls)
  {
    var conns := if id in d.sessions then d.sessions[id] else [];
    var closing := CloseConns(conns, f);
    CloseConnsPrefix(conns, f);
    CloseConnsOnlyCloses(conns, f);
    var r := TerminateSession(d, id, f);
    assert r.calls == closing.calls + (if CleansUp(d, id, f) then [CleanUp(Key(d.serial, id))] else []);
    assert r.calls[..|closing.calls|] == closing.calls;
  }

  /** Terminating one session leaves the dispatcher of every other session
      where it was. */
  lemma TerminateSessionKeepsOtherDispatchers(d: Device, id: int, f: Faults, u: int)
    requires u != id && Key(d.serial, u) in d.dispatchers
    ensures var r := TerminateSession(d, id, f);
      Key(d.serial, u) in r.dev.dispatchers && r.dev.dispatchers[Key(d.serial, u)] == d.dispatchers[Key(d.serial, u)]
  {
    KeysDistinct(d.serial);
  }

  /** The loop of `terminate_all_sessions` over a snapshot of session ids:
      a failing termination is logged and the loop goes on. */
  function TerminateEach(d: Device, ids: seq<int>, f: Faults): (r: Exec<()>)
    ensures r.out == Ok(())
    ensures r.dev.serial == d.serial && r.dev.hPort == d.hPort && r.dev.dPort == d.dPort
    ensures r.dev.attrs == d.attrs
    decreases |ids|
  {
    if |ids| == 0 then Exec(d, Ok(()), [])
    else
      var one := TerminateSession(d, ids[0], f);
      var rest := TerminateEach(one.dev, ids[1..], f);
      Exec(rest.dev, Ok(()), one.calls + rest.calls)
  }

  /** The loop drops exactly the listed sessions whose connections all
      closed; the others stay with their connections. */
  lemma {:induction false} EachSessions(d: Device, ids: seq<int>, f: Faults)
    ensures var r := TerminateEach(d, ids, f);
      && (forall u :: u in r.dev.sessions <==> u in d.sessions && (u in ids ==> CloseFails(d.sessions[u], f)))
      && (forall u :: u in r.dev.sessions ==> r.dev.sessions[u] == d.sessions[u])
    decreases |ids|
  {
    if |ids| > 0 {
      var one := TerminateSession(d, ids[0], f);
      EachSessions(one.dev, ids[1..], f);
      assert forall u :: u in ids <==> u == ids[0] || u in ids[1..];
    }
  }

  /** The loop removes a dispatcher exactly when one of the listed
      terminations gets as far as removing it; every other dispatcher
      stays filed, unchanged. */
  lemma {:induction false} EachDispatchers(d: Device, ids: seq<int>, f: Faults)
    ensures var r := TerminateEach(d, ids, f);
      && r.dev.dispatchers.Keys <= d.dispatchers.Keys
      && (forall k :: k in r.dev.dispatchers ==> r.dev.dispatchers[k] == d.dispatchers[k])
      && (forall u {:trigger DropsDispatcher(d, u, f)} :: Key(d.serial, u) in d.dispatchers ==>
            (Key(d.serial, u) in r.dev.dispatchers <==> !(u in ids && DropsDispatcher(d, u, f))))
    decreases |ids|
  {
    if |ids| > 0 {
      var one := TerminateSession(d, ids[0], f);
      var rest := TerminateEach(one.dev, ids[1..], f);
      EachDispatchers(one.dev, ids[1..], f);
      forall u | Key(d.serial, u) in d.dispatchers
        ensures Key(d.serial, u) in rest.dev.dispatchers <==> !(u in ids && DropsDispatcher(d, u, f))
      {
        DropsAfterOne(d, ids[0], f, u);
        assert u in ids <==> u == ids[0] || u in ids[1..];
        if Key(d.serial, u) in one.dev.dispatchers {
          assert DropsDispatcher(one.dev, u, f) <==> u != ids[0] && DropsDispatcher(d, u, f);
        }
      }
    }
  }

  /** A dispatcher filed under the key of no registered session, as one
      whose `clean_up` raised after its session was deleted. */
  predicate Orphan(d: Device, k: string)
  {
    k in d.dispatchers && forall u :: u in d.sessions ==> k != Key(d.serial, u)
  }

  /** The loop leaves alone a dispatcher filed under no listed session's
      key, as one whose `clean_up` raised after its session was deleted. */
  lemma {:induction false} EachKeepsOrphan(d: Device, ids: seq<int>, f: Faults, k: string)
    requires k in d.dispatchers && forall u :: u in ids ==> k != Key(d.serial, u)
    ensures k in TerminateEach(d, ids, f).dev.dispatchers
    decreases |ids|
  {
    if |ids| > 0 {
      var one := TerminateSession(d, ids[0], f);
      assert k != Key(d.serial, ids[0]);
      assert forall u :: u in ids[1..] ==> u in ids;
      EachKeepsOrphan(one.dev, ids[1..], f, k);
    }
  }

  /** The loop keeps the registry well-formed. */
  lemma {:induction false} EachWf(d: Device, ids: seq<int>, f: Faults)
    requires Wf(d)
    ensures Wf(TerminateEach(d, ids, f).dev)
    decreases |ids|
  {
    if |ids| > 0 {
      EachWf(TerminateSession(d, ids[0], f).dev, ids[1..], f);
    }
  }

  /** After `terminate_session(id)`, a session's dispatcher is still filed
      exactly when that call did not drop it, and a later termination
      drops it exactly when it would have dropped it before. */
  lemma DropsAfterOne(d: Device, id: int, f: Faults, u: int)
    requires Key(d.serial, u) in d.dispatchers
    ensures var one := TerminateSession(d, id, f).dev;
      && (Key(d.serial, u) in one.dispatchers <==> !(u == id && DropsDispatcher(d, u, f)))
      && (Key(d.serial, u) in one.dispatchers ==>
            (DropsDispatcher(one, u, f) <==> u != id && DropsDispatcher(d, u, f)))
  {
    KeysDistinct(d.serial);
  }

  /** `terminate_all_sessions`: terminate every session of a snapshot of the
      ids, then remove the port forward and forget the host port. With no
      session at all it does nothing, port included. */
  function TerminateAllSessions(d: Device, f: Faults): (r: Exec<()>)
    ensures |d.sessions| == 0 ==> r == Exec(d, Ok(()), [])
    ensures r.out == Ok(())
    ensures r.dev.serial == d.serial && r.dev.dPort == d.dPort && r.dev.attrs == d.attrs
    ensures |d.sessions| > 0 && Truthy(d.hPort) ==>
      r.dev.hPort == None && |r.calls| > 0 && r.calls[|r.calls| - 1] == RemoveForward(d.hPort.value)
    ensures |d.sessions| > 0 && !Truthy(d.hPort) ==> r.dev.hPort == d.hPort
    ensures forall u :: u in r.dev.sessions <==> u in d.sessions && CloseFails(d.sessions[u], f)
    ensures forall u :: u in r.dev.sessions ==> r.dev.sessions[u] == d.sessions[u]
    ensures f == NoFaults ==> |r.dev.sessions| == 0
    ensures r.dev.dispatchers.Keys <= d.dispatchers.Keys
    ensures forall k :: k in r.dev.dispatchers ==> r.dev.dispatchers[k] == d.dispatchers[k]
    ensures forall u {:trigger d.sessions[u]} :: u in d.sessions && Key(d.serial, u) in d.dispatchers ==>
      (Key(d.serial, u) in r.dev.dispatchers <==> !DropsDispatcher(d, u, f))
    ensures f == NoFaults && Wf(d) ==> forall u :: u in d.sessions ==> Key(d.serial, u) !in r.dev.dispatchers
    ensures forall k :: Orphan(d, k) ==>
      k in r.dev.dispatchers
    ensures Wf(d) ==> Wf(r.dev)
  {
    if |d.sessions| == 0 then Exec(d, Ok(()), [])
    else
      var ids := SessionIds(d);
      Teardown(d, ids, f);
      ReleasePort(TerminateEach(d, ids, f))
  }

  /** The contract of `TerminateAllSessions` on a device with sessions, for
      any list of exactly its session ids. */
  lemma Teardown(d: Device, ids: seq<int>, f: Faults)
    requires forall u :: u in ids <==> u in d.sessions
    ensures var r := ReleasePort(TerminateEach(d, ids, f));
      && r.out == Ok(())
      && r.dev.serial == d.serial && r.dev.dPort == d.dPort && r.dev.attrs == d.attrs
      && (|d.sessions| > 0 && Truthy(d.hPort) ==>
            r.dev.hPort == None && |r.calls| > 0 && r.calls[|r.calls| - 1] == RemoveForward(d.hPort.value))
      && (|d.sessions| > 0 && !Truthy(d.hPort) ==> r.dev.hPort == d.hPort)
      && (forall u :: u in r.dev.sessions <==> u in d.sessions && CloseFails(d.sessions[u], f))
      && (forall u :: u in r.dev.sessions ==> r.dev.sessions[u] == d.sessions[u])
      && (f == NoFaults ==> |r.dev.sessions| == 0)
      && r.dev.dispatchers.Keys <= d.dispatchers.Keys
      && (forall k :: k in r.dev.dispatchers ==> r.dev.dispatchers[k] == d.dispatchers[k])
      && (forall u {:trigger d.sessions[u]} :: u in d.sessions && Key(d.serial, u) in d.dispatchers ==>
            (Key(d.serial, u) in r.dev.dispatchers <==> !DropsDispatcher(d, u, f)))
      && (f == NoFaults && Wf(d) ==> forall u :: u in d.sessions ==> Key(d.serial, u) !in r.dev.dispatchers)
      && (forall k :: Orphan(d, k) ==> k in r.dev.dispatchers)
      && (Wf(d) ==> Wf(r.dev))
  {
    TeardownPort(d, ids, f);
    TeardownSessions(d, ids, f);
    if f == NoFaults {
      TeardownNoFaults(d, ids);
      TeardownDropsAll(d, ids);
    }
    TeardownDispatchers(d, ids, f);
    TeardownWf(d, ids, f);
    TeardownOrphans(d, ids, f);
  }

  // The lemmas below split the proof of `TerminateAllSessions`'s contract
  // (its port, its sessions, its dispatchers). They take the snapshot as
  // any list of exactly the session ids: the order does not matter.

  lemma TeardownPort(d: Device, ids: seq<int>, f: Faults)
    ensures var r := ReleasePort(TerminateEach(d, ids, f));
      && r.out == Ok(())
      && r.dev.serial == d.serial && r.dev.dPort == d.dPort && r.dev.attrs == d.attrs
      && (|d.sessions| > 0 && Truthy(d.hPort) ==>
            r.dev.hPort == None && |r.calls| > 0 && r.calls[|r.calls| - 1] == RemoveForward(d.hPort.value))
      && (|d.sessions| > 0 && !Truthy(d.hPort) ==> r.dev.hPort == d.hPort)
  {
  }

  lemma TeardownSessions(d: Device, ids: seq<int>, f: Faults)
    requires forall u :: u in ids <==> u in d.sessions
    ensures var r := ReleasePort(TerminateEach(d, ids, f));
      && (forall u :: u in r.dev.sessions <==> u in d.sessions && CloseFails(d.sessions[u], f))
      && (forall u :: u in r.dev.sessions ==> r.dev.sessions[u] == d.sessions[u])
  {
    EachSessions(d, ids, f);
  }

  lemma TeardownNoFaults(d: Device, ids: seq<int>)
    requires forall u :: u in ids <==> u in d.sessions
    ensures |ReleasePort(TerminateEach(d, ids, NoFaults)).dev.sessions| == 0
  {
    var each := TerminateEach(d, ids, NoFaults);
    EachSessions(d, ids, NoFaults);
    assert forall u :: u !in each.dev.sessions;
    assert each.dev.sessions == map[];
  }

  lemma TeardownDispatchers(d: Device, ids: seq<int>, f: Faults)
    requires forall u :: u in ids <==> u in d.sessions
    ensures var r := ReleasePort(TerminateEach(d, ids, f));
      && r.dev.dispatchers.Keys <= d.dispatchers.Keys
      && (forall k :: k in r.dev.dispatchers ==> r.dev.dispatchers[k] == d.dispatchers[k])
      && (forall u {:trigger d.sessions[u]} :: u in d.sessions && Key(d.serial, u) in d.dispatchers ==>
            (Key(d.serial, u) in r.dev.dispatchers <==> !DropsDispatcher(d, u, f)))
  {
    EachDispatchers(d, ids, f);
  }

  lemma TeardownWf(d: Device, ids: seq<int>, f: Faults)
    ensures Wf(d) ==> Wf(ReleasePort(TerminateEach(d, ids, f)).dev)
  {
    if Wf(d) {
      EachWf(d, ids, f);
    }
  }

  lemma TeardownDropsAll(d: Device, ids: seq<int>)
    requires forall u :: u in ids <==> u in d.sessions
    ensures var r := ReleasePort(TerminateEach(d, ids, NoFaults));
      Wf(d) ==> forall u :: u in d.sessions ==> Key(d.serial, u) !in r.dev.dispatchers
  {
    var each := TerminateEach(d, ids, NoFaults);
    EachDispatchers(d, ids, NoFaults);
    if Wf(d) {
      forall u | u in d.sessions
        ensures Key(d.serial, u) !in each.dev.dispatchers
      {
        if Key(d.serial, u) in d.dispatchers {
          assert DropsDispatcher(d, u, NoFaults);
        }
      }
    }
  }

  lemma TeardownOrphans(d: Device, ids: seq<int>, f: Faults)
    requires forall u :: u in ids <==> u in d.sessions
    ensures var r := ReleasePort(TerminateEach(d, ids, f));
      forall k :: Orphan(d, k) ==>
        k in r.dev.dispatchers
  {
    forall k | Orphan(d, k)
      ensures k in TerminateEach(d, ids, f).dev.dispatchers
    {
      EachKeepsOrphan(d, ids, f, k);
    }
  }

  /** The snapshot `terminate_all_sessions` walks: every session id once.
      The model takes them smallest first; the outcome does not depend on
      the order. */
  function SessionIds(d: Device): (ids: seq<int>)
    ensures forall u :: u in ids <==> u in d.sessions
  {
    Enumerate(d.sessions.Keys)
  }

  /** The ids of a set, smallest first. Only membership is exported, so that
      proofs about the teardown loop do not carry the ordering. */
  function Enumerate(s: set<int>): (ids: seq<int>)
    ensures forall u :: u in ids <==> u in s
    decreases |s|
  {
    if s == {} then []
    else
      var m := Order.MinInt(s);
      [m] + Enumerate(s - {m})
  }

  /** The end of `terminate_all_sessions`: remove the forward of a set host
      port and forget it. */
  function ReleasePort(e: Exec<()>): (r: Exec<()>)
    ensures r.dev == e.dev.(hPort := r.dev.hPort) && r.out == e.out
    ensures r.dev.sessions == e.dev.sessions && r.dev.dispatchers == e.dev.dispatchers
    ensures Truthy(e.dev.hPort) ==>
      && r.dev.hPort == None && r.calls == e.calls + [RemoveForward(e.dev.hPort.value)]
      && |r.calls| > 0 && r.calls[|r.calls| - 1] == RemoveForward(e.dev.hPort.value)
    ensures !Truthy(e.dev.hPort) ==> r == e
  {
    if Truthy(e.dev.hPort) then
      Exec(e.dev.(hPort := None), e.out, e.calls + [RemoveForward(e.dev.hPort.value)])
    else e
  }

  /** On an aligned registry and without remote failures, tearing down
      leaves no session and no dispatcher. */
  lemma TerminateAllClears(d: Device)
    requires Aligned(d)
    ensures var r := TerminateAllSessions(d, NoFaults);
      r.dev.sessions == map[] && r.dev.dispatchers == map[]
  {
  }

  /** Tearing down twice: the second call finds nothing and does nothing. */
  lemma TerminateAllTwice(d: Device, g: Faults)
    ensures var r := TerminateAllSessions(d, NoFaults);
      TerminateAllSessions(r.dev, g) == Exec(r.dev, Ok(()), [])
  {
  }

  /** Number of times `c` occurs in a call trace. */
  function Occurrences(calls: seq<Call>, c: Call): nat
  {
    if |calls| == 0 then 0
    else (if calls[0] == c then 1 else 0) + Occurrences(calls[1..], c)
  }

  lemma OccurrencesAppend(a: seq<Call>, b: seq<Call>, c: Call)
    ensures Occurrences(a + b, c) == Occurrences(a, c) + Occurrences(b, c)
  {
    if |a| > 0 {
      OccurrencesAppend(a[1..], b, c);
      assert (a + b)[1..] == a[1..] + b;
    } else {
      assert a + b == b;
    }
  }

  /** The adb and sl4a answers `get_droid` meets, in order: whether the
      current host port is free, the port `get_available_host_port` hands
      out, the answers to the first and the retried session request, and
      whether the event connection is accepted; then, for `create`, whether
      starting the dispatcher (`ed.start()`) succeeds. */
  datatype Bootstrap = Bootstrap(portFree: bool, freshPort: int, first: Reply, second: Reply, eventJoin: bool, eventStart: bool)

  /** The host port `get_droid` ends up with: a fresh one when the current
      one is unset (or 0) or no longer free. */
  function ChosenPort(d: Device, boot: Bootstrap): Option<int>
  {
    if !Truthy(d.hPort) || !boot.portFree then Some(boot.freshPort) else d.hPort
  }

  /** The `try`/`except` around `start_new_session` in `get_droid`: on any
      exception (a refusal or a duplicate uid alike) start sl4a and ask once
      more; a second failure propagates. */
  function StartWithRetry(d: Device, first: Reply, second: Reply): (r: Exec<Conn>)
    ensures r.calls ==
      if Opens(d, first) then [OpenSession(d.hPort)]
      else [OpenSession(d.hPort), StartAgent, OpenSession(d.hPort)]
    ensures r.out.Ok? <==> Opens(d, first) || Opens(d, second)
    ensures r.out.Err? ==> r.dev == d
    ensures r.out.Ok? ==>
      var uid := if Opens(d, first) then first.uid else second.uid;
      && uid !in d.sessions
      && r.out.value == Conn(uid, d.hPort, false)
      && r.dev == d.(sessions := d.sessions[uid := [r.out.value]])
    ensures Occurrences(r.calls, StartAgent) == if Opens(d, first) then 0 else 1
    ensures Wf(d) ==> Wf(r.dev)
  {
    var open := OpenSession(d.hPort);
    assert Occurrences([open], StartAgent) == 0;
    assert Occurrences([open, StartAgent, open], StartAgent) == 1 by {
      assert [open, StartAgent, open][1..] == [StartAgent, open];
      assert [StartAgent, open][1..] == [open];
    }
    var tried := StartNewSession(d, first);
    if tried.out.Ok? then tried
    else
      var retried := StartNewSession(d, second);
      Exec(retried.dev, retried.out, tried.calls + [StartAgent] + retried.calls)
  }

  /** `get_droid(handle_event)`: settle the host port, forward it, start a
      session (retrying once after starting sl4a), then, when events are
      wanted, fetch or make the session's dispatcher. */
  function GetDroid(d: Device, handleEvent: bool, boot: Bootstrap): (r: Exec<(Conn, Option<Dispatcher>)>)
    ensures r.dev.hPort == ChosenPort(d, boot) && r.dev.hPort.Some?
    ensures Truthy(d.hPort) && boot.portFree ==> r.dev.hPort == d.hPort
    ensures r.dev.serial == d.serial && r.dev.dPort == d.dPort && r.dev.attrs == d.attrs
    ensures |r.calls| > 0 && r.calls[0] == Forward(r.dev.hPort.value, d.dPort)
    ensures Wf(d) ==> Wf(r.dev)
  {
    var port := ChosenPort(d, boot);
    var moved := d.(hPort := port);
    assert Wf(d) ==> Wf(moved) by {
      assert moved.sessions == d.sessions && moved.dispatchers == d.dispatchers && moved.serial == d.serial;
    }
    var started := StartWithRetry(moved, boot.first, boot.second);
    var attached := AttachDispatcher(started, handleEvent, boot.eventJoin);
    Exec(attached.dev, attached.out, [Forward(port.value, d.dPort)] + attached.calls)
  }

  /** The tail of `get_droid`: when a session was started and events are
      wanted, `get_dispatcher` on it; otherwise pass the outcome through. */
  function AttachDispatcher(started: Exec<Conn>, handleEvent: bool, granted: bool): (r: Exec<(Conn, Option<Dispatcher>)>)
    ensures r.dev.sessions == started.dev.sessions
    ensures r.dev == started.dev.(dispatchers := r.dev.dispatchers)
    ensures started.out.Err? ==> r == Exec(started.dev, Err(started.out.error), started.calls)
    ensures !handleEvent ==> r.dev == started.dev && r.calls == started.calls
    ensures !handleEvent && started.out.Ok? ==> r.out == Ok((started.out.value, None))
    ensures r.out.Ok? ==> started.out.Ok? && r.out.value.0 == started.out.value
    ensures r.out.Ok? && handleEvent ==>
      var key := Key(started.dev.serial, r.out.value.0.uid);
      r.out.value.1.Some? && key in r.dev.dispatchers && r.dev.dispatchers[key] == r.out.value.1
    ensures r.out.Ok? && handleEvent ==>
      r.dev.dispatchers == started.dev.dispatchers[Key(started.dev.serial, r.out.value.0.uid) := r.out.value.1]
    ensures r.out.Err? ==> r.dev.dispatchers == started.dev.dispatchers
    ensures handleEvent && started.out.Ok? ==>
      var key := Key(started.dev.serial, started.out.value.uid);
      r.out.Ok? <==>
        if key in started.dev.dispatchers then started.dev.dispatchers[key].Some?
        else started.out.value.uid in started.dev.sessions && granted
    ensures Occurrences(r.calls, StartAgent) == Occurrences(started.calls, StartAgent)
    ensures Wf(started.dev) ==> Wf(r.dev)
  {
    match started.out
    case Err(e) => Exec(started.dev, Err(e), started.calls)
    case Ok(droid) =>
      if !handleEvent then Exec(started.dev, Ok((droid, None)), started.calls)
      else
        var got := GetDispatcher(started.dev, droid, granted);
        OccurrencesAppend(started.calls, got.calls, StartAgent);
        assert Occurrences(got.calls, StartAgent) == 0 by {
          if |got.calls| == 1 {
            assert got.calls[1..] == [];
          }
        }
        match got.out
        case Err(e) => Exec(got.dev, Err(e), started.calls + got.calls)
        case Ok(ed) => Exec(got.dev, Ok((droid, Some(ed))), started.calls + got.calls)
  }

  /** `get_droid` adds one session, on the chosen port, when either
      session request opens one, and fails leaving the sessions alone
      otherwise. */
  lemma GetDroidSessions(d: Device, handleEvent: bool, boot: Bootstrap)
    ensures var r := GetDroid(d, handleEvent, boot);
      && (!Opens(d, boot.first) && !Opens(d, boot.second) ==> r.out.Err? && r.dev.sessions == d.sessions)
      && (Opens(d, boot.first) || Opens(d, boot.second) ==>
            var uid := if Opens(d, boot.first) then boot.first.uid else boot.second.uid;
            && uid !in d.sessions
            && r.dev.sessions == d.sessions[uid := [Conn(uid, r.dev.hPort, false)]]
            && (r.out.Ok? ==> r.out.value.0 == Conn(uid, r.dev.hPort, false)))
  {
  }

  /** Without event handling `get_droid` succeeds exactly when a session
      opens and leaves the dispatchers alone. With it, it succeeds exactly
      when a session opens and its key either holds a dispatcher or is
      unfiled and the event connection is granted; a success files the
      dispatcher it hands back under the new session's key and touches no
      other key. A failure leaves the dispatchers as they were. */
  lemma GetDroidDispatcher(d: Device, handleEvent: bool, boot: Bootstrap)
    ensures var r := GetDroid(d, handleEvent, boot);
      && (!handleEvent ==> r.dev.dispatchers == d.dispatchers)
      && (!handleEvent ==> (r.out.Ok? <==> Opens(d, boot.first) || Opens(d, boot.second)))
      && (r.out.Ok? && !handleEvent ==> r.out.value.1 == None)
      && (r.out.Ok? && handleEvent ==>
            var key := Key(d.serial, r.out.value.0.uid);
            && r.out.value.1.Some? && key in r.dev.dispatchers && r.dev.dispatchers[key] == r.out.value.1
            && r.dev.dispatchers == d.dispatchers[key := r.out.value.1])
      && (r.out.Err? ==> r.dev.dispatchers == d.dispatchers)
      && (handleEvent ==>
            (r.out.Ok? <==>
               && (Opens(d, boot.first) || Opens(d, boot.second))
               && var key := Key(d.serial, if Opens(d, boot.first) then boot.first.uid else boot.second.uid);
                  if key in d.dispatchers then d.dispatchers[key].Some? else boot.eventJoin))
  {
  }

  /** `get_droid` starts sl4a exactly when the first session request fails,
      and never more than once. */
  lemma GetDroidStartsAgentOnce(d: Device, handleEvent: bool, boot: Bootstrap)
    ensures Occurrences(GetDroid(d, handleEvent, boot).calls, StartAgent) == (if Opens(d, boot.first) then 0 else 1)
  {
    var port := ChosenPort(d, boot);
    var started := StartWithRetry(d.(hPort := port), boot.first, boot.second);
    var attached := AttachDispatcher(started, handleEvent, boot.eventJoin);
    OccurrencesAppend([Forward(port.value, d.dPort)], attached.calls, StartAgent);
  }

  /** `get_droid()` with event handling keeps sessions and dispatchers one
      to one when it succeeds. */
  lemma GetDroidKeepsAligned(d: Device, boot: Bootstrap)
    requires Aligned(d)
    requires GetDroid(d, true, boot).out.Ok?
    ensures Aligned(GetDroid(d, true, boot).dev)
  {
    KeysDistinct(d.serial);
    GetDroidSessions(d, true, boot);
    GetDroidDispatcher(d, true, boot);
  }
}
