/** The module-level functions of android_device.py that work on lists of
    devices: building `AndroidDevice` objects from a test bed's config
    (`get_instances`, `get_instances_with_configs`), bringing them up and
    tearing them down (`create`, `destroy`), and picking devices out of a
    list (`filter_devices`, `get_device`). */
module Fleet {
  import opened Results
  import opened Registry
  import opened Config
  import opened DeviceList
  import opened Accessors

  /** A device as its constructor leaves it: default ports, no session, no
      dispatcher. */
  predicate Fresh(d: Device)
  {
    d.hPort == None && d.dPort == DefaultDevicePort && d.sessions == map[] && d.dispatchers == map[]
  }

  /** `get_instances(serials)`: one fresh device per serial, in order. */
  function GetInstances(serials: seq<string>): (r: seq<Device>)
    ensures |r| == |serials|
    ensures forall i :: 0 <= i < |r| ==> r[i].serial == serials[i] && Fresh(r[i]) && r[i].attrs == map[]
  {
    seq(|serials|, i requires 0 <= i < |serials| => NewDevice(serials[i]))
  }

  /** One device entry of a test bed config: the `serial` entry (absent when
      the config has none) and the other entries, as `pop` leaves them. */
  datatype DeviceConfig = DeviceConfig(serial: Option<string>, rest: seq<(string, Value)>)

  /** A config entry that yields a device: it names a serial, and none of
      its other entries clashes with an attribute of a new device. */
  predicate Loadable(c: DeviceConfig)
  {
    c.serial.Some? && forall i :: 0 <= i < |c.rest| ==> !Clashes(NewDevice(c.serial.value), c.rest, i)
  }

  /** The exception a config entry that is not loadable raises: the
      missing serial, or the first entry that clashes, named together with
      the device's serial. */
  predicate RefusedWith(c: DeviceConfig, e: Error)
  {
    match c.serial
    case None => e == ControllerError(MissingSerial)
    case Some(serial) =>
      exists i :: 0 <= i < |c.rest| && FirstClash(NewDevice(serial), c.rest, i) && e == ControllerError(AttributeExists(c.rest[i].0, serial))
  }

  /** One turn of `get_instances_with_configs`: pop the serial, build the
      device, load the rest of the config onto it. */
  function Instance(c: DeviceConfig): (r: Result<Device>)
    ensures r.Ok? <==> Loadable(c)
    ensures r.Ok? ==> r.value.serial == c.serial.value && Fresh(r.value) && SetsAll(map[], c.rest, r.value.attrs)
    ensures r.Err? ==> RefusedWith(c, r.error)
  {
    match c.serial
    case None => Err(ControllerError(MissingSerial))
    case Some(serial) =>
      var loaded := LoadConfig(NewDevice(serial), c.rest);
      if loaded.out.Err? then Err(loaded.out.error) else Ok(loaded.dev)
  }

  /** A loop that builds one device per config entry and stops at the
      first exception. */
  function Collect(configs: seq<DeviceConfig>, make: DeviceConfig -> Result<Device>): (r: Result<seq<Device>>)
    ensures r.Ok? <==> forall i :: 0 <= i < |configs| ==> make(configs[i]).Ok?
    ensures r.Ok? ==> |r.value| == |configs| && forall i :: 0 <= i < |configs| ==> r.value[i] == make(configs[i]).value
    ensures r.Err? ==> exists i ::
      && 0 <= i < |configs| && make(configs[i]).Err? && r.error == make(configs[i]).error
      && forall j :: 0 <= j < i ==> make(configs[j]).Ok?
    decreases |configs|
  {
    if |configs| == 0 then Ok([])
    else
      var first := make(configs[0]);
      if first.Err? then Err(first.error)
      else
        var tail := configs[1..];
        var rest := Collect(tail, make);
        assert forall i :: 1 <= i < |configs| ==> tail[i - 1] == configs[i];
        if rest.Err? then
          ghost var i :| 0 <= i < |tail| && make(tail[i]).Err? && rest.error == make(tail[i]).error
            && forall j :: 0 <= j < i ==> make(tail[j]).Ok?;
          assert configs[i + 1] == tail[i];
          rest
        else
          var devs := [first.value] + rest.value;
          assert forall i :: 1 <= i < |configs| ==> devs[i] == rest.value[i - 1];
          Ok(devs)
  }

  /** `get_instances_with_configs(configs)`: a device per entry, each with
      its config loaded; the first entry without a serial, or whose config
      cannot be loaded, raises `ControllerError`. */
  function GetInstancesWithConfigs(configs: seq<DeviceConfig>): (r: Result<seq<Device>>)
    ensures r.Ok? <==> forall i :: 0 <= i < |configs| ==> Loadable(configs[i])
    ensures r.Ok? ==> |r.value| == |configs| && forall i :: 0 <= i < |configs| ==>
      && r.value[i].serial == configs[i].serial.value
      && Fresh(r.value[i])
      && SetsAll(map[], configs[i].rest, r.value[i].attrs)
    ensures r.Err? ==> exists i ::
      && 0 <= i < |configs| && !Loadable(configs[i])
      && (forall j :: 0 <= j < i ==> Loadable(configs[j]))
      && RefusedWith(configs[i], r.error)
  {
    Collect(configs, Instance)
  }

  // ----- filtering -----

  /** `filter_devices(ads, func)`: the devices `func` accepts, in order. */
  function FilterDevices(ads: seq<Device>, keep: Device -> bool): (r: seq<Device>)
    ensures |r| <= |ads|
    ensures forall d :: d in r <==> d in ads && keep(d)
  {
    if |ads| == 0 then []
    else (if keep(ads[0]) then [ads[0]] else []) + FilterDevices(ads[1..], keep)
  }

  /** Filtering a concatenation filters each part: the filter keeps the
      relative order of the devices it accepts. */
  lemma {:induction false} FilterAppend(a: seq<Device>, b: seq<Device>, keep: Device -> bool)
    ensures FilterDevices(a + b, keep) == FilterDevices(a, keep) + FilterDevices(b, keep)
  {
    if |a| == 0 {
      assert a + b == b;
    } else {
      FilterAppend(a[1..], b, keep);
      assert a + b == [a[0]] + (a[1..] + b);
      assert a == [a[0]] + a[1..];
      FilterCons(a[0], a[1..] + b, keep);
      FilterCons(a[0], a[1..], keep);
      var head := if keep(a[0]) then [a[0]] else [];
      var fa, fb := FilterDevices(a[1..], keep), FilterDevices(b, keep);
      assert head + (fa + fb) == (head + fa) + fb;
    }
  }

  /** One step of the filter: the first device is kept or dropped on its own. */
  lemma FilterCons(x: Device, rest: seq<Device>, keep: Device -> bool)
    ensures FilterDevices([x] + rest, keep) == (if keep(x) then [x] else []) + FilterDevices(rest, keep)
  {
    assert ([x] + rest)[1..] == rest;
  }

  /** Filtering twice with the same condition is filtering once. */
  lemma {:induction false} FilterIdempotent(ads: seq<Device>, keep: Device -> bool)
    ensures FilterDevices(FilterDevices(ads, keep), keep) == FilterDevices(ads, keep)
  {
    if |ads| > 0 {
      FilterIdempotent(ads[1..], keep);
      FilterAppend(if keep(ads[0]) then [ads[0]] else [], FilterDevices(ads[1..], keep), keep);
    }
  }

  /** The number of devices `keep` accepts, counted from the back. */
  function Count(ads: seq<Device>, keep: Device -> bool): nat
  {
    if |ads| == 0 then 0
    else Count(ads[..|ads| - 1], keep) + (if keep(ads[|ads| - 1]) then 1 else 0)
  }

  /** The filter keeps exactly as many devices as the condition accepts. */
  lemma {:induction false} FilterCount(ads: seq<Device>, keep: Device -> bool)
    ensures |FilterDevices(ads, keep)| == Count(ads, keep)
  {
    if |ads| > 0 {
      var init := ads[..|ads| - 1];
      FilterCount(init, keep);
      FilterAppend(init, [ads[|ads| - 1]], keep);
      assert init + [ads[|ads| - 1]] == ads;
    }
  }

  /** The condition `get_device` builds from its keyword arguments: the
      device has every named attribute, each equal to the given value. */
  predicate Matches(d: Device, kwargs: seq<(string, Value)>)
  {
    forall i :: 0 <= i < |kwargs| ==> HasAttr(d, kwargs[i].0) && GetAttr(d, kwargs[i].0) == Some(kwargs[i].1)
  }

  /** A device built from a config entry is the one `get_device`'s filter
      accepts for that entry: its serial and every entry of its config
      match. */
  lemma InstanceMatchesItsConfig(c: DeviceConfig)
    requires Loadable(c)
    ensures Matches(Instance(c).value, [("serial", Str(c.serial.value))] + c.rest)
  {
    var d := Instance(c).value;
    var kwargs := [("serial", Str(c.serial.value))] + c.rest;
    forall i | 0 <= i < |kwargs|
      ensures HasAttr(d, kwargs[i].0) && GetAttr(d, kwargs[i].0) == Some(kwargs[i].1)
    {
      if i > 0 {
        assert kwargs[i] == c.rest[i - 1];
        assert !Clashes(NewDevice(c.serial.value), c.rest, i - 1);
      }
    }
  }

  function Matcher(kwargs: seq<(string, Value)>): Device -> bool
  {
    d => Matches(d, kwargs)
  }

  function Serials(ads: seq<Device>): (r: seq<string>)
    ensures |r| == |ads| && forall i :: 0 <= i < |ads| ==> r[i] == ads[i].serial
  {
    seq(|ads|, i requires 0 <= i < |ads| => ads[i].serial)
  }

  /** The decision `get_device` makes on the filtered list: its only
      device, or `AndroidDeviceError` when it is empty or holds several,
      the latter naming their serials. */
  function PickOne(ads: seq<Device>, keep: Device -> bool): (r: Result<Device>)
    ensures r.Ok? ==> r.value in ads && keep(r.value)
    ensures r.Err? ==> r.error.DeviceError?
  {
    var filtered := FilterDevices(ads, keep);
    if |filtered| == 0 then Err(DeviceError(NoMatch))
    else if |filtered| == 1 then
      assert filtered[0] in filtered;
      Ok(filtered[0])
    else Err(DeviceError(SeveralMatched(Serials(filtered))))
  }

  lemma PickOneUnique(ads: seq<Device>, keep: Device -> bool)
    ensures PickOne(ads, keep).Ok? <==> Count(ads, keep) == 1
    ensures PickOne(ads, keep).Ok? ==> forall d :: d in ads && keep(d) ==> d == PickOne(ads, keep).value
  {
    FilterCount(ads, keep);
    var filtered := FilterDevices(ads, keep);
    if |filtered| == 1 {
      assert filtered == [filtered[0]];
      forall d | d in ads && keep(d)
        ensures d == filtered[0]
      {
        assert d in filtered;
      }
    }
  }

  lemma PickOneNoMatch(ads: seq<Device>, keep: Device -> bool)
    ensures PickOne(ads, keep) == Err(DeviceError(NoMatch)) <==> forall d :: d in ads ==> !keep(d)
  {
    var filtered := FilterDevices(ads, keep);
    if |filtered| > 0 {
      assert filtered[0] in filtered;
    }
  }

  lemma PickOneSeveral(ads: seq<Device>, keep: Device -> bool)
    requires Count(ads, keep) >= 2
    ensures var r := PickOne(ads, keep);
      && r.Err? && r.error.reason.SeveralMatched?
      && |r.error.reason.serials| == Count(ads, keep)
      && forall s :: s in r.error.reason.serials ==> exists d :: d in ads && keep(d) && d.serial == s
  {
    FilterCount(ads, keep);
    var filtered := FilterDevices(ads, keep);
    var serials := Serials(filtered);
    forall s | s in serials
      ensures exists d :: d in ads && keep(d) && d.serial == s
    {
      var i :| 0 <= i < |serials| && serials[i] == s;
      assert filtered[i] in filtered;
    }
  }

  /** `get_device(ads, **kwargs)`: the one device matching every keyword;
      none, or more than one, raises `AndroidDeviceError`, the latter
      naming the serials that matched. */
  function GetDevice(ads: seq<Device>, kwargs: seq<(string, Value)>): (r: Result<Device>)
    ensures r.Ok? ==> r.value in ads && Matches(r.value, kwargs)
    ensures r.Err? ==> r.error.DeviceError?
  {
    PickOne(ads, Matcher(kwargs))
  }

  /** `get_device` returns a device exactly when one device matches, and
      then every matching device is that one. */
  lemma GetDeviceUnique(ads: seq<Device>, kwargs: seq<(string, Value)>)
    ensures GetDevice(ads, kwargs).Ok? <==> Count(ads, Matcher(kwargs)) == 1
    ensures GetDevice(ads, kwargs).Ok? ==>
      forall d :: d in ads && Matches(d, kwargs) ==> d == GetDevice(ads, kwargs).value
  {
    PickOneUnique(ads, Matcher(kwargs));
    forall d | d in ads && Matches(d, kwargs)
      ensures Matcher(kwargs)(d)
    {
    }
  }

  /** `get_device` reports "no match" exactly when no device matches. */
  lemma GetDeviceNoMatch(ads: seq<Device>, kwargs: seq<(string, Value)>)
    ensures GetDevice(ads, kwargs) == Err(DeviceError(NoMatch)) <==> forall d :: d in ads ==> !Matches(d, kwargs)
  {
    PickOneNoMatch(ads, Matcher(kwargs));
    assert forall d :: Matcher(kwargs)(d) == Matches(d, kwargs);
  }

  /** When several devices match, `get_device` names the serial of each of
      them. */
  lemma GetDeviceSeveral(ads: seq<Device>, kwargs: seq<(string, Value)>)
    requires Count(ads, Matcher(kwargs)) >= 2
    ensures var r := GetDevice(ads, kwargs);
      && r.Err? && r.error.reason.SeveralMatched?
      && |r.error.reason.serials| == Count(ads, Matcher(kwargs))
      && forall s :: s in r.error.reason.serials ==> exists d :: d in ads && Matches(d, kwargs) && d.serial == s
  {
    PickOneSeveral(ads, Matcher(kwargs));
    assert forall d :: Matcher(kwargs)(d) == Matches(d, kwargs);
  }

  // ----- bringing devices up and down -----

  /** What `create` is given: no config at all (or a falsy one), a list of
      serials, or a list of device configs. An empty list of either kind is
      `[]` and means every attached device. */
  datatype Configs = Absent | SerialList(serials: seq<string>) | ConfigList(records: seq<DeviceConfig>)

  /** The outcome of `create`: the devices or the exception, and every
      remote call made on the way. */
  datatype Fleet = Fleet(out: Result<seq<Device>>, calls: seq<Call>)

  /** The devices `create` asks for, before any is checked or started. */
  function Requested(configs: Configs, adbOutput: string): (r: Result<seq<Device>>)
    ensures configs == Absent ==> r == Ok([])
    ensures r.Ok? ==> forall i :: 0 <= i < |r.value| ==> Fresh(r.value[i])
    ensures configs.SerialList? ==>
      && r.Ok?
      && Serials(r.value) == (if |configs.serials| == 0 then ListAdbDevices(adbOutput) else configs.serials)
      && forall i :: 0 <= i < |r.value| ==> r.value[i].attrs == map[]
    ensures configs.ConfigList? && |configs.records| == 0 ==>
      && r.Ok? && Serials(r.value) == ListAdbDevices(adbOutput)
      && forall i :: 0 <= i < |r.value| ==> r.value[i].attrs == map[]
    ensures configs.ConfigList? && |configs.records| > 0 ==>
      var records := configs.records;
      && (r.Ok? <==> forall i :: 0 <= i < |records| ==> Loadable(records[i]))
      && (r.Ok? ==> |r.value| == |records| && forall i :: 0 <= i < |records| ==>
            r.value[i].serial == records[i].serial.value && SetsAll(map[], records[i].rest, r.value[i].attrs))
      && (r.Err? ==> exists i ::
            && 0 <= i < |records| && !Loadable(records[i])
            && (forall j :: 0 <= j < i ==> Loadable(records[j]))
            && RefusedWith(records[i], r.error))
  {
    match configs
    case Absent => Ok([])
    case SerialList(serials) =>
      if |serials| == 0 then Ok(GetInstances(ListAdbDevices(adbOutput))) else Ok(GetInstances(serials))
    case ConfigList(records) =>
      if |records| == 0 then Ok(GetInstances(ListAdbDevices(adbOutput))) else GetInstancesWithConfigs(records)
  }

  /** A device whose session and dispatcher `get_droid()` sets up with the
      given answers. */
  predicate Boots(d: Device, boot: Bootstrap)
  {
    (Opens(d, boot.first) || Opens(d, boot.second)) && boot.eventJoin
  }

  /** A device `create` brings up with the given answers: `get_droid()`
      succeeds and so does starting its dispatcher. */
  predicate ComesUp(d: Device, boot: Bootstrap)
  {
    Boots(d, boot) && boot.eventStart
  }

  /** The exceptions `create` raises for a device: it is not attached, or
      its sl4a could not be started. */
  predicate FailedOn(e: Error, serial: string, connected: seq<string>)
  {
    || (e == DoesNotExist(DeviceSerial(serial)) && serial !in connected)
    || (e == ControllerError(Sl4aStartFailed(serial)) && serial in connected)
  }

  /** One turn of the loop of `create`: check the device is attached, then
      `get_droid()` and `ed.start()`; any exception from the latter two
      becomes `ControllerError`. A `get_droid()` that fails never reaches
      `ed.start()`. */
  function StartOne(ad: Device, connected: seq<string>, boot: Bootstrap): (r: Fleet)
    ensures r.out.Ok? ==> |r.out.value| == 1 && ad.serial in connected && r.out.value[0].serial == ad.serial
    ensures ad.serial !in connected ==> r == Fleet(Err(DoesNotExist(DeviceSerial(ad.serial))), [])
    ensures r.out.Err? ==> FailedOn(r.out.error, ad.serial, connected)
  {
    if ad.serial !in connected then Fleet(Err(DoesNotExist(DeviceSerial(ad.serial))), [])
    else
      var up := GetDroid(ad, true, boot);
      match (up.out, Ed(up.dev))
      case (Ok(_), Some(ed)) =>
        var calls := up.calls + [StartEvents(ed)];
        if boot.eventStart then Fleet(Ok([up.dev]), calls)
        else Fleet(Err(ControllerError(Sl4aStartFailed(ad.serial))), calls)
      case _ => Fleet(Err(ControllerError(Sl4aStartFailed(ad.serial))), up.calls)
  }

  /** A device `create` keeps is attached and holds the session `get_droid()`
      opened, and the dispatcher `ed` names was started. */
  lemma StartOneOk(ad: Device, connected: seq<string>, boot: Bootstrap)
    requires StartOne(ad, connected, boot).out.Ok?
    ensures var r := StartOne(ad, connected, boot);
      && ad.serial in connected
      && GetDroid(ad, true, boot).out.Ok? && boot.eventStart
      && r.out.value[0] == GetDroid(ad, true, boot).dev
      && Ed(r.out.value[0]).Some? && StartEvents(Ed(r.out.value[0]).value) in r.calls
  {
  }

  /** The loop of `create` over the devices, `step` bringing up one device:
      all the devices, or the first exception; and the calls of every step
      up to the one that failed. */
  function BringUp(ads: seq<Device>, step: Device -> Fleet): (r: Fleet)
    requires forall i :: 0 <= i < |ads| && step(ads[i]).out.Ok? ==> |step(ads[i]).out.value| == 1
    ensures r.out.Ok? <==> forall i :: 0 <= i < |ads| ==> step(ads[i]).out.Ok?
    ensures r.out.Ok? ==> |r.out.value| == |ads| && forall i :: 0 <= i < |ads| ==>
      r.out.value[i] == step(ads[i]).out.value[0] && forall c :: c in step(ads[i]).calls ==> c in r.calls
    ensures r.out.Err? ==> exists i ::
      && 0 <= i < |ads| && step(ads[i]).out.Err? && r.out == step(ads[i]).out
      && forall j :: 0 <= j < i ==> step(ads[j]).out.Ok?
    ensures |ads| > 0 && step(ads[0]).out.Err? ==> r == step(ads[0])
  {
    if |ads| == 0 then Fleet(Ok([]), [])
    else
      var first := step(ads[0]);
      if first.out.Err? then first
      else
        var rest := BringUp(ads[1..], step);
        assert forall i :: 1 <= i < |ads| ==> ads[1..][i - 1] == ads[i];
        var calls := first.calls + rest.calls;
        if rest.out.Ok? then Fleet(Ok(first.out.value + rest.out.value), calls)
        else
          ghost var i :| 0 <= i < |ads[1..]| && step(ads[1..][i]).out.Err? && rest.out == step(ads[1..][i]).out
            && forall j :: 0 <= j < i ==> step(ads[1..][j]).out.Ok?;
          assert ads[i + 1] == ads[1..][i];
          Fleet(rest.out, calls)
  }

  /** The second half of `create`: every requested device checked against
      the attached serials and brought up, in order. */
  function Launch(ads: seq<Device>, connected: seq<string>, boot: string -> Bootstrap): (r: Fleet)
    ensures r.out.Ok? <==> forall i :: 0 <= i < |ads| ==> StartOne(ads[i], connected, boot(ads[i].serial)).out.Ok?
    ensures r.out.Ok? ==> |r.out.value| == |ads| && forall i :: 0 <= i < |ads| ==>
      var one := StartOne(ads[i], connected, boot(ads[i].serial));
      && one.out.Ok? && r.out.value[i] == one.out.value[0]
      && ads[i].serial in connected && r.out.value[i].serial == ads[i].serial
      && forall c :: c in one.calls ==> c in r.calls
    ensures (exists i :: 0 <= i < |ads| && ads[i].serial !in connected) ==> r.out.Err?
    ensures r.out.Err? ==> exists i :: 0 <= i < |ads| && FailedOn(r.out.error, ads[i].serial, connected)
    ensures r.out.Err? ==> exists i ::
      && 0 <= i < |ads| && FailedOn(r.out.error, ads[i].serial, connected)
      && r.out == StartOne(ads[i], connected, boot(ads[i].serial)).out
      && forall j :: 0 <= j < i ==> StartOne(ads[j], connected, boot(ads[j].serial)).out.Ok?
    ensures |ads| > 0 && ads[0].serial !in connected ==>
      r == Fleet(Err(DoesNotExist(DeviceSerial(ads[0].serial))), [])
  {
    var step := (ad: Device) => StartOne(ad, connected, boot(ad.serial));
    assert forall i :: 0 <= i < |ads| ==> step(ads[i]) == StartOne(ads[i], connected, boot(ads[i].serial));
    BringUp(ads, step)
  }

  /** `create(configs, logger)`, given what `adb devices` prints and the
      answers each device's `get_droid()` meets. */
  function Create(configs: Configs, adbOutput: string, boot: string -> Bootstrap): (r: Fleet)
    ensures configs == Absent ==> r == Fleet(Ok([]), [])
    ensures Requested(configs, adbOutput).Err? ==> r == Fleet(Err(Requested(configs, adbOutput).error), [])
    ensures Requested(configs, adbOutput).Ok? ==>
      r == Launch(Requested(configs, adbOutput).value, ListAdbDevices(adbOutput), boot)
  {
    match Requested(configs, adbOutput)
    case Err(e) => Fleet(Err(e), [])
    case Ok(ads) => Launch(ads, ListAdbDevices(adbOutput), boot)
  }

  /** `create` stops at the first listed serial that is not attached,
      before any sl4a call. */
  lemma CreateFailsFast(serials: seq<string>, adbOutput: string, boot: string -> Bootstrap)
    requires |serials| > 0
    ensures serials[0] !in ListAdbDevices(adbOutput) ==>
      Create(SerialList(serials), adbOutput, boot) == Fleet(Err(DoesNotExist(DeviceSerial(serials[0]))), [])
  {
  }

  /** `create` fails whenever a requested device is not attached, and every
      failure after the devices were built is that of the first device, in
      order, that is not attached or whose sl4a did not start. */
  lemma CreateRejectsUnattached(configs: Configs, adbOutput: string, boot: string -> Bootstrap)
    ensures Requested(configs, adbOutput).Ok? ==>
      var ads := Requested(configs, adbOutput).value;
      (exists i :: 0 <= i < |ads| && ads[i].serial !in ListAdbDevices(adbOutput)) ==>
        Create(configs, adbOutput, boot).out.Err?
    ensures Requested(configs, adbOutput).Ok? ==>
      var ads := Requested(configs, adbOutput).value;
      Create(configs, adbOutput, boot).out.Err? ==> exists i ::
        && 0 <= i < |ads|
        && FailedOn(Create(configs, adbOutput, boot).out.error, ads[i].serial, ListAdbDevices(adbOutput))
        && Create(configs, adbOutput, boot).out == StartOne(ads[i], ListAdbDevices(adbOutput), boot(ads[i].serial)).out
        && forall j :: 0 <= j < i ==> StartOne(ads[j], ListAdbDevices(adbOutput), boot(ads[j].serial)).out.Ok?
  {
  }

  /** `get_droid()` on a fresh device that succeeds leaves it with one
      session and that session's dispatcher, which is what `ed` returns. */
  lemma GetDroidOnFresh(d: Device, boot: Bootstrap)
    requires Fresh(d) && GetDroid(d, true, boot).out.Ok?
    ensures var up := GetDroid(d, true, boot).dev;
      |up.sessions| == 1 && Aligned(up) && Ed(up) == AlignedEd(up) && Ed(up).Some?
  {
    var up := GetDroid(d, true, boot).dev;
    GetDroidKeepsAligned(d, boot);
    GetDroidSessions(d, true, boot);
    var uid := if Opens(d, boot.first) then boot.first.uid else boot.second.uid;
    assert up.sessions.Keys == {uid};
    EdOnOneSession(up);
    AlignedEdMatchesDroid(up);
  }

  /** On a fresh device, `get_droid()` with event handling succeeds exactly
      when a session request opens a session and the event connection is
      accepted. */
  lemma GetDroidOnFreshOk(d: Device, boot: Bootstrap)
    requires Fresh(d)
    ensures GetDroid(d, true, boot).out.Ok? <==> Boots(d, boot)
  {
    var moved := d.(hPort := ChosenPort(d, boot));
    assert Opens(moved, boot.first) == Opens(d, boot.first);
    assert Opens(moved, boot.second) == Opens(d, boot.second);
    var started := StartWithRetry(moved, boot.first, boot.second);
    if started.out.Ok? {
      assert started.dev.dispatchers == map[];
      assert started.out.value.uid in started.dev.sessions;
    }
  }

  /** One fresh device: `create` keeps it exactly when it is attached and
      its sl4a comes up; a kept device holds exactly one session with its
      dispatcher, and that dispatcher, the one `ed` names, was started. */
  lemma StartOneBringsUp(ad: Device, connected: seq<string>, boot: Bootstrap)
    requires Fresh(ad)
    ensures StartOne(ad, connected, boot).out.Ok? <==> ad.serial in connected && ComesUp(ad, boot)
    ensures var r := StartOne(ad, connected, boot);
      r.out.Ok? ==>
        && |r.out.value[0].sessions| == 1
        && Aligned(r.out.value[0])
        && Ed(r.out.value[0]) == AlignedEd(r.out.value[0])
        && StartEvents(AlignedEd(r.out.value[0]).value) in r.calls
  {
    GetDroidOnFreshOk(ad, boot);
    if ad.serial in connected && GetDroid(ad, true, boot).out.Ok? {
      GetDroidOnFresh(ad, boot);
      if boot.eventStart {
        StartOneOk(ad, connected, boot);
      }
    }
  }

  /** The loop of `create` over fresh devices succeeds exactly when every
      device is attached and its sl4a comes up; then every device returned
      holds exactly one session with its dispatcher, and that dispatcher,
      the one `ed` names, was started. */
  lemma LaunchBringsUp(ads: seq<Device>, connected: seq<string>, boot: string -> Bootstrap)
    requires forall i :: 0 <= i < |ads| ==> Fresh(ads[i])
    ensures Launch(ads, connected, boot).out.Ok? <==>
      forall i :: 0 <= i < |ads| ==> ads[i].serial in connected && ComesUp(ads[i], boot(ads[i].serial))
    ensures var r := Launch(ads, connected, boot);
      r.out.Ok? ==> forall i :: 0 <= i < |r.out.value| ==>
        && r.out.value[i].serial in connected
        && |r.out.value[i].sessions| == 1
        && Aligned(r.out.value[i])
        && Ed(r.out.value[i]) == AlignedEd(r.out.value[i])
        && StartEvents(AlignedEd(r.out.value[i]).value) in r.calls
  {
    var r := Launch(ads, connected, boot);
    forall i | 0 <= i < |ads|
      ensures StartOne(ads[i], connected, boot(ads[i].serial)).out.Ok? <==>
        ads[i].serial in connected && ComesUp(ads[i], boot(ads[i].serial))
    {
      StartOneBringsUp(ads[i], connected, boot(ads[i].serial));
    }
    if r.out.Ok? {
      forall i | 0 <= i < |r.out.value|
        ensures
          && r.out.value[i].serial in connected
          && |r.out.value[i].sessions| == 1
          && Aligned(r.out.value[i])
          && Ed(r.out.value[i]) == AlignedEd(r.out.value[i])
          && StartEvents(AlignedEd(r.out.value[i]).value) in r.calls
      {
        var one := StartOne(ads[i], connected, boot(ads[i].serial));
        StartOneBringsUp(ads[i], connected, boot(ads[i].serial));
        var d := one.out.value[0];
        assert r.out.value[i] == d;
        assert StartEvents(AlignedEd(d).value) in one.calls;
      }
    }
  }

  /** `create` succeeds exactly when the devices can be built and every one
      of them is attached and its sl4a comes up; every device it returns
      holds exactly one session with its dispatcher, and that dispatcher,
      the one `ed` names, was started. */
  lemma CreateBringsUp(configs: Configs, adbOutput: string, boot: string -> Bootstrap)
    ensures Create(configs, adbOutput, boot).out.Ok? <==>
      && Requested(configs, adbOutput).Ok?
      && var ads := Requested(configs, adbOutput).value;
         forall i :: 0 <= i < |ads| ==> ads[i].serial in ListAdbDevices(adbOutput) && ComesUp(ads[i], boot(ads[i].serial))
    ensures var r := Create(configs, adbOutput, boot);
      r.out.Ok? ==> forall i :: 0 <= i < |r.out.value| ==>
        && r.out.value[i].serial in ListAdbDevices(adbOutput)
        && |r.out.value[i].sessions| == 1
        && Aligned(r.out.value[i])
        && Ed(r.out.value[i]) == AlignedEd(r.out.value[i])
        && StartEvents(AlignedEd(r.out.value[i]).value) in r.calls
  {
    if Requested(configs, adbOutput).Ok? {
      LaunchBringsUp(Requested(configs, adbOutput).value, ListAdbDevices(adbOutput), boot);
    }
  }

  /** The devices after `destroy`, and the calls it made. */
  datatype Torn = Torn(devs: seq<Device>, calls: seq<Call>)

  /** What `terminate_all_sessions` leaves of a device under failures `f`:
      same serial and attributes, only the sessions whose closing failed,
      and no forwarded port once there was a session; with an aligned
      registry and no failure, nothing at all. */
  ghost predicate TornDown(before: Device, after: Device, f: Faults)
  {
    && after.serial == before.serial && after.attrs == before.attrs
    && (forall u :: u in after.sessions <==> u in before.sessions && CloseFails(before.sessions[u], f))
    && (|before.sessions| > 0 ==> !Truthy(after.hPort))
    && (Aligned(before) && f == NoFaults ==> after.sessions == map[] && after.dispatchers == map[])
  }

  lemma TerminateAllTearsDown(d: Device, f: Faults)
    ensures TornDown(d, TerminateAllSessions(d, f).dev, f)
  {
    var after := TerminateAllSessions(d, f).dev;
    assert after.serial == d.serial && after.attrs == d.attrs;
    assert |d.sessions| > 0 ==> !Truthy(after.hPort);
    if Aligned(d) && f == NoFaults {
      TerminateAllClears(d);
    }
  }

  /** Tear down each device in turn with `down`, whatever happens on the
      others. */
  function TearDownAll(ads: seq<Device>, down: Device -> Exec<()>): (r: Torn)
    ensures |r.devs| == |ads|
    ensures forall i :: 0 <= i < |ads| ==> r.devs[i] == down(ads[i]).dev
    decreases |ads|
  {
    if |ads| == 0 then Torn([], [])
    else
      var first := down(ads[0]);
      var rest := TearDownAll(ads[1..], down);
      assert forall i :: 1 <= i < |ads| ==> ads[1..][i - 1] == ads[i];
      Torn([first.dev] + rest.devs, first.calls + rest.calls)
  }

  /** `destroy(ads)`: `terminate_all_sessions` on every device in turn,
      whatever happens on the others. `faults` gives each device's remote
      failures. */
  function Destroy(ads: seq<Device>, faults: string -> Faults): (r: Torn)
    ensures |r.devs| == |ads|
    ensures forall i :: 0 <= i < |ads| ==> r.devs[i] == TerminateAllSessions(ads[i], faults(ads[i].serial)).dev
  {
    var down := (d: Device) => TerminateAllSessions(d, faults(d.serial));
    assert forall i :: 0 <= i < |ads| ==> down(ads[i]) == TerminateAllSessions(ads[i], faults(ads[i].serial));
    TearDownAll(ads, down)
  }

  /** After `destroy` every device is torn down: only the sessions whose
      closing failed remain, no port stays forwarded, and a device with an
      aligned registry and no failure keeps nothing. */
  lemma DestroyTearsDown(ads: seq<Device>, faults: string -> Faults)
    ensures var r := Destroy(ads, faults);
      forall i :: 0 <= i < |ads| ==> TornDown(ads[i], r.devs[i], faults(ads[i].serial))
  {
    forall i | 0 <= i < |ads|
      ensures TornDown(ads[i], Destroy(ads, faults).devs[i], faults(ads[i].serial))
    {
      TerminateAllTearsDown(ads[i], faults(ads[i].serial));
    }
  }

  /** Tearing down what `create` brought up, without remote failures,
      leaves no session, no dispatcher and no forwarded port. */
  lemma DestroyAfterCreate(configs: Configs, adbOutput: string, boot: string -> Bootstrap)
    ensures Create(configs, adbOutput, boot).out.Ok? ==>
      var ads := Create(configs, adbOutput, boot).out.value;
      var torn := Destroy(ads, _ => NoFaults);
      forall i :: 0 <= i < |ads| ==>
        torn.devs[i].sessions == map[] && torn.devs[i].dispatchers == map[] && !Truthy(torn.devs[i].hPort)
  {
    if Create(configs, adbOutput, boot).out.Ok? {
      CreateBringsUp(configs, adbOutput, boot);
      DestroyTearsDown(Create(configs, adbOutput, boot).out.value, _ => NoFaults);
    }
  }
}
