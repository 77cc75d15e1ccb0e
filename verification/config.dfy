/** Reading and writing a device's attributes: `load_config`, which turns
    the entries of a JSON device config into attributes of the
    `AndroidDevice` and refuses to overwrite one that exists, and the
    `hasattr`/`getattr` pair `get_device` filters with. */
module Config {
  import opened Results
  import opened Registry

  /** The attributes `__init__` sets on every instance. */
  const InstanceFields: set<string> :=
    {"serial", "h_port", "d_port", "log", "_droid_sessions", "_event_dispatchers", "adb", "fastboot"}

  /** The names the `AndroidDevice` class and `object` provide: properties,
      methods and the special attributes every instance answers to, as
      Python 3.4 (the version the module's `#!` line names) defines them. */
  const ClassMembers: set<string> :=
    {"is_bootloader", "is_adb_root", "model", "droid", "ed", "droids", "eds",
     "load_config", "root_adb", "get_droid", "get_dispatcher", "start_new_session",
     "add_new_connection_to_session", "terminate_session", "terminate_all_sessions",
     "run_iperf_client", "wait_for_boot_completion", "reboot",
     "__init__", "__del__", "__class__", "__dict__", "__doc__", "__module__", "__weakref__",
     "__new__", "__repr__", "__str__", "__format__", "__hash__", "__eq__", "__ne__",
     "__lt__", "__le__", "__gt__", "__ge__", "__getattribute__", "__setattr__",
     "__delattr__", "__dir__", "__sizeof__", "__reduce__", "__reduce_ex__",
     "__subclasshook__"}

  /** Names every device has whatever its config. */
  predicate BuiltIn(k: string)
  {
    k in InstanceFields || k in ClassMembers
  }

  /** `hasattr(ad, k)`. */
  predicate HasAttr(d: Device, k: string)
  {
    BuiltIn(k) || k in d.attrs
  }

  /** `getattr(ad, k)` as far as a comparison with a config value can tell:
      `serial`, `h_port` and `d_port` give their values, a loaded attribute
      gives what was loaded, and any other built-in (a method, a proxy, a
      session map) gives `None`, which equals no config value. */
  function GetAttr(d: Device, k: string): (r: Option<Value>)
    ensures r.Some? ==> HasAttr(d, k)
    ensures !HasAttr(d, k) ==> r == None
    ensures !BuiltIn(k) && k in d.attrs ==> r == Some(d.attrs[k])
    ensures k == "serial" ==> r == Some(Str(d.serial))
    ensures k == "d_port" ==> r == Some(Number(d.dPort))
    ensures k == "h_port" ==> r == Some(if d.hPort.Some? then Number(d.hPort.value) else Null)
  {
    if k == "serial" then Some(Str(d.serial))
    else if k == "h_port" then Some(if d.hPort.Some? then Number(d.hPort.value) else Null)
    else if k == "d_port" then Some(Number(d.dPort))
    else if BuiltIn(k) then None
    else if k in d.attrs then Some(d.attrs[k])
    else None
  }

  /** After a successful `load_config`, `hasattr` accepts exactly the names
      it accepted before and the names of the config. */
  lemma LoadedHasAttr(d: Device, cfg: seq<(string, Value)>, k: string)
    requires LoadConfig(d, cfg).out.Ok?
    ensures HasAttr(LoadConfig(d, cfg).dev, k) <==>
      HasAttr(d, k) || exists i :: 0 <= i < |cfg| && cfg[i].0 == k
  {
  }

  /** Entry `i` of a config cannot be set on `d`: its name is built in, was
      already loaded, or appeared earlier in the same config. */
  predicate Clashes(d: Device, cfg: seq<(string, Value)>, i: int)
    requires 0 <= i < |cfg|
  {
    HasAttr(d, cfg[i].0) || exists j :: 0 <= j < i && cfg[j].0 == cfg[i].0
  }

  /** Entry `i` is the first entry that clashes. */
  predicate FirstClash(d: Device, cfg: seq<(string, Value)>, i: int)
  {
    0 <= i < |cfg| && Clashes(d, cfg, i) && forall j :: 0 <= j < i ==> !Clashes(d, cfg, j)
  }

  /** `after` is `before` with the entries of `cfg` set in order: the names
      are those of `before` and of `cfg`, the old attributes keep their
      values, and each new name holds the value of its first entry. */
  ghost predicate SetsAll(before: map<string, Value>, cfg: seq<(string, Value)>, after: map<string, Value>)
  {
    && (forall k :: k in after <==> k in before || exists i :: 0 <= i < |cfg| && cfg[i].0 == k)
    && (forall k :: k in before ==> k in after && after[k] == before[k])
    && (forall i :: 0 <= i < |cfg| && cfg[i].0 !in before && (forall j :: 0 <= j < i ==> cfg[j].0 != cfg[i].0) ==>
          cfg[i].0 in after && after[cfg[i].0] == cfg[i].1)
  }

  /** `load_config(config)`: set every entry as an attribute, in order; the
      first entry whose name the device already answers to raises
      `ControllerError` naming it, and the entries before it stay set. */
  function LoadConfig(d: Device, cfg: seq<(string, Value)>): (r: Exec<()>)
    ensures r.calls == []
    ensures r.dev == d.(attrs := r.dev.attrs)
    ensures r.out.Ok? <==> forall i :: 0 <= i < |cfg| ==> !Clashes(d, cfg, i)
    ensures r.out.Ok? ==> r.out == Ok(()) && SetsAll(d.attrs, cfg, r.dev.attrs)
    ensures r.out.Err? ==> exists i ::
      && FirstClash(d, cfg, i)
      && r.out.error == ControllerError(AttributeExists(cfg[i].0, d.serial))
      && SetsAll(d.attrs, cfg[..i], r.dev.attrs)
    decreases |cfg|
  {
    if |cfg| == 0 then Exec(d, Ok(()), [])
    else
      var (k, v) := cfg[0];
      if HasAttr(d, k) then
        assert FirstClash(d, cfg, 0);
        Exec(d, Err(ControllerError(AttributeExists(k, d.serial))), [])
      else
        var rest := LoadConfig(d.(attrs := d.attrs[k := v]), cfg[1..]);
        LoadConfigStep(d, cfg, rest);
        rest
  }

  /** How the outcome of loading `cfg[1..]` on the device extended by
      `cfg[0]` reads in terms of `cfg` on the original device. */
  lemma LoadConfigStep(d: Device, cfg: seq<(string, Value)>, rest: Exec<()>)
    requires |cfg| > 0 && !HasAttr(d, cfg[0].0)
    requires var d' := d.(attrs := d.attrs[cfg[0].0 := cfg[0].1]);
      && rest.dev == d'.(attrs := rest.dev.attrs)
      && (rest.out.Ok? <==> forall i :: 0 <= i < |cfg[1..]| ==> !Clashes(d', cfg[1..], i))
      && (rest.out.Ok? ==> SetsAll(d'.attrs, cfg[1..], rest.dev.attrs))
      && (rest.out.Err? ==> exists i ::
            && FirstClash(d', cfg[1..], i)
            && rest.out.error == ControllerError(AttributeExists(cfg[1..][i].0, d'.serial))
            && SetsAll(d'.attrs, cfg[1..][..i], rest.dev.attrs))
    ensures rest.dev == d.(attrs := rest.dev.attrs)
    ensures rest.out.Ok? <==> forall i :: 0 <= i < |cfg| ==> !Clashes(d, cfg, i)
    ensures rest.out.Ok? ==> SetsAll(d.attrs, cfg, rest.dev.attrs)
    ensures rest.out.Err? ==> exists i ::
      && FirstClash(d, cfg, i)
      && rest.out.error == ControllerError(AttributeExists(cfg[i].0, d.serial))
      && SetsAll(d.attrs, cfg[..i], rest.dev.attrs)
  {
    var d' := d.(attrs := d.attrs[cfg[0].0 := cfg[0].1]);
    var tail := cfg[1..];
    // Entry i + 1 clashes on d exactly when entry i of the tail clashes on d'.
    forall i | 0 <= i < |tail|
      ensures Clashes(d', tail, i) <==> Clashes(d, cfg, i + 1)
    {
      assert tail[i] == cfg[i + 1];
      if exists j :: 0 <= j < i + 1 && cfg[j].0 == cfg[i + 1].0 {
        var j :| 0 <= j < i + 1 && cfg[j].0 == cfg[i + 1].0;
        if j > 0 {
          assert tail[j - 1] == cfg[j];
        }
      }
      if exists j :: 0 <= j < i && tail[j].0 == tail[i].0 {
        var j :| 0 <= j < i && tail[j].0 == tail[i].0;
        assert cfg[j + 1] == tail[j];
      }
    }
    assert !Clashes(d, cfg, 0);
    if rest.out.Ok? {
      forall i | 0 <= i < |cfg|
        ensures !Clashes(d, cfg, i)
      {
        if i > 0 {
          assert !Clashes(d', tail, i - 1);
        }
      }
      SetsAllStep(d.attrs, cfg, rest.dev.attrs);
    } else {
      var i :| FirstClash(d', tail, i)
        && rest.out.error == ControllerError(AttributeExists(tail[i].0, d'.serial))
        && SetsAll(d'.attrs, tail[..i], rest.dev.attrs);
      assert FirstClash(d, cfg, i + 1) by {
        forall j | 0 <= j < i + 1
          ensures !Clashes(d, cfg, j)
        {
          if j > 0 {
            assert !Clashes(d', tail, j - 1);
          }
        }
      }
      assert cfg[..i + 1][1..] == tail[..i];
      SetsAllStep(d.attrs, cfg[..i + 1], rest.dev.attrs);
    }
  }

  /** Setting `cfg[0]` first and then the rest sets all of `cfg`. */
  lemma SetsAllStep(before: map<string, Value>, cfg: seq<(string, Value)>, after: map<string, Value>)
    requires |cfg| > 0 && cfg[0].0 !in before
    requires SetsAll(before[cfg[0].0 := cfg[0].1], cfg[1..], after)
    ensures SetsAll(before, cfg, after)
  {
    var mid := before[cfg[0].0 := cfg[0].1];
    forall k
      ensures k in after <==> k in before || exists i :: 0 <= i < |cfg| && cfg[i].0 == k
    {
      if exists i :: 0 <= i < |cfg[1..]| && cfg[1..][i].0 == k {
        var i :| 0 <= i < |cfg[1..]| && cfg[1..][i].0 == k;
        assert cfg[i + 1].0 == k;
      }
      if exists i :: 0 <= i < |cfg| && cfg[i].0 == k {
        var i :| 0 <= i < |cfg| && cfg[i].0 == k;
        if i > 0 {
          assert cfg[1..][i - 1].0 == k;
        }
      }
    }
    forall i | 0 <= i < |cfg| && cfg[i].0 !in before && (forall j :: 0 <= j < i ==> cfg[j].0 != cfg[i].0)
      ensures cfg[i].0 in after && after[cfg[i].0] == cfg[i].1
    {
      if i > 0 {
        assert cfg[1..][i - 1] == cfg[i];
        assert forall j :: 0 <= j < i - 1 ==> cfg[1..][j] == cfg[j + 1];
      }
    }
  }

  /** A loaded config reads back: after a successful `load_config`, every
      entry is an attribute and `getattr` returns its value. */
  lemma LoadedReadBack(d: Device, cfg: seq<(string, Value)>, i: int)
    requires LoadConfig(d, cfg).out.Ok? && 0 <= i < |cfg|
    ensures var after := LoadConfig(d, cfg).dev;
      HasAttr(after, cfg[i].0) && GetAttr(after, cfg[i].0) == Some(cfg[i].1)
  {
    assert !Clashes(d, cfg, i);
  }

  /** Loading the same non-empty config a second time fails on its first
      entry and changes nothing. */
  lemma LoadConfigTwice(d: Device, cfg: seq<(string, Value)>)
    requires |cfg| > 0 && LoadConfig(d, cfg).out.Ok?
    ensures var once := LoadConfig(d, cfg).dev;
      LoadConfig(once, cfg) == Exec(once, Err(ControllerError(AttributeExists(cfg[0].0, d.serial))), [])
  {
    assert !Clashes(d, cfg, 0);
  }
}
