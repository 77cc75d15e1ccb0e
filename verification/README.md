# Android device sessions, modelled in Dafny

This project models the device and session bookkeeping of the ACTS test
framework's Android device controller (`acts/framework/acts/controllers/android_device.py`).
It covers:

- reading the device listing that `adb devices` / `fastboot devices` print
  (`_parse_device_list`);
- building `AndroidDevice` objects from a test bed config (`get_instances`,
  `get_instances_with_configs`, `load_config`);
- the per-device sl4a session registry: the map from session uid to its
  connections (`_droid_sessions`), and the map from `serial + str(uid)` to
  its event dispatcher (`_event_dispatchers`);
- the operations on that registry (`start_new_session`,
  `add_new_connection_to_session`, `get_dispatcher`, `get_droid`,
  `terminate_session`, `terminate_all_sessions`);
- the views of the registry (`droid`, `droids`, `ed`, `eds`);
- the fleet helpers (`create`, `destroy`, `filter_devices`, `get_device`).

Every operation is a pure function. It returns the device as the Python
object stands afterwards, the value or the exception, and the remote calls
made, in order (`Registry.Exec`). A raised exception keeps whatever the
operation changed before it, as Python does.

The sl4a agent, adb and the port prober are not modelled. What they answer
is a parameter:

- `Reply`: the answer to a new-session request;
- a `bool`: whether a join request is accepted;
- `Bootstrap`: every answer `get_droid` meets;
- `Faults`: which teardown calls raise;
- a string: the text `adb devices` prints.

The device listing is read as `_parse_device_list` reads it: a list in
listing order, duplicates kept.

Modules:

- `Results`: options and errors.
- `Text`: `strip`, `split`, `join` and `str(int)` as Python defines them.
- `Order`: Python's `sorted` on int and str keys.
- `DeviceList`: the listing parser.
- `Registry`: one device's state and the session operations.
- `Accessors`: the `droid` / `droids` / `ed` / `eds` views.
- `Config`: `load_config`, `hasattr`, `getattr`.
- `Fleet`: the module-level functions.

Behaviour of the code that the model keeps, although the docstrings
suggest otherwise:

- **`terminate_session` on a failing close.** Its docstring says it
  clears the session's droids and dispatchers from the cache. The code
  stops at the first `closeSl4aSession` or `close` that raises; the
  session and its dispatcher then stay registered (lines 478-481).
- **A raising `clean_up`.** The session is already gone, but its
  dispatcher stays filed (lines 483-485).
- **`terminate_all_sessions` with no session.** Its docstring says it
  terminates all sessions and clears caches. The code then does nothing,
  and the forwarded port is kept (line 492).
- **Joined connections.** The connection `add_new_connection_to_session`
  opens is handed back and never filed in the session's list.

## Model

| member | source | states |
|---|---|---|
| DeviceList.ParseDeviceList | acts/framework/acts/controllers/android_device.py:85-91 | at most one serial per line of the listing; every serial is non-empty, starts with no whitespace and holds no tab or newline |
| DeviceList.ParseDeviceListMembers | acts/framework/acts/controllers/android_device.py:85-91 | a string is returned exactly when some line of the stripped listing, itself stripped, is that string, one tab and the key (with no other tab) |
| DeviceList.ParseRender | acts/framework/acts/controllers/android_device.py:85-91 | round trip: printing well-formed rows (plus any trailing whitespace) and parsing gives back exactly the serials of the rows in state `key`, in order |
| DeviceList.ListAdbDevices | acts/framework/acts/controllers/android_device.py:93-101 | a serial is listed iff some line of the listing reads that serial, a tab and `device` |
| DeviceList.ListFastbootDevices | acts/framework/acts/controllers/android_device.py:103-111 | a serial is listed iff some line of the listing reads that serial, a tab and `fastboot` |
| DeviceList.ListDevicesRender | acts/framework/acts/controllers/android_device.py:93-111 | on a listing as the tools print it, the adb list is the serials in state `device` and the fastboot list those in state `fastboot`, in order |
| DeviceList.LineSerialMatches | acts/framework/acts/controllers/android_device.py:88-90 | a line contributes `x` iff stripping it gives `x`, a tab and the key, with no tab in `x` or in the key |
| Text.SplitTwo | acts/framework/acts/controllers/android_device.py:88-89 | `split('\t')` yields exactly `[x, y]` iff the string is `x`, tab, `y` with no tab in either |
| Text.JoinSplit | acts/framework/acts/controllers/android_device.py:85 | joining the pieces of a `split` with the separator gives the string back |
| Text.SplitJoin | acts/framework/acts/controllers/android_device.py:85 | splitting a join of separator-free pieces gives the pieces back |
| Registry.NewDevice | acts/framework/acts/controllers/android_device.py:243-250 | a new device keeps its serial, has no host port, device port 8080, and no session, dispatcher or loaded attribute |
| Registry.KeyInjective | acts/framework/acts/controllers/android_device.py:416 | two uids with the same dispatcher key `serial + str(uid)` on one device are equal |
| Text.IntToStringInjective | acts/framework/acts/controllers/android_device.py:416 | `str` on integers is injective (decimal digits read back to the number) |
| Registry.StartNewSession | acts/framework/acts/controllers/android_device.py:441-446 | one session request on the current port; succeeds iff the agent grants a uid not registered; a registered uid raises `DuplicateSession` and any failure leaves the device unchanged; success adds exactly `uid -> [droid]`, keeps every other session and keeps the registry well-formed |
| Registry.AddNewConnectionToSession | acts/framework/acts/controllers/android_device.py:462-466 | never changes the device; an unknown session raises `DoesNotExist` with no call; a known one makes one join call and yields a joined connection on that session and port iff the agent accepts |
| Registry.GetDispatcher | acts/framework/acts/controllers/android_device.py:416-426 | a filed dispatcher is returned with no call; a filed `None` raises; otherwise succeeds iff the session exists and the join is accepted, then files exactly one new dispatcher under the key; sessions never change, at most one join call, well-formedness kept |
| Registry.GetDispatcherIdempotent | acts/framework/acts/controllers/android_device.py:416-426 | asking again after a success returns the same dispatcher, changes nothing and makes no call |
| Registry.CloseConns | acts/framework/acts/controllers/android_device.py:478-480 | closing succeeds iff neither `closeSl4aSession` nor `close` raises on any connection; on success the trace holds exactly two calls per connection (with `Registry.CloseConnsPrefix`, each connection's `closeSl4aSession` then `close`, in order) |
| Registry.CloseConnsPrefix | acts/framework/acts/controllers/android_device.py:478-480 | every connection before the first failing one is closed in order: `closeSl4aSession`, then `close` |
| Registry.CloseConnsStop | acts/framework/acts/controllers/android_device.py:478-480 | on failure the trace stops at the first failing connection: its `closeSl4aSession`, then its `close` unless `closeSl4aSession` raised, and nothing for later connections |
| Registry.TerminateSession | acts/framework/acts/controllers/android_device.py:477-485 | removes only the session `id` and its key's dispatcher and leaves every other entry as it was; a failing close leaves the device unchanged and raises; otherwise the session is dropped, and a filed `None` or a raising `clean_up` raises and keeps the key filed; succeeds iff no close fails and the dispatcher (if filed) is present and cleans up; an unknown id with no dispatcher is a no-op; its calls are those of closing the session's connections followed by one `clean_up` exactly when the closes went through and a dispatcher is filed; well-formedness kept |
| Registry.TerminateSessionTrace | acts/framework/acts/controllers/android_device.py:471-485 | the session's connections are closed in order, `closeSl4aSession` then `close` each, up to the first that raises; `clean_up` is called once, last, iff every close went through and a dispatcher (not `None`) is filed; never after a failing close |
| Registry.CloseConnsOnlyCloses | acts/framework/acts/controllers/android_device.py:478-480 | closing a session's connections makes no call but `closeSl4aSession` and `close` |
| Registry.TerminateSessionKeepsOtherDispatchers | acts/framework/acts/controllers/android_device.py:482-485 | the dispatcher of any other session is still filed, unchanged |
| Registry.TerminateEach | acts/framework/acts/controllers/android_device.py:493-500 | the loop never raises; serial, ports and attributes untouched |
| Registry.EachSessions | acts/framework/acts/controllers/android_device.py:493-500 | after the loop a session remains iff it was not listed or its close failed; remaining sessions keep their connections |
| Registry.EachDispatchers | acts/framework/acts/controllers/android_device.py:493-500 | after the loop a filed dispatcher is gone iff its session was listed, its close did not fail, it was not `None` and its `clean_up` did not raise; the others stay filed, unchanged |
| Registry.EachWf | acts/framework/acts/controllers/android_device.py:493-500 | the loop keeps the registry well-formed |
| Registry.EachKeepsOrphan | acts/framework/acts/controllers/android_device.py:482-485 | the loop never removes a dispatcher filed under the key of no listed session |
| Registry.TerminateAllSessions | acts/framework/acts/controllers/android_device.py:492-503 | never raises; with no session nothing happens; otherwise only the sessions whose close failed remain, and a truthy port is released (last call) and set to `None`; a session's dispatcher is removed iff its close did not fail, it is not `None` and its `clean_up` does not raise; a dispatcher filed under no session's key stays filed; every dispatcher left keeps its value; without faults no session and no session's dispatcher remains; serial, device port, attributes and well-formedness kept |
| Registry.TerminateAllClears | acts/framework/acts/controllers/android_device.py:492-503 | on a registry whose sessions and dispatchers correspond, a fault-free teardown leaves both maps empty |
| Registry.TerminateAllTwice | acts/framework/acts/controllers/android_device.py:492 | a second teardown after a fault-free one does nothing and makes no call |
| Registry.StartWithRetry | acts/framework/acts/controllers/android_device.py:397-401 | succeeds iff the first or the retried request opens a session; sl4a is started exactly when the first request fails; failure leaves the device unchanged; success adds exactly the new session |
| Registry.AttachDispatcher | acts/framework/acts/controllers/android_device.py:402-405 | without event handling nothing is added and the result is `(droid, None)`; with it, it succeeds iff the session's key holds a dispatcher, or is unfiled and the join is accepted, and success files the returned dispatcher under that key and changes no other key; a failure leaves the dispatchers alone; sessions and the agent-start count unchanged |
| Registry.GetDroid | acts/framework/acts/controllers/android_device.py:394-405 | ends on a set host port: the current one if truthy and free, otherwise a fresh one; the first call forwards that port to the device port; serial, device port and attributes kept; well-formedness kept |
| Registry.GetDroidSessions | acts/framework/acts/controllers/android_device.py:394-401 | adds exactly one session on the chosen port when either request opens one, the droid returned being its connection; fails with sessions unchanged otherwise |
| Registry.GetDroidDispatcher | acts/framework/acts/controllers/android_device.py:394-405 | without events: dispatchers unchanged, success iff a session opens; with events: success iff a session opens and its key holds a dispatcher or is unfiled with the join accepted, and success files the returned dispatcher under the new session's key and changes no other key; any failure leaves the dispatchers as they were |
| Registry.GetDroidStartsAgentOnce | acts/framework/acts/controllers/android_device.py:397-401 | the trace holds one `start_sl4a` when the first session request fails and none otherwise |
| Registry.GetDroidKeepsAligned | acts/framework/acts/controllers/android_device.py:394-405 | a successful `get_droid()` keeps sessions and dispatchers one to one |
| Order.SortedInts | acts/framework/acts/controllers/android_device.py:325 | `sorted` on int keys: every key once, strictly ascending |
| Order.SortedStrings | acts/framework/acts/controllers/android_device.py:337 | `sorted` on str keys: every key once, strictly ascending in code-point order |
| Order.LexTransitive | acts/framework/acts/controllers/android_device.py:337 | string `<` is transitive, so the sorted key list is well defined |
| Accessors.Droid | acts/framework/acts/controllers/android_device.py:296-305 | `None` with no session; on a well-formed registry, present iff a session exists, and then the first connection of the session with the smallest uid |
| Accessors.Droids | acts/framework/acts/controllers/android_device.py:318-329 | fails with `IndexError` iff some session has no connection; otherwise one entry per session |
| Accessors.DroidsBySession | acts/framework/acts/controllers/android_device.py:318-329 | on a well-formed registry `droids` lists each session's first connection exactly once, by strictly ascending uid |
| Accessors.Ed | acts/framework/acts/controllers/android_device.py:307-316 | `None` with no dispatcher; otherwise the value filed under the key smaller than every other key |
| Accessors.Eds | acts/framework/acts/controllers/android_device.py:331-341 | one entry per dispatcher, each a filed value, none `None` on a well-formed registry |
| Accessors.EdsInKeyOrder | acts/framework/acts/controllers/android_device.py:337-341 | `eds` reads the dispatchers along their keys, each key once, in strictly ascending string order |
| Accessors.DroidHeadsDroids | acts/framework/acts/controllers/android_device.py:296-329 | `droid` is the head of `droids` |
| Accessors.EdHeadsEds | acts/framework/acts/controllers/android_device.py:307-341 | `ed` is the head of `eds` |
| Accessors.EdsOutOfStep | acts/framework/acts/controllers/android_device.py:318-341 | on an aligned registry with sessions 9 and 10 on serial "S", `droids` starts with session 9 but `eds` and `ed` start with session 10's dispatcher |
| Accessors.AlignedEdsMatchDroids | acts/framework/acts/controllers/android_device.py:331-336 | the corrected `eds`: on an aligned registry, entry i is the dispatcher of the session of entry i of `droids` |
| Accessors.AlignedEdMatchesDroid | acts/framework/acts/controllers/android_device.py:307-316 | the corrected `ed` is the dispatcher of `droid`'s session |
| Accessors.EdOnOneSession | acts/framework/acts/controllers/android_device.py:307-316 | with one session, `ed` as written equals the corrected one |
| Config.GetAttr | acts/framework/acts/controllers/android_device.py:208-210 | a value only for a name `hasattr` accepts; `serial`, `h_port`, `d_port` give their values; a loaded attribute gives what was loaded |
| Config.LoadConfig | acts/framework/acts/controllers/android_device.py:353-357 | no remote call and only attributes change; succeeds iff no entry names an existing attribute or repeats an earlier name; success sets every entry, keeping old attributes; failure raises `ControllerError` naming the first clashing entry, the entries before it set |
| Config.LoadedReadBack | acts/framework/acts/controllers/android_device.py:353-357 | after a successful load every entry is an attribute and `getattr` returns its value |
| Config.LoadedHasAttr | acts/framework/acts/controllers/android_device.py:353-357 | after a successful load `hasattr` accepts exactly the names it accepted before and the config's names |
| Config.LoadConfigTwice | acts/framework/acts/controllers/android_device.py:353-357 | loading the same non-empty config again raises on its first entry and changes nothing |
| Fleet.GetInstances | acts/framework/acts/controllers/android_device.py:123-126 | one fresh device per serial, in order |
| Fleet.Instance | acts/framework/acts/controllers/android_device.py:142-150 | an entry yields a device iff it names a serial and its config loads; the device carries that serial and the loaded attributes; otherwise `ControllerError` names the missing serial, or the first clashing entry together with the device's serial |
| Fleet.GetInstancesWithConfigs | acts/framework/acts/controllers/android_device.py:141-151 | succeeds iff every entry is loadable, then one device per entry with its serial and config; otherwise fails on the first entry that is not loadable, naming its missing serial or its first clashing entry and serial |
| Fleet.FilterDevices | acts/framework/acts/controllers/android_device.py:181-185 | a device is in the result iff it is in the input and accepted; never longer than the input |
| Fleet.FilterAppend | acts/framework/acts/controllers/android_device.py:181-185 | filtering a concatenation filters each part, so relative order is kept |
| Fleet.FilterIdempotent | acts/framework/acts/controllers/android_device.py:181-185 | filtering twice is filtering once |
| Fleet.FilterCount | acts/framework/acts/controllers/android_device.py:181-185 | the result has exactly as many devices as the condition accepts |
| Fleet.PickOne | acts/framework/acts/controllers/android_device.py:213-221 | a returned device is in the list and accepted; every failure is `AndroidDeviceError` |
| Fleet.GetDevice | acts/framework/acts/controllers/android_device.py:206-221 | a returned device is in the list and matches every keyword; every failure is `AndroidDeviceError` |
| Fleet.InstanceMatchesItsConfig | acts/framework/acts/controllers/android_device.py:206-212 | the filter `get_device` builds accepts a device built from a config entry for that entry's serial and every entry of its config: `hasattr` holds and `getattr` gives the configured value |
| Fleet.GetDeviceUnique | acts/framework/acts/controllers/android_device.py:213-218 | a device is returned iff exactly one device matches, and every matching device is that one |
| Fleet.GetDeviceNoMatch | acts/framework/acts/controllers/android_device.py:214-216 | "no match" is raised iff no device matches |
| Fleet.GetDeviceSeveral | acts/framework/acts/controllers/android_device.py:219-221 | with two or more matches the error names as many serials as devices matched, each a matching device's |
| Fleet.Requested | acts/framework/acts/controllers/android_device.py:33-42 | no config gives no device; a serial list gives one fresh device per listed serial, or per attached serial when it is `[]`; `[]` as a config list gives every attached device; a config list succeeds iff every entry is loadable and then gives one device per entry with its serial and config, otherwise fails on the first entry that is not |
| Fleet.StartOne | acts/framework/acts/controllers/android_device.py:44-57 | an unattached device raises `DoesNotExist` with no call; a kept device is attached and keeps its serial; every failure names this device |
| Fleet.StartOneOk | acts/framework/acts/controllers/android_device.py:44-50 | a kept device is what `get_droid()` left, `ed.start()` succeeded, and the dispatcher `ed` names was started |
| Fleet.Launch | acts/framework/acts/controllers/android_device.py:43-57 | success returns every device brought up, in order, with every call made; any unattached device makes it fail; a failure is that of the first device, in order, that is unattached or whose sl4a did not start, every device before it having come up |
| Fleet.CreateFailsFast | acts/framework/acts/controllers/android_device.py:44-47 | a first serial that is not attached fails with `DoesNotExist` before any call |
| Fleet.CreateRejectsUnattached | acts/framework/acts/controllers/android_device.py:43-57 | `create` fails whenever a requested device is unattached; every failure after the devices were built is that of the first requested device, in order, that is unattached or whose sl4a did not start |
| Fleet.GetDroidOnFresh | acts/framework/acts/controllers/android_device.py:48-50 | on a fresh device a successful `get_droid()` leaves one session with its dispatcher, which is what `ed` returns |
| Fleet.GetDroidOnFreshOk | acts/framework/acts/controllers/android_device.py:394-405 | on a fresh device `get_droid()` with events succeeds iff a session request (first or retried) opens a session and the event connection is accepted |
| Fleet.StartOneBringsUp | acts/framework/acts/controllers/android_device.py:44-57 | a fresh device is kept iff it is attached, a session request opens a session, the event connection is accepted and `ed.start()` succeeds; a kept device holds one session with its dispatcher, and that dispatcher was started |
| Fleet.LaunchBringsUp | acts/framework/acts/controllers/android_device.py:43-58 | over fresh devices the loop succeeds iff every device is attached, gets a session and an event connection, and its dispatcher starts; then every device returned is attached, holds one session with its dispatcher, and that dispatcher was started |
| Fleet.CreateBringsUp | acts/framework/acts/controllers/android_device.py:32-58 | `create` succeeds iff the configs are usable and every requested device is attached, gets a session and an event connection, and its dispatcher starts; every device it returns is attached, holds one session with its dispatcher, and that dispatcher (the one `ed` names) was started |
| Fleet.TerminateAllTearsDown | acts/framework/acts/controllers/android_device.py:492-503 | teardown keeps serial and attributes, leaves only the sessions whose close failed, releases the port once there was a session, and clears an aligned registry without faults |
| Fleet.DestroyTearsDown | acts/framework/acts/controllers/android_device.py:60-65 | after `destroy` every device, whatever the others did, is torn down in that sense |
| Fleet.DestroyAfterCreate | acts/framework/acts/controllers/android_device.py:32-65 | tearing down what `create` brought up, without faults, leaves no session, no dispatcher and no forwarded port |

## Left out

- adb, fastboot, sl4a (`android.Android`), `EventDispatcher` and the port prober are not modelled. Their answers are parameters.
- `EventDispatcher(event_droid)` in `get_dispatcher` (line 424) is assumed not to raise. event_dispatcher.py is not part of this model. Its `start()` in `create` (line 50) and its `clean_up()` in `terminate_session` are modelled as calls that may raise.
- `tcp_forward` and `start_sl4a` are recorded as calls and assumed to succeed.
- Removing a forward (`adb forward --remove`) is assumed to succeed. So `destroy`'s `except: pass` never catches anything in the model.
- The logger, `LoggerProxy`, and every log message are not modelled.
- The output of `adb devices` is taken as already-decoded text. UTF-8 decoding is not modelled.
- `__del__`, `root_adb` and the constructor's call to it are left out. They are side effects on the device that the registry never reads.
- `is_bootloader`, `is_adb_root` and `model` are left out. They scrape command output.
- `reboot`, `wait_for_boot_completion` and `run_iperf_client` are left out. They depend on time and device output.
- Whether freshly allocated host ports are distinct across devices is not modelled. The port comes from the oracle.
- `create` reads one `adb devices` output and uses it both for the serials of an empty config and for the attached check. The code runs the command twice.
- `get_all_instances(include_fastboot=True)` is not modelled. `create` always calls it without fastboot devices.
- Config values that are lists or objects are reduced to `Opaque`.
- Serials are strings. A non-string serial in a config is not modelled.
- `c.pop("serial")` mutating the caller's config is not modelled.
- `Fleet.DeviceConfig`'s other entries may hold a name `serial`, which a real dict cannot hold after `pop`. Such an entry clashes with the built-in `serial`, as it would in the code.
- Registry.TerminateAllSessions: terminates the session ids in ascending order. Python 3.4 walks the dict's keys in its hash-table order, which the language leaves unspecified. The final state does not depend on the order; the order of calls in the trace does.
- Config.GetAttr: answers `None` for every built-in other than `serial`, `h_port` and `d_port`, and `None` equals no config value. In the code `model` reads a string over adb and `is_bootloader` and `is_adb_root` give booleans. `droid` gives `None` when there is no session or the least session holds no connection, and otherwise a client. `ed` gives `None` when no dispatcher is filed or the least key holds `None`, and otherwise a dispatcher; this follows the dispatchers, not the sessions. `droids` and `eds` give lists, and the remaining built-ins are methods, proxies or maps. So `get_device(ads, model="angler")` can match in the code but never matches in the model. Neither does `get_device(ads, droid=None)` or `get_device(ads, ed=None)`, which in the code match every device whose `droid` or `ed` is `None` as just described.
- Config values have no floats. Python's equality across types (`1 == True == 1.0`) is not modelled: `Number(1)` and `Flag(true)` differ.
- Config.HasAttr: treats the class's properties as always present. Python's `hasattr` evaluates a property, and a property that raises something other than `AttributeError` (such as `droids` on an empty session) propagates.
- Registry.TerminateEach: its own contract only states what it keeps. What it removes is stated by `Registry.EachSessions` and `Registry.EachDispatchers`.
- Fleet.Destroy: its own contract only relates each device to `terminate_all_sessions`. What teardown guarantees is stated by `Fleet.DestroyTearsDown`.
- Fleet.Create: its own contract only relates it to `Fleet.Requested` and `Fleet.Launch`. What it guarantees is stated by the `Fleet.Create…` lemmas.

## Findings

| source | as written | input that shows it | evidently intended | confidence | as-written member | corrected member |
|---|---|---|---|---|---|---|
| acts/framework/acts/controllers/android_device.py:331-341 | `eds` sorts the dispatcher keys `serial + str(uid)` as strings, while `droids` sorts the uids as integers | serial "S", sessions 9 and 10, each with its dispatcher: `droids` lists session 9 first, `eds` (and `ed`) list the dispatcher of session 10 first ("S10" < "S9") | "the indexing of the list matches that of the droids property": entry i of `eds` is the dispatcher of the session of entry i of `droids`, and `ed` is the dispatcher of `droid`'s session | high; not executed | Accessors.EdsOutOfStep | Accessors.AlignedEdsMatchDroids |
