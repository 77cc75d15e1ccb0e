/** The read-only views of the registry: the `droid`, `ed`, `droids` and
    `eds` properties of `AndroidDevice` (android_device.py). `droid` and
    `droids` order sessions by their integer uid; `ed` and `eds` order
    dispatchers by their string key `serial + str(uid)`, which is a different
    order once uids differ in their number of digits. */
module Accessors {
  import opened Results
  import opened Registry
  import opened Order
  import opened Text

  /** `droid`: the first connection of the session with the smallest uid;
      `None` when there is no session (or, the `IndexError` being caught,
      when that session's list is empty). */
  function Droid(d: Device): (r: Option<Conn>)
    ensures |d.sessions| == 0 ==> r == None
    ensures Wf(d) ==> (r.Some? <==> |d.sessions| > 0)
    ensures Wf(d) && r.Some? ==>
      && r.value.uid in d.sessions
      && r.value == d.sessions[r.value.uid][0]
      && forall u :: u in d.sessions ==> r.value.uid <= u
  {
    if |d.sessions| == 0 then None
    else
      var first := MinInt(d.sessions.Keys);
      if |d.sessions[first]| == 0 then None else Some(d.sessions[first][0])
  }

  /** Every session holds at least one connection. */
  predicate AllOpen(d: Device)
  {
    forall u :: u in d.sessions ==> |d.sessions[u]| > 0
  }

  /** The first connection of each listed session, in the order listed. */
  function Firsts(d: Device, ids: seq<int>): (r: seq<Conn>)
    requires forall i :: 0 <= i < |ids| ==> ids[i] in d.sessions && |d.sessions[ids[i]]| > 0
    ensures |r| == |ids|
    ensures forall i :: 0 <= i < |ids| ==> r[i] == d.sessions[ids[i]][0]
  {
    if |ids| == 0 then [] else [d.sessions[ids[0]][0]] + Firsts(d, ids[1..])
  }

  /** `droids`: the first connection of every session, by ascending uid. An
      empty connection list raises `IndexError`, which is not caught here. */
  function Droids(d: Device): (r: Result<seq<Conn>>)
    ensures r.Ok? <==> AllOpen(d)
    ensures r.Err? ==> r.error == IndexOutOfRange
    ensures r.Ok? ==> |r.value| == |d.sessions|
  {
    if !AllOpen(d) then Err(IndexOutOfRange)
    else Ok(Firsts(d, SortedInts(d.sessions.Keys)))
  }

  /** On a well-formed registry `droids` holds one connection per session,
      each the session's first, by strictly ascending uid. */
  lemma DroidsBySession(d: Device)
    requires Wf(d)
    ensures Droids(d).Ok?
    ensures var cs := Droids(d).value;
      && (forall i :: 0 <= i < |cs| ==> cs[i].uid in d.sessions && cs[i] == d.sessions[cs[i].uid][0])
      && (forall i, j :: 0 <= i < j < |cs| ==> cs[i].uid < cs[j].uid)
      && (forall u :: u in d.sessions ==> exists i :: 0 <= i < |cs| && cs[i].uid == u)
  {
    var ids := SortedInts(d.sessions.Keys);
    DroidsUids(d);
    var cs := Droids(d).value;
    assert forall i :: 0 <= i < |cs| ==> cs[i].uid == ids[i] && ids[i] in d.sessions;
    forall u | u in d.sessions
      ensures exists i :: 0 <= i < |cs| && cs[i].uid == u
    {
      var i :| 0 <= i < |ids| && ids[i] == u;
      assert cs[i].uid == u;
    }
  }

  /** Under `Wf` the i-th entry of `droids` is the first connection of the
      i-th smallest session uid. */
  lemma DroidsUids(d: Device)
    requires Wf(d)
    ensures Droids(d).Ok?
    ensures var cs := Droids(d).value; var ids := SortedInts(d.sessions.Keys);
      |cs| == |ids| && forall i :: 0 <= i < |cs| ==> cs[i].uid == ids[i] && cs[i] == d.sessions[ids[i]][0]
  {
    var ids := SortedInts(d.sessions.Keys);
    assert AllOpen(d);
    var cs := Firsts(d, ids);
    assert Droids(d) == Ok(cs);
    forall i | 0 <= i < |cs|
      ensures cs[i].uid == ids[i]
    {
      FirstUid(d, ids[i]);
    }
  }

  /** Under `Wf` a session's first connection carries the session's uid. */
  lemma FirstUid(d: Device, u: int)
    requires Wf(d) && u in d.sessions
    ensures |d.sessions[u]| > 0 && d.sessions[u][0].uid == u
  {
  }

  /** The key the `ed` and `eds` properties order dispatchers by. */
  predicate FirstKey(d: Device, k: string)
  {
    k in d.dispatchers && forall k' :: k' in d.dispatchers && k' != k ==> LexLess(k, k')
  }

  /** `ed`: the dispatcher filed under the lexicographically smallest key,
      `None` when there is none. */
  function Ed(d: Device): (r: Option<Dispatcher>)
    ensures |d.dispatchers| == 0 ==> r == None
    ensures |d.dispatchers| > 0 ==> exists k :: FirstKey(d, k) && r == d.dispatchers[k]
    ensures Wf(d) ==> (r.Some? <==> |d.dispatchers| > 0)
  {
    if |d.dispatchers| == 0 then None
    else
      var k := MinString(d.dispatchers.Keys);
      assert FirstKey(d, k);
      d.dispatchers[k]
  }

  /** `eds`: every dispatcher, by ascending string key. */
  function Eds(d: Device): (r: seq<Option<Dispatcher>>)
    ensures |r| == |d.dispatchers|
    ensures forall i :: 0 <= i < |r| ==> exists k :: k in d.dispatchers && r[i] == d.dispatchers[k]
    ensures Wf(d) ==> forall i :: 0 <= i < |r| ==> r[i].Some?
  {
    var keys := SortedStrings(d.dispatchers.Keys);
    seq(|keys|, i requires 0 <= i < |keys| => d.dispatchers[keys[i]])
  }

  /** `eds` reads the dispatchers along a list of their keys that holds every
      key once, in strictly ascending string order. */
  lemma EdsInKeyOrder(d: Device)
    ensures exists keys: seq<string> ::
      && |keys| == |Eds(d)|
      && (forall i :: 0 <= i < |keys| ==> keys[i] in d.dispatchers && Eds(d)[i] == d.dispatchers[keys[i]])
      && (forall i, j :: 0 <= i < j < |keys| ==> LexLess(keys[i], keys[j]))
      && (forall k :: k in d.dispatchers ==> k in keys)
  {
    var keys := SortedStrings(d.dispatchers.Keys);
    assert forall i :: 0 <= i < |keys| ==> Eds(d)[i] == d.dispatchers[keys[i]];
  }

  /** `droid` is the head of `droids`. */
  lemma DroidHeadsDroids(d: Device)
    requires |d.sessions| > 0 && Droids(d).Ok?
    ensures Droid(d) == Some(Droids(d).value[0])
  {
    SortedHeads(d.sessions.Keys, {});
  }

  /** `ed` is the head of `eds`. */
  lemma EdHeadsEds(d: Device)
    requires |d.dispatchers| > 0
    ensures Ed(d) == Eds(d)[0]
  {
    SortedHeads({}, d.dispatchers.Keys);
  }

  // ----- the order of `eds` against `droids` -----

  /** What the `eds` documentation promises: one entry per session, in the
      order of `droids`, holding that session's dispatcher (`None` when it
      has none). */
  function AlignedEds(d: Device): (r: seq<Option<Dispatcher>>)
    ensures |r| == |d.sessions|
  {
    var ids := SortedInts(d.sessions.Keys);
    seq(|ids|, i requires 0 <= i < |ids| =>
      var key := Key(d.serial, ids[i]);
      if key in d.dispatchers then d.dispatchers[key] else None)
  }

  /** The dispatcher of the session `droid` returns. */
  function AlignedEd(d: Device): (r: Option<Dispatcher>)
    ensures |d.sessions| == 0 ==> r == None
  {
    if |d.sessions| == 0 then None
    else
      var key := Key(d.serial, MinInt(d.sessions.Keys));
      if key in d.dispatchers then d.dispatchers[key] else None
  }

  /** On a registry where sessions and dispatchers correspond, the i-th entry
      of `AlignedEds` is the dispatcher of the i-th session of `droids`. */
  lemma AlignedEdsMatchDroids(d: Device)
    requires Aligned(d)
    ensures Droids(d).Ok?
    ensures |AlignedEds(d)| == |Droids(d).value|
    ensures forall i :: 0 <= i < |AlignedEds(d)| ==>
      AlignedEds(d)[i].Some? && AlignedEds(d)[i].value.conn.uid == Droids(d).value[i].uid
  {
    var ids := SortedInts(d.sessions.Keys);
    var eds := AlignedEds(d);
    var droids := Droids(d).value;
    forall i | 0 <= i < |eds|
      ensures eds[i].Some? && eds[i].value.conn.uid == droids[i].uid
    {
      var key := Key(d.serial, ids[i]);
      assert key in d.dispatchers;
      var u := d.dispatchers[key].value.conn.uid;
      assert key == Key(d.serial, u);
      KeyInjective(d.serial, u, ids[i]);
    }
  }

  /** `AlignedEd` is the dispatcher of `droid`'s session. */
  lemma AlignedEdMatchesDroid(d: Device)
    requires Aligned(d) && |d.sessions| > 0
    ensures Droid(d).Some? && AlignedEd(d).Some?
    ensures AlignedEd(d).value.conn.uid == Droid(d).value.uid
  {
    var u := MinInt(d.sessions.Keys);
    var key := Key(d.serial, u);
    KeyInjective(d.serial, d.dispatchers[key].value.conn.uid, u);
  }

  /** With a single session the two orders cannot disagree: `ed` is the
      session's dispatcher. */
  lemma EdOnOneSession(d: Device)
    requires Aligned(d) && |d.sessions| == 1
    ensures Ed(d) == AlignedEd(d)
  {
    var u := MinInt(d.sessions.Keys);
    var key := Key(d.serial, u);
    assert |d.sessions.Keys - {u}| == 0;
    assert d.sessions.Keys == {u};
    assert d.dispatchers.Keys == {key};
  }

  /** Two sessions, uids 9 and 10, each with its dispatcher. */
  function TwoSessions(): Device
  {
    var c9 := Conn(9, Some(5000), false);
    var c10 := Conn(10, Some(5000), false);
    Device("S", Some(5000), DefaultDevicePort,
      map[9 := [c9], 10 := [c10]],
      map["S9" := Some(Dispatcher(Conn(9, Some(5000), true))),
          "S10" := Some(Dispatcher(Conn(10, Some(5000), true)))],
      map[])
  }

  lemma TwoSessionKeys()
    ensures Key("S", 9) == "S9" && Key("S", 10) == "S10"
  {
    assert IntToString(9) == "9";
    assert NatToString(10) == NatToString(1) + [DigitChar(0)];
    assert IntToString(10) == "10";
  }

  lemma SortedNineTen()
    ensures SortedInts({9, 10}) == [9, 10]
  {
    var ids := SortedInts({9, 10});
    assert 9 in ids && 10 in ids;
  }

  lemma SortedNineTenKeys()
    ensures SortedStrings({"S9", "S10"}) == ["S10", "S9"]
  {
    var keys := SortedStrings({"S9", "S10"});
    assert "S9" in keys && "S10" in keys;
    assert LexLess("S10", "S9");
    LexAsymmetric();
  }

  lemma TwoSessionsAligned()
    ensures Aligned(TwoSessions())
  {
    var d := TwoSessions();
    TwoSessionKeys();
    assert d.sessions.Keys == {9, 10};
    assert d.dispatchers.Keys == {"S9", "S10"};
  }

  lemma TwoSessionsDroids()
    ensures Droids(TwoSessions()).Ok?
    ensures Droids(TwoSessions()).value[0].uid == 9
  {
    var d := TwoSessions();
    assert d.sessions.Keys == {9, 10};
    assert AllOpen(d);
    SortedNineTen();
    assert Droids(d).value == Firsts(d, [9, 10]);
  }

  lemma TwoSessionsEds()
    ensures |Eds(TwoSessions())| == 2
    ensures Eds(TwoSessions())[0].Some? && Eds(TwoSessions())[0].value.conn.uid == 10
  {
    var d := TwoSessions();
    assert d.dispatchers.Keys == {"S9", "S10"};
    SortedNineTenKeys();
  }

  /** As written, `eds` lists the dispatcher of session 10 before that of
      session 9 while `droids` lists session 9 first: the documented
      correspondence of the two lists fails on an aligned registry. */
  lemma EdsOutOfStep()
    ensures Aligned(TwoSessions())
    ensures Droids(TwoSessions()).Ok?
    ensures Droids(TwoSessions()).value[0].uid == 9
    ensures Eds(TwoSessions())[0].Some? && Eds(TwoSessions())[0].value.conn.uid == 10
    ensures Ed(TwoSessions()).value.conn.uid != Droid(TwoSessions()).value.uid
  {
    var d := TwoSessions();
    TwoSessionsAligned();
    TwoSessionsDroids();
    TwoSessionsEds();
    DroidHeadsDroids(d);
    EdHeadsEds(d);
  }
}
