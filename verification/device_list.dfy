/** Device discovery: reading the device listing printed by `adb devices` or
    `fastboot devices` (android_device.py, `_parse_device_list` and the two
    listing helpers built on it). */
module DeviceList {
  import opened Text

  /** The lines of a listing: the whole output stripped, then cut at `\n`. */
  function Lines(output: string): seq<string>
  {
    Split(Strip(output), '\n')
  }

  /** What one line contributes: its first tab-separated token when the
      stripped line has exactly two tokens and the second one is `key`. */
  function LineSerial(line: string, key: string): seq<string>
  {
    var tokens := Split(Strip(line), '\t');
    if |tokens| == 2 && tokens[1] == key then [tokens[0]] else []
  }

  function Select(lines: seq<string>, key: string): (r: seq<string>)
    ensures |r| <= |lines|
  {
    if |lines| == 0 then [] else LineSerial(lines[0], key) + Select(lines[1..], key)
  }

  /** `_parse_device_list(output, key)`: the serials of the devices whose
      state is `key`, in the order the listing gives them. */
  function ParseDeviceList(output: string, key: string): (r: seq<string>)
    ensures |r| <= |Lines(output)|
    ensures forall i :: 0 <= i < |r| ==> |r[i]| > 0 && !IsSpace(r[i][0]) && '\t' !in r[i] && '\n' !in r[i]
  {
    SelectTokens(Lines(output), key);
    Select(Lines(output), key)
  }

  /** `list_adb_devices`, given what `adb devices` printed: the serials of
      the lines that read serial, tab, `device`. */
  function ListAdbDevices(output: string): (r: seq<string>)
    ensures forall x :: x in r <==>
      exists i :: 0 <= i < |Lines(output)| && LineMatches(Lines(output)[i], "device", x)
  {
    ParseDeviceListExactly(output, "device");
    ParseDeviceList(output, "device")
  }

  /** `list_fastboot_devices`, given what `fastboot devices` printed: the
      serials of the lines that read serial, tab, `fastboot`. */
  function ListFastbootDevices(output: string): (r: seq<string>)
    ensures forall x :: x in r <==>
      exists i :: 0 <= i < |Lines(output)| && LineMatches(Lines(output)[i], "fastboot", x)
  {
    ParseDeviceListExactly(output, "fastboot");
    ParseDeviceList(output, "fastboot")
  }

  lemma ParseDeviceListExactly(output: string, key: string)
    ensures forall x :: x in ParseDeviceList(output, key) <==>
      exists i :: 0 <= i < |Lines(output)| && LineMatches(Lines(output)[i], key, x)
  {
    forall x {
      ParseDeviceListMembers(output, key, x);
    }
  }

  /** A line matches when, stripped, it is a tab-free token, one tab, and the key. */
  predicate LineMatches(line: string, key: string, serial: string)
  {
    Strip(line) == serial + ['\t'] + key && '\t' !in serial && '\t' !in key
  }

  /** The serial a line contributes is the token in front of its tab. */
  lemma LineSerialMatches(line: string, key: string, x: string)
    ensures x in LineSerial(line, key) <==> LineMatches(line, key, x)
  {
    SplitTwo(Strip(line), '\t', x, key);
  }

  /** Every serial read from a line is non-empty, does not start with
      whitespace and holds neither a tab nor a newline. */
  lemma {:induction false} SelectTokens(lines: seq<string>, key: string)
    requires forall i :: 0 <= i < |lines| ==> '\n' !in lines[i]
    ensures forall x :: x in Select(lines, key) ==>
      |x| > 0 && !IsSpace(x[0]) && '\t' !in x && '\n' !in x
  {
    if |lines| > 0 {
      SelectTokens(lines[1..], key);
      forall x | x in LineSerial(lines[0], key)
        ensures |x| > 0 && !IsSpace(x[0]) && '\t' !in x && '\n' !in x
      {
        LineSerialMatches(lines[0], key, x);
        MatchedToken(lines[0], key, x);
      }
    }
  }

  /** The serial of a matching line is a token that starts with no
      whitespace, taken from the line itself. */
  lemma MatchedToken(line: string, key: string, x: string)
    requires LineMatches(line, key, x) && '\n' !in line
    ensures |x| > 0 && !IsSpace(x[0]) && '\t' !in x && '\n' !in x
  {
    StripFacts(line);
    var t := Strip(line);
    assert t == x + ['\t'] + key;
    assert t[0] == (x + ['\t'] + key)[0];
    assert |x| > 0 ==> t[0] == x[0];
    forall c | c in x
      ensures c in t
    {
      var j :| 0 <= j < |x| && x[j] == c;
      assert t[j] == c;
    }
  }

  /** The serials `_parse_device_list` returns are exactly the serials of the
      lines that match, whatever the listing. */
  lemma {:induction false} ParseDeviceListMembers(output: string, key: string, x: string)
    ensures x in ParseDeviceList(output, key) <==>
      exists i :: 0 <= i < |Lines(output)| && LineMatches(Lines(output)[i], key, x)
  {
    SelectMembers(Lines(output), key, x);
  }

  lemma {:induction false} SelectMembers(lines: seq<string>, key: string, x: string)
    ensures x in Select(lines, key) <==> exists i :: 0 <= i < |lines| && LineMatches(lines[i], key, x)
  {
    if |lines| > 0 {
      var tail := lines[1..];
      SelectMembers(tail, key, x);
      LineSerialMatches(lines[0], key, x);
      assert Select(lines, key) == LineSerial(lines[0], key) + Select(tail, key);
      if x in Select(lines, key) && !LineMatches(lines[0], key, x) {
        var i :| 0 <= i < |tail| && LineMatches(tail[i], key, x);
        assert lines[i + 1] == tail[i];
      }
      if exists i :: 0 <= i < |lines| && LineMatches(lines[i], key, x) {
        var i :| 0 <= i < |lines| && LineMatches(lines[i], key, x);
        if i > 0 {
          assert tail[i - 1] == lines[i];
        }
      }
    }
  }

  // ----- the listing format, and the round trip through the parser -----

  /** One line of a listing: a device and its state, or any other text
      (the `List of devices attached` banner adb prints first). */
  datatype Row = Attached(serial: string, state: string) | Banner(text: string)

  function RowLine(row: Row): string
  {
    match row
    case Attached(serial, state) => serial + ['\t'] + state
    case Banner(text) => text
  }

  function RowLines(rows: seq<Row>): (r: seq<string>)
    ensures |r| == |rows|
    ensures forall i :: 0 <= i < |rows| ==> r[i] == RowLine(rows[i])
  {
    if |rows| == 0 then [] else [RowLine(rows[0])] + RowLines(rows[1..])
  }

  /** The text of a listing: its lines joined by newlines. */
  function Render(rows: seq<Row>): string
  {
    Join(RowLines(rows), '\n')
  }

  /** A token of a listing: no tab, no newline. */
  predicate PlainToken(s: string)
  {
    '\t' !in s && '\n' !in s
  }

  /** A row as adb and fastboot print it: serial and state are non-empty
      plain tokens, the line neither starts nor ends with whitespace, and a
      banner has no tab. */
  predicate WellFormedRow(row: Row)
  {
    match row
    case Attached(serial, state) =>
      && |serial| > 0 && !IsSpace(serial[0]) && PlainToken(serial)
      && |state| > 0 && !IsSpace(state[|state| - 1]) && PlainToken(state)
    case Banner(text) =>
      |text| > 0 && !IsSpace(text[0]) && !IsSpace(text[|text| - 1]) && PlainToken(text)
  }

  /** The serials of the rows in state `key`, in listing order. */
  function SerialsInState(rows: seq<Row>, key: string): seq<string>
  {
    if |rows| == 0 then []
    else if rows[0].Attached? && rows[0].state == key then [rows[0].serial] + SerialsInState(rows[1..], key)
    else SerialsInState(rows[1..], key)
  }

  /** Round trip: parsing a listing, whatever whitespace trails it, returns
      exactly the serials of the devices in state `key`, in order. */
  lemma ParseRender(rows: seq<Row>, tail: string, key: string)
    requires forall i :: 0 <= i < |rows| ==> WellFormedRow(rows[i])
    requires forall i :: 0 <= i < |tail| ==> IsSpace(tail[i])
    ensures ParseDeviceList(Render(rows) + tail, key) == SerialsInState(rows, key)
  {
    var lines := RowLines(rows);
    if |rows| == 0 {
      assert Render(rows) + tail == tail;
      StripAllSpace(tail);
      assert Lines(tail) == [""];
      assert Split(Strip(""), '\t') == [""];
    } else {
      forall i | 0 <= i < |lines|
        ensures |lines[i]| > 0 && '\n' !in lines[i]
      {
        assert lines[i] == RowLine(rows[i]);
      }
      JoinEnds(lines, '\n');
      StripTrailing(Render(rows), tail);
      SplitJoin(lines, '\n');
      SelectRows(rows, key);
    }
  }

  /** `list_adb_devices` and `list_fastboot_devices` on a listing as the
      tools print it: the serials of the devices in state `device`,
      respectively `fastboot`, in listing order. */
  lemma ListDevicesRender(rows: seq<Row>, tail: string)
    requires forall i :: 0 <= i < |rows| ==> WellFormedRow(rows[i])
    requires forall i :: 0 <= i < |tail| ==> IsSpace(tail[i])
    ensures ListAdbDevices(Render(rows) + tail) == SerialsInState(rows, "device")
    ensures ListFastbootDevices(Render(rows) + tail) == SerialsInState(rows, "fastboot")
  {
    ParseRender(rows, tail, "device");
    ParseRender(rows, tail, "fastboot");
  }

  lemma {:induction false} SelectRows(rows: seq<Row>, key: string)
    requires forall i :: 0 <= i < |rows| ==> WellFormedRow(rows[i])
    ensures Select(RowLines(rows), key) == SerialsInState(rows, key)
  {
    if |rows| > 0 {
      SelectRows(rows[1..], key);
      assert RowLines(rows)[1..] == RowLines(rows[1..]);
      RowSerial(rows[0], key);
    }
  }

  /** A well-formed row contributes its serial exactly when its state is `key`. */
  lemma RowSerial(row: Row, key: string)
    requires WellFormedRow(row)
    ensures LineSerial(RowLine(row), key) ==
      (if row.Attached? && row.state == key then [row.serial] else [])
  {
    var line := RowLine(row);
    StripKeeps(line);
    match row
    case Attached(serial, state) =>
      SplitTwo(line, '\t', serial, state);
    case Banner(text) =>
      SplitNoSeparator(text, '\t');
  }

  /** A join of lines starts with the first line's first character and ends
      with the last line's last character. */
  lemma {:induction false} JoinEnds(ps: seq<string>, c: char)
    requires |ps| > 0 && forall i :: 0 <= i < |ps| ==> |ps[i]| > 0
    ensures |Join(ps, c)| > 0
    ensures Join(ps, c)[0] == ps[0][0]
    ensures Join(ps, c)[|Join(ps, c)| - 1] == ps[|ps| - 1][|ps[|ps| - 1]| - 1]
  {
    if |ps| > 1 {
      JoinEnds(ps[1..], c);
    }
  }
}
