/** The class `CarberryObdPort` (carberry_io/carberry_io.py): the session
    with an ELM327 adapter. Every method becomes a function from the port's
    state to its new state and result.

    The port object holds the serial handle (`self.port`, possibly `None`),
    the connection flag `state` (1 connected, 0 not) and the adapter's
    reported version `elm_version`. The model keeps the serial device itself
    as a `Line` that outlives the handle: what is still to be read, everything
    written to it, and whether `close()` was called on it. */
module ObdPort {
  import opened Outcomes
  import opened Text
  import opened Wire

  /** The Python integer flag `state`: 1 connected, 0 connection failed. */
  type Flag = x: int | 0 <= x <= 1

  datatype Line = Line(input: Stream, written: string, closed: bool)

  /** `attached` is `self.port is not None`. */
  datatype Port = Port(line: Line, attached: bool, state: Flag, elmVersion: Option<string>)

  /** A port together with what a call on it returned. */
  datatype Step<T> = Step(port: Port, out: T)

  const Unknown: string := "Unknown"
  const NoDataText: string := "NODATA"

  /** `send_command`: with a handle, the command and CR LF go on the wire;
      without one nothing happens. */
  function SendCommand(p: Port, cmd: string): (q: Port)
    ensures q.attached == p.attached && q.state == p.state && q.elmVersion == p.elmVersion
    ensures q.line.input == p.line.input && q.line.closed == p.line.closed
    ensures p.attached ==> q.line.written == p.line.written + Frame(cmd)
    ensures !p.attached ==> q == p
  {
    if p.attached then p.(line := p.line.(written := p.line.written + Frame(cmd))) else p
  }

  /** The adapter reads back, line by line, exactly the commands sent so far. */
  lemma SendCommandTranscript(p: Port, cmds: seq<string>, cmd: string)
    requires p.attached && p.line.written == Frames(cmds)
    requires forall i :: 0 <= i < |cmds| ==> '\r' !in cmds[i]
    requires '\r' !in cmd
    ensures SendCommand(p, cmd).line.written == Frames(cmds + [cmd])
    ensures Unframe(SendCommand(p, cmd).line.written) == cmds + [cmd]
  {
    FramesAppend(cmds, cmd);
    UnframeFrames(cmds + [cmd]);
  }

  /** `get_result`: with a handle, the next response on the line; without
      one, `None` and nothing is read. Only the line's input moves. */
  function GetResult(p: Port): (g: Step<Option<string>>)
    ensures Clean(g.out)
    ensures g.port == p.(line := p.line.(input := g.port.line.input))
    ensures !p.attached ==> g.port == p && g.out.None?
    ensures p.attached ==>
      g.out == Replies(p.line.input, 1)[0] && g.port.line.input == After(p.line.input, 1)
  {
    if p.attached then
      var r := ReadReply(p.line.input);
      var rest := p.line.input[r.used..];
      ReadReplySpec(p.line.input);
      assert After(rest, 0) == rest;
      Step(p.(line := p.line.(input := rest)), r.response)
    else Step(p, None)
  }

  /** `__init__`: open the serial device, then the handshake `atz`, `ate0`,
      `0100`. `portOpens` says whether `serial.Serial` succeeds and
      `atzWriteFails` whether writing `atz` raises `SerialException`; the
      adapter's answers come from `input`. An absent answer to `ate0` is
      concatenated to a string and raises out of the constructor. */
  function Open(portOpens: bool, atzWriteFails: bool, input: Stream): (r: Outcome<Port>)
    ensures !portOpens ==>
      r.Ok? && !r.value.attached && r.value.state == 0 && r.value.line == Line(input, [], false)
    ensures r.Raised? ==> r.error == TypeError
    // a failed handshake still keeps the handle
    ensures r.Ok? && portOpens ==> r.value.attached && !r.value.line.closed
  {
    var line := Line(input, [], false);
    if !portOpens then Ok(Port(line, false, 0, Some(Unknown)))
    else
      var p := Port(line, true, 1, Some(Unknown));
      if atzWriteFails then Ok(p.(state := 0))
      else
        var atz := GetResult(SendCommand(p, "atz"));
        var p1 := atz.port.(elmVersion := atz.out);
        if atz.out.None? then Ok(p1.(state := 0))
        else
          var ate0 := GetResult(SendCommand(p1, "ate0"));
          if ate0.out.None? then Raised(TypeError)
          else
            var ready := GetResult(SendCommand(ate0.port, "0100"));
            if ready.out.None? then Ok(ready.port.(state := 0)) else Ok(ready.port)
  }

  /** The handshake in terms of the adapter's first three answers: the
      constructor raises exactly when `atz` is answered and `ate0` is not;
      otherwise `state` ends 1 exactly when the device opened, `atz` could be
      written, and both `atz` and `0100` were answered. */
  lemma OpenHandshake(portOpens: bool, atzWriteFails: bool, input: Stream)
    ensures var r := Open(portOpens, atzWriteFails, input);
      && (r.Raised? <==>
            portOpens && !atzWriteFails && Replies(input, 2)[0].Some? && Replies(input, 2)[1].None?)
      && (r.Ok? ==>
            (r.value.state == 1 <==>
               portOpens && !atzWriteFails && Replies(input, 3)[0].Some? && Replies(input, 3)[2].Some?))
      && (r.Ok? && r.value.state == 1 ==>
            && r.value.elmVersion == Replies(input, 1)[0]
            && r.value.line == Line(After(input, 3), Frames(["atz", "ate0", "0100"]), false))
  {
    var r := Open(portOpens, atzWriteFails, input);
    RepliesUnfold(input);
    if portOpens && !atzWriteFails {
      var p := Port(Line(input, [], false), true, 1, Some(Unknown));
      var r0 := ReadReply(input);
      var in1 := input[r0.used..];
      var atz := GetResult(SendCommand(p, "atz"));
      assert atz.out == r0.response;
      assert atz.port.line == Line(in1, Frame("atz"), false);
      if atz.out.Some? {
        var p1 := atz.port.(elmVersion := atz.out);
        var r1 := ReadReply(in1);
        var in2 := in1[r1.used..];
        var ate0 := GetResult(SendCommand(p1, "ate0"));
        assert ate0.out == r1.response;
        assert ate0.port.line == Line(in2, Frame("atz") + Frame("ate0"), false);
        if ate0.out.Some? {
          var r2 := ReadReply(in2);
          var ready := GetResult(SendCommand(ate0.port, "0100"));
          assert ready.out == r2.response;
          assert ready.port.line == Line(in2[r2.used..], Frame("atz") + Frame("ate0") + Frame("0100"), false);
          assert ready.port.elmVersion == r0.response;
          assert r == (if ready.out.None? then Ok(ready.port.(state := 0)) else Ok(ready.port));
          HandshakeFrames();
        }
      }
    }
  }

  /** The three handshake commands, framed. */
  lemma HandshakeFrames()
    ensures Frames(["atz", "ate0", "0100"]) == Frame("atz") + Frame("ate0") + Frame("0100")
  {
    var cmds: seq<string> := ["atz", "ate0", "0100"];
    FramesAppend([], "atz");
    FramesAppend(["atz"], "ate0");
    FramesAppend(["atz", "ate0"], "0100");
    assert [] + ["atz"] == ["atz"];
    assert ["atz"] + ["ate0"] == ["atz", "ate0"];
    assert ["atz", "ate0"] + ["0100"] == cmds;
  }

  /** `close`: a connected port with a handle resets the adapter and closes
      the device; in every case the handle is dropped and the version
      forgotten. The flag `state` is left as it was. */
  function Close(p: Port): (q: Port)
    ensures !q.attached && q.elmVersion == Some(Unknown) && q.state == p.state
    ensures q.line.input == p.line.input
    ensures q.line.closed <==> p.line.closed || (p.attached && p.state == 1)
    ensures q.line.written ==
      p.line.written + (if p.attached && p.state == 1 then Frame("atz") else [])
  {
    if p.attached && p.state == 1 then
      var reset := SendCommand(p, "atz");
      reset.(line := reset.line.(closed := true), attached := false, elmVersion := Some(Unknown))
    else p.(attached := false, elmVersion := Some(Unknown))
  }

  /** A second `close` does nothing. */
  lemma CloseTwice(p: Port)
    ensures Close(Close(p)) == Close(p)
  {
  }

  /** After a handshake that failed once the device was open, `close` drops
      the handle without ever closing the device. */
  lemma CloseAfterFailedHandshakeLeavesLineOpen(atzWriteFails: bool, input: Stream)
    requires Open(true, atzWriteFails, input).Ok?
    requires Open(true, atzWriteFails, input).value.state == 0
    ensures !Close(Open(true, atzWriteFails, input).value).line.closed
    ensures Close(Open(true, atzWriteFails, input).value).line.written ==
            Open(true, atzWriteFails, input).value.line.written
  {
  }

  /** The response starts with the sentinel, once spaces are gone. */
  predicate HasNoDataPrefix(text: string) {
    |text| >= 6 && text[..6] == NoDataText
  }

  /** `interpret_result`: keep the first line, remove whitespace, recognise
      `NODATA`, otherwise drop the four-character mode/PID echo. For short input
      `interpret_result` only prints a warning and processes it all the same. */
  function InterpretResult(code: string): (r: string)
    ensures NoSpaces(r)
    ensures var text := RemoveSpaces(BeforeFirst(code, '\r'));
      && (HasNoDataPrefix(text) ==> r == NoDataText)
      && (!HasNoDataPrefix(text) ==> |r| == if |text| < 4 then 0 else |text| - 4)
      && (!HasNoDataPrefix(text) ==> forall k :: 0 <= k < |r| ==> r[k] == text[k + 4])
  {
    var text := RemoveSpaces(BeforeFirst(code, '\r'));
    if HasNoDataPrefix(text) then NoDataText
    else if |text| < 4 then []
    else text[4..]
  }

  /** Only the first line counts: anything after a carriage return is ignored. */
  lemma InterpretFirstLineOnly(first: string, rest: string)
    requires '\r' !in first
    ensures InterpretResult(first + "\r" + rest) == InterpretResult(first)
  {
    BeforeFirstAt(first, '\r', rest);
    BeforeFirstAbsent(first, '\r');
  }

  /** The echo round trip: an adapter line `header payload`, with the
      four-character header and the payload bytes spaced out in any way,
      interprets to the payload. */
  lemma InterpretDropsEcho(header: string, payload: string, spaced: string)
    requires |header| == 4 && NoSpaces(header) && NoSpaces(payload)
    requires '\r' !in spaced && RemoveSpaces(spaced) == header + payload
    requires !HasNoDataPrefix(header + payload)
    ensures InterpretResult(spaced) == payload
  {
    BeforeFirstAbsent(spaced, '\r');
    assert (header + payload)[4..] == payload;
  }

  /** The `NODATA` test looks only at the start of the line, but dropping
      the echo can leave `NODATA` too: a line such as `4100NODATA` fails the
      test and still interprets to `NODATA`. */
  lemma InterpretEchoedNoData(header: string)
    requires |header| == 4 && NoSpaces(header) && '\r' !in header
    requires !HasNoDataPrefix(header + NoDataText)
    ensures InterpretResult(header + NoDataText) == NoDataText
  {
    var code := header + NoDataText;
    assert forall k :: 4 <= k < |code| ==> code[k] == NoDataText[k - 4];
    assert NoSpaces(code);
    assert '\r' !in code;
    RemoveSpacesKeepsSpaceless(code);
    InterpretDropsEcho(header, NoDataText, code);
  }

  /** The adapter's spelling "NO DATA" is recognised too, since spaces go first. */
  lemma InterpretNoDataWithSpace(rest: string)
    requires '\r' !in rest
    ensures InterpretResult("NO DATA" + rest) == NoDataText
  {
    var code := "NO DATA" + rest;
    assert '\r' !in code by {
      assert forall k :: 7 <= k < |code| ==> code[k] == rest[k - 7];
    }
    BeforeFirstAbsent(code, '\r');
    SpacedNoData(rest);
  }

  lemma SpacedNoData(rest: string)
    ensures HasNoDataPrefix(RemoveSpaces("NO DATA" + rest))
  {
    RemoveSpacesAppend("NO DATA", rest);
    assert "NO DATA"[1..] == "O DATA" && "O DATA"[1..] == " DATA" && " DATA"[1..] == "DATA";
    RemoveSpacesKeepsSpaceless("DATA");
    assert RemoveSpaces("NO DATA") == "NODATA";
    assert (NoDataText + RemoveSpaces(rest))[..6] == NoDataText;
  }

  /** A sensor of the external registry: its command, name, unit and the
      decode function applied to an interpreted payload. */
  datatype Sensor<V> = Sensor(cmd: string, name: string, unit: string, value: string -> V)

  /** The three outcomes of a sensor read. */
  datatype Reading<V> = NoResponse | NoData | Value(v: V)

  /** `get_sensor_value`: send the sensor's command; no response is
      `NORESPONSE`; an interpreted `NODATA` is returned without ever decoding;
      anything else is decoded by the sensor. */
  function GetSensorValue<V>(p: Port, sensor: Sensor<V>): (g: Step<Reading<V>>)
    ensures !p.attached ==> g == Step(p, NoResponse)
    ensures p.attached ==> g.port == p.(line := p.line.(
      input := After(p.line.input, 1), written := p.line.written + Frame(sensor.cmd)))
    ensures p.attached ==>
      var reply := Replies(p.line.input, 1)[0];
      && (g.out.NoResponse? <==> reply.None?)
      && (g.out.NoData? <==> reply.Some? && InterpretResult(reply.value) == NoDataText)
      && (g.out.Value? ==> InterpretResult(reply.value) != NoDataText
                           && g.out.v == sensor.value(InterpretResult(reply.value)))
  {
    var sent := SendCommand(p, sensor.cmd);
    var g := GetResult(sent);
    if g.out.None? then Step(g.port, NoResponse)
    else
      var data := InterpretResult(g.out.value);
      if data == NoDataText then Step(g.port, NoData)
      else Step(g.port, Value(sensor.value(data)))
  }

  /** `sensor(i)`'s triple: name, reading, unit. */
  datatype SensorRow<V> = SensorRow(name: string, reading: Reading<V>, unit: string)

  /** `sensor(i)`: look the sensor up in the registry (an index past its end
      raises) and read it. */
  function ReadSensor<V>(p: Port, registry: seq<Sensor<V>>, index: nat): (r: Outcome<Step<SensorRow<V>>>)
    ensures r.Raised? <==> index >= |registry|
    ensures r.Raised? ==> r.error == IndexError
    ensures r.Ok? ==>
      var g := GetSensorValue(p, registry[index]);
      && r.value.port == g.port
      && r.value.out == SensorRow(registry[index].name, g.out, registry[index].unit)
  {
    if index >= |registry| then Raised(IndexError)
    else
      var sensor := registry[index];
      var g := GetSensorValue(p, sensor);
      Ok(Step(g.port, SensorRow(sensor.name, g.out, sensor.unit)))
  }

  /** `clear_dtc`: send mode 04 and return the raw response, uninterpreted. */
  function ClearDtc(p: Port): (g: Step<Option<string>>)
    ensures !p.attached ==> g == Step(p, None)
    ensures p.attached ==> g.port == p.(line := p.line.(
      input := After(p.line.input, 1), written := p.line.written + Frame("04")))
    ensures p.attached ==> g.out == Replies(p.line.input, 1)[0]
  {
    GetResult(SendCommand(p, "04"))
  }
}
