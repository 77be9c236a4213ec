# carberry-pi ELM327 core, modelled in Dafny

carberry-pi is a Raspberry Pi dashboard that talks OBD-II to a car through an
ELM327 serial adapter. This project models its protocol core:

- the port session of `CarberryObdPort`, in module `ObdPort`;
- the reading and framing of adapter responses, in module `Wire`;
- the decoding of diagnostic trouble codes, in module `Dtc`;
- port selection and the supported-sensor partition of `OBDCapture`, in module `Capture`;
- the six-per-page paging of the gauge panel, in module `Gauges`.

`Text` states the few Python string operations the code relies on, and
`Outcomes` turns Python's `None` and exceptions into values.

The adapter is modelled as a finite stream of read outcomes:
`seq<Option<char>>`, where `None` is a read that timed out and reading past
the end is also empty. What the port writes is modelled as one growing string.
`get_result` becomes the pure function `Wire.ReadReply`. `Wire.Replies(input, n)`
and `Wire.After(input, n)` describe `n` successive calls: the responses they
return, and what is left of the line after them. Every operation's contract
is stated in those terms. A call that raises in Python returns
`Raised(TypeError | IndexError | BadHex | BadDtc)`.

The DTC loops of `get_dtc` are stated against reference definitions written
on the responses alone:
- `Dtc.FrameOf` decodes one response slot by slot.
- `Dtc.ActiveOf` joins the frames of the mode 03 responses in order; the first
  exception ends it.
- `Dtc.DtcsOf` adds the mode 07 response.

Quirks of the code, modelled as written:

- The empty-read counter of `get_result` is never reset by a character that
  arrives. The loop ends at the sixth empty read of the whole call, however
  many characters arrived in between (`Wire.SixthEmptyReadEnds`).
- `get_dtc` tests the raw mode 07 response with `res[:7] == "NODATA"`. It
  does not interpret the response first, and only the exact text `NODATA`
  passes (`Dtc.FreezeTestIsExactMatch`).
- `get_dtc` picks the code letter with `(val & 0xC000) > 14`, a comparison,
  so only `P` and `C` ever appear. See "## Findings".
- `clear_dtc` returns the raw response of mode 04, not an interpreted one.
- `capture_data` looks up registry entry `i + 1` for every flag. A flag
  string as long as the registry raises `IndexError`; nothing is skipped.

## Model

| member | source | states |
|---|---|---|
| Text.RemoveSpaces | carberry_io/carberry_io.py:141-143 | the split-and-join leaves no whitespace and never lengthens the text |
| Text.RemoveSpacesAppend | carberry_io/carberry_io.py:141-143 | removing whitespace distributes over concatenation |
| Text.RemoveSpacesOne | carberry_io/carberry_io.py:141-143 | a single whitespace character is removed and any other is kept; with `RemoveSpacesAppend` this fixes the result on every text |
| Text.RemoveSpacesKeepsSpaceless | carberry_io/carberry_io.py:141-143 | text without whitespace is returned unchanged |
| Text.BeforeFirst | carberry_io/carberry_io.py:137-139 | `split("\r")[0]` is a prefix free of CR, ending just before the first CR if there is one |
| Text.BeforeFirstAbsent | carberry_io/carberry_io.py:137-139 | with no CR the first piece is the whole text |
| Text.BeforeFirstAt | carberry_io/carberry_io.py:137-139 | the first piece is exactly what precedes the first CR, whatever follows |
| Text.Slice | carberry_io/carberry_io.py:232-233 | Python's clamped slice has the clamped length: empty when the bounds cross or start past the end |
| Text.SliceChars | carberry_io/carberry_io.py:232-233 | the clamped slice holds the characters of the text from `lo` on |
| Text.HexDigit | carberry_io/carberry_io.py:41-44 | a character has a hex value exactly when it is a hex digit, and the value is below 16 |
| Text.HexToInt | carberry_io/carberry_io.py:232-233 | `hex_to_int` succeeds exactly on non-empty text made only of hex digits |
| Text.HexToIntSpec | carberry_io/carberry_io.py:232-233 | `n` hex digits give a value below 16^n |
| Text.HexByteBound | carberry_io/carberry_io.py:232-233 | a one- or two-digit slice reads as a byte |
| Text.HexWord | carberry_io/carberry_io.py:41-44 | four hex digits read as the word `h0*4096 + h1*256 + h2*16 + h3` |
| Text.Decimal | carberry_io/carberry_io.py:41-44 | `str(n)` is a non-empty run of decimal digits, one digit exactly when `n < 10`, with no leading zero |
| Text.DecimalRoundTrip | carberry_io/carberry_io.py:41-44 | reading `str(n)` back as decimal gives `n` |
| Wire.Kept | carberry_io/carberry_io.py:168-176 | what the buffer keeps never holds CR or the prompt |
| Wire.Accumulate | carberry_io/carberry_io.py:156-176 | the read loop only moves forward, stays on the line, and counts at most six empty reads |
| Wire.AccumulateText | carberry_io/carberry_io.py:159-176 | the buffer is exactly the kept characters of the stretch the loop consumed |
| Wire.AccumulateStops | carberry_io/carberry_io.py:159-172 | the loop ends only at the prompt or at the sixth empty read, and reads past no earlier prompt |
| Wire.AccumulateCounts | carberry_io/carberry_io.py:156-166 | the final counter counts every empty read of the consumed stretch, exactly so unless the loop ran off the end of the line |
| Wire.AccumulateUnderLimit | carberry_io/carberry_io.py:156-166 | before the last read the counter had not reached the limit |
| Wire.ReadReply | carberry_io/carberry_io.py:153-180 | `get_result` on an open port never reads past the line; what it returns is stated by `Wire.ReadReplySpec` |
| Wire.ReadReplySpec | carberry_io/carberry_io.py:153-180 | `get_result` returns `None` for an empty buffer, or else the kept text; it ends at the prompt or the sixth empty read |
| Wire.RepliesClean | carberry_io/carberry_io.py:178-180 | every response of a run is `None` or non-empty text without CR or `>` |
| Wire.AfterIsSuffix | carberry_io/carberry_io.py:159-160 | successive reads consume a prefix of the line; the rest is a suffix |
| Wire.SixthEmptyReadEnds | carberry_io/carberry_io.py:156-166 | six empty reads with no prompt end the response there, whatever arrived in between |
| Wire.FramesAppend | carberry_io/carberry_io.py:116-123 | framing one more command appends its text and CR LF |
| Wire.UnframeFrames | carberry_io/carberry_io.py:116-123 | the adapter reads back exactly the commands sent, when none holds a CR |
| ObdPort.SendCommand | carberry_io/carberry_io.py:116-123 | with a handle the command and CR LF are appended to the output; without one nothing changes |
| ObdPort.SendCommandTranscript | carberry_io/carberry_io.py:116-123 | after a run of commands the output unframes to that run |
| ObdPort.GetResult | carberry_io/carberry_io.py:153-183 | returns the next response and consumes its reads; without a handle returns `None` and reads nothing |
| ObdPort.Open | carberry_io/carberry_io.py:53-104 | a device that will not open leaves no handle and `state` 0; a failed handshake keeps the handle; only a missing `ate0` answer raises |
| ObdPort.OpenHandshake | carberry_io/carberry_io.py:70-104 | raises iff `atz` is answered and `ate0` is not; `state` is 1 iff `atz` and `0100` are answered; then the version is the `atz` answer and the output is the three handshake commands |
| ObdPort.Close | carberry_io/carberry_io.py:106-114 | drops the handle and version; resets and closes the device only on a connected port |
| ObdPort.CloseTwice | carberry_io/carberry_io.py:106-114 | a second `close` changes nothing |
| ObdPort.CloseAfterFailedHandshakeLeavesLineOpen | carberry_io/carberry_io.py:106-114 | after a failed handshake `close` neither writes nor closes the device |
| ObdPort.InterpretResult | carberry_io/carberry_io.py:126-151 | returns `NODATA` if the spaceless first line starts with it; otherwise it returns that line minus its first four characters, which may itself read `NODATA` (as for `4100NODATA`) |
| ObdPort.InterpretFirstLineOnly | carberry_io/carberry_io.py:137-139 | anything after the first CR is ignored |
| ObdPort.InterpretDropsEcho | carberry_io/carberry_io.py:141-151 | a spaced-out header plus payload interprets to the payload |
| ObdPort.InterpretNoDataWithSpace | carberry_io/carberry_io.py:141-147 | the adapter's `NO DATA` is recognised as `NODATA` |
| ObdPort.SpacedNoData | carberry_io/carberry_io.py:141-146 | `NO DATA` loses its space and starts with `NODATA` |
| ObdPort.InterpretEchoedNoData | carberry_io/carberry_io.py:145-151 | a four-character echo followed by `NODATA` also interprets to `NODATA`, by the prefix drop and not the `NODATA` test |
| ObdPort.GetSensorValue | carberry_io/carberry_io.py:186-199 | NoResponse iff the response is missing; NoData iff it interprets to `NODATA`, which is then never decoded; otherwise the sensor's decoding of the interpreted payload. With a handle the port has written the command and read one response, and nothing else changed; without one the port is unchanged and the result is NoResponse |
| ObdPort.ReadSensor | carberry_io/carberry_io.py:202-207 | raises `IndexError` iff the index is past the registry; otherwise returns name, reading and unit of that entry |
| ObdPort.ClearDtc | carberry_io/carberry_io.py:264-268 | with a handle: writes `04`, reads exactly one response and returns it raw, and nothing else changes; without one: returns `None` and the port is unchanged |
| Dtc.WordCode | carberry_io/carberry_io.py:26-45 | the J2012 decoding: letter from the top two bits, first digit from the next two |
| Dtc.WordCodeAsWritten | carberry_io/carberry_io.py:239 | the letter is `P` iff the top two bits are clear, and `C` otherwise |
| Dtc.AsWrittenAgreesOnlyOnPAndC | carberry_io/carberry_io.py:239 | the as-written decoder equals J2012 exactly on P and C words, and turns B and U into C |
| Dtc.DecimalNibble | carberry_io/carberry_io.py:239 | `str()` of a nibble is one digit below 10 and two digits from 10 |
| Dtc.WordExamples | carberry_io/carberry_io.py:239 | 0x0143 and 0x4143 decode alike both ways; 0x8143 is B0143 by J2012 but C0143 as written |
| Dtc.NibbleRenderingAmbiguous | carberry_io/carberry_io.py:239 | decimal rendering of nibbles gives two different words the same code |
| Dtc.HexFields | carberry_io/carberry_io.py:239 | the masked and shifted fields of the word from four hex digits are those digits |
| Dtc.DecodeGroup | carberry_io/carberry_io.py:26-45 | a group decodes iff its four characters are hex digits; otherwise `BadHex` |
| Dtc.DecryptFrom | carberry_io/carberry_io.py:22-46 | `count` codes iff `4*count` hex digits are there; code `i` is the decoding of group `i`; only `BadHex` or `BadDtc` is raised; `BadDtc` exactly when the text is shorter than `4*count` and every complete group before its end is hex (the length test of a group comes before its digits are read), so `("0000Z", 2)` raises `BadDtc` |
| Dtc.DecryptDtcCode | carberry_io/carberry_io.py:18-47 | exactly three codes, iff the first twelve characters are hex digits |
| Dtc.DecodeGroupIsWordCode | carberry_io/carberry_io.py:26-45 | decoding a group equals the J2012 decoding of the word its four digits spell |
| Dtc.DecryptDtcCodeIsWordCode | carberry_io/carberry_io.py:18-47 | each of the three codes is the J2012 decoding of its group's word |
| Dtc.SlotByte | carberry_io/carberry_io.py:232-233 | a slot byte that reads is below 256 |
| Dtc.SlotByteIsHexToInt | carberry_io/carberry_io.py:232-233 | the slot byte is `hex_to_int` of the two-character slice |
| Dtc.SlotWord | carberry_io/carberry_io.py:232-234 | `(val1<<8)+val2` of two slot bytes is below 0x10000 |
| Dtc.FrameWords | carberry_io/carberry_io.py:231-241 | the inner loop over a frame's words raises only `BadHex` and yields at most one entry per word |
| Dtc.FrameWordsSpec | carberry_io/carberry_io.py:231-241 | a frame yields the leading non-zero words decoded as written, in slot order, and stops at a zero word |
| Dtc.FrameWordsRaises | carberry_io/carberry_io.py:231-237 | a frame raises iff an unreadable word comes before any zero word |
| Dtc.FrameCount | carberry_io/carberry_io.py:227 | `(n+2)/3` frames hold all `n` codes with fewer than three slots to spare |
| Dtc.FrameCountIsCeiling | carberry_io/carberry_io.py:227 | no smaller number of three-code frames holds `n` codes |
| Dtc.FreezeTestIsExactMatch | carberry_io/carberry_io.py:247 | the seven-character slice equals `NODATA` iff the response is exactly `NODATA` |
| Dtc.Request | carberry_io/carberry_io.py:228-230 | one request writes the command and reads the next response; a missing response raises `TypeError` |
| Dtc.FrameOfIsFrameWords | carberry_io/carberry_io.py:231-241 | reading a response slot by slot is the inner loop over its three slot words |
| Dtc.FrameOfShape | carberry_io/carberry_io.py:231-241 | a response's frame raises only `BadHex` and holds at most three P or C entries with its status |
| Dtc.DecodeFrame | carberry_io/carberry_io.py:231-241 | the entries are exactly the frame of the response: its slot words through the inner loop, raising `BadHex` at an unreadable word before any zero word |
| Dtc.ActiveStep | carberry_io/carberry_io.py:227-241 | one more mode 03 response adds its frame's entries after the earlier ones, or raises |
| Dtc.ActiveRaisedAt | carberry_io/carberry_io.py:227-241 | once a response has raised, later responses do not change the outcome |
| Dtc.ActiveFramesShape | carberry_io/carberry_io.py:228-241 | each response's Active frame raises only `TypeError` (missing) or `BadHex`, and is there only for a present response |
| Dtc.ActiveRound | carberry_io/carberry_io.py:228-241 | one round writes `03`, reads one response, and extends the decoded entries by that response's frame, or raises what `Dtc.ActiveOf` raises |
| Dtc.ActiveCodes | carberry_io/carberry_io.py:227-241 | exactly `n` mode 03 requests, one response each, all present; the entries are exactly those of the responses' frames, in order (`Dtc.ActiveOf`), and a raise is the one it gives; at most three Active entries per response |
| Dtc.FreezeRound | carberry_io/carberry_io.py:243-262 | writes `07` and reads one response; the entries gain that response's Passive frame unless it reads exactly `NODATA`, as `Dtc.DtcsOf` has it |
| Dtc.GetDtc | carberry_io/carberry_io.py:216-262 | output is `(n+2)/3` requests of `03`, then `07`; the entries are exactly the Active frames of the mode 03 responses, then the Passive frame of the mode 07 response unless it reads `NODATA` (`Dtc.DtcsOf`), and any raise is the one it gives |
| Capture.IsConnected | carberry_io/carberry_capture.py:29-30 | a connection is live when a port is kept; what a kept port is, is stated by `Capture.ConnectedMeansReady` |
| Capture.FirstUsableSpec | carberry_io/carberry_capture.py:18-24 | every device before the first usable one was refused, and that one was not |
| Capture.Connect | carberry_io/carberry_capture.py:15-27 | keeps the first port that connected, or none if all were refused; a raising constructor ends it; every earlier port is closed and dropped |
| Capture.ConnectedMeansReady | carberry_io/carberry_capture.py:29-30 | a kept port has `state` 1 and a handle; none is kept iff every device refused |
| Capture.DiscardedPortsStayOpen | carberry_io/carberry_capture.py:20-22 | a dropped port loses its handle, but its device is not closed |
| Capture.PositionsSpec | carberry_io/carberry_capture.py:46-51 | the supported positions are exactly the `1` flags, counted from one, in increasing order |
| Capture.PositionsSplit | carberry_io/carberry_capture.py:46-51 | every flag lands in exactly one list, so the lengths add up to the flag count |
| Capture.Classify | carberry_io/carberry_capture.py:41-51 | raises `IndexError` iff some flag's entry is past the registry; otherwise splits by flag, each entry holding its registry sensor |
| Gauges.SensorsToDisplay | carberry_gui.py:158-166 | at most six sensors, the ones from `istart` on in order; empty iff `istart` is past the end; short only at the end |
| Gauges.PagesRebuildList | carberry_gui.py:158-166 | the pages from `istart` on, concatenated, are the rest of the list |
| Gauges.OnLeft | carberry_gui.py:259-266 | goes back six, clamped at zero |
| Gauges.OnRight | carberry_gui.py:268-275 | goes forward six iff that start is still inside the list, and otherwise stays |
| Gauges.ClickKeepsAligned | carberry_gui.py:259-275 | each click keeps the start a multiple of six and inside the list |
| Gauges.RunStaysAligned | carberry_gui.py:259-275 | any run of clicks keeps the start a multiple of six and inside the list |
| Gauges.PanelPageNeverEmpty | carberry_gui.py:139 | from `istart = 0`, after any clicks, the page is non-empty while there are sensors |
| Gauges.RightThenLeft | carberry_gui.py:259-275 | left undoes a right click that moved |
| Gauges.LeftThenRight | carberry_gui.py:259-275 | on an aligned page, right undoes a left click that moved |

## Left out

- Serial settings (baud rate, parity, timeouts) are left out. So are the
  `flushOutput`/`flushInput` calls of `send_command` and `time.sleep`. The
  input stream is what the reads return after those flushes.
- The calls to `debug_display`, every `print`, and the notify window are
  left out, and so is the `len(code) < 7` warning of `interpret_result`.
  Building some of their arguments can still raise: `"ate0 response:" +
  self.get_result()` (carberry_io/carberry_io.py:95) and `"DTC result:" +
  res` (carberry_io/carberry_io.py:230) raise `TypeError` on a missing
  reply. Those raises are kept, in `ObdPort.Open` and `Dtc.Request`.
- The sensor registry `carberry_sensors.SENSORS`, each sensor's `value`
  decoder and `hex_to_int` are not part of this model. The registry and
  decoders are parameters. `hex_to_int` is taken to be a strict base-16 parse
  that raises on empty or non-hex text.
- Only non-negative sensor indices are modelled; Python's negative indexing
  of the registry is not.
- `decrypt_dtc_code` raises a string, which Python turns into a `TypeError`;
  the model calls it `BadDtc`. Its `raise tc` branch cannot be reached,
  because a hex digit shifted right by two is at most 3.
- Dtc.GetDtc: starts after the `sensor(1)` status query. It takes the port as
  that query left it and the stored-code count it decoded; the MIL flag is
  unused.
- Capture.Connect: works on the constructor's outcome on each device in
  turn. The device scan `scan_serial` is outside the model. So are the
  mismatched names the capture module uses for the port class, its flag and
  its arguments.
- The rest of `capture_data` is left out: the `sensor(0)` query that yields
  the flag string, building the report text, `sleep`, and reading each
  supported sensor. Each of those reads is `ObdPort.ReadSensor`.
- Other members of `CarberryObdPort` (`sensor_names`, `log`) and the whole
  wx GUI are left out. That includes painting, timers, threads and `"%.2f"`
  formatting. `set_sensors` can replace the list without resetting `istart`;
  the paging lemmas take a fixed list.

## Findings

| source | as written | input that shows it | evidently intended | confidence | as-written member | corrected member |
|---|---|---|---|---|---|---|
| carberry_io/carberry_io.py:239 | letter index `(val & 0xC000) > 14`, a comparison, so it is 0 or 1 | word 0x8143 gives `C0143` | `(val & 0xC000) >> 14`, giving `B0143` as `decrypt_dtc_code` does | high; not executed | Dtc.WordExamples | Dtc.DecryptDtcCodeIsWordCode |

The `get_dtc` loops are modelled as written, with `Dtc.WordCodeAsWritten`,
because that is what the program does. `Dtc.AsWrittenAgreesOnlyOnPAndC`
shows that the two decoders differ on every B and U word. `Dtc.WordCode` is
the corrected decoder. `Dtc.DecryptDtcCodeIsWordCode` proves that
`decrypt_dtc_code`, the program's other DTC decoder, follows it.
