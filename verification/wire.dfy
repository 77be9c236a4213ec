/** The serial line as the OBD port sees it.

    Reading: `port.read(1)` either yields one character or nothing (the
    per-byte timeout expired). A line is modelled as the finite sequence of
    those outcomes, `None` for an empty read; reading past its end yields
    nothing, as a silent adapter would.

    Writing: a command goes out as its characters followed by CR LF. */
module Wire {
  import opened Outcomes

  type Stream = seq<Option<char>>

  /** The value of the empty-read counter at which the next empty read ends
      the accumulation loop: the sixth empty read is the last one. */
  const EmptyReadLimit: nat := 5

  /** One `port.read(1)` at position `pos` of the line. */
  function ReadAt(input: Stream, pos: nat): Option<char> {
    if pos < |input| then input[pos] else None
  }

  /** What one read contributes to the response buffer. */
  function KeepOne(c: Option<char>): string {
    if c.Some? && c.value != '\r' && c.value != '>' then [c.value] else []
  }

  /** Reference definition of a response: the characters of a stretch of the
      line, minus empty reads, carriage returns and the prompt. */
  function Kept(s: Stream): (r: string)
    ensures forall k :: 0 <= k < |r| ==> r[k] != '\r' && r[k] != '>'
  {
    if s == [] then [] else KeepOne(s[0]) + Kept(s[1..])
  }

  /** The number of empty reads in a stretch of the line. */
  function Empties(s: Stream): (n: nat)
    ensures n <= |s|
  {
    if s == [] then 0 else (if s[0].None? then 1 else 0) + Empties(s[1..])
  }

  lemma {:induction false} EmptiesAppend(a: Stream, b: Stream)
    ensures Empties(a + b) == Empties(a) + Empties(b)
  {
    if a == [] {
      assert a + b == b;
    } else {
      assert (a + b)[1..] == a[1..] + b;
      EmptiesAppend(a[1..], b);
    }
  }

  lemma {:induction false} KeptAppend(a: Stream, b: Stream)
    ensures Kept(a + b) == Kept(a) + Kept(b)
  {
    if a == [] {
      assert a + b == b;
    } else {
      assert (a + b)[1..] == a[1..] + b;
      KeptAppend(a[1..], b);
    }
  }

  /** Peeling the first read off a stretch `input[pos..used]`. */
  lemma StretchStep(input: Stream, pos: nat, used: nat)
    requires pos < used <= |input|
    ensures Kept(input[pos..used]) == KeepOne(input[pos]) + Kept(input[pos + 1..used])
    ensures Empties(input[pos..used]) == (if input[pos].None? then 1 else 0) + Empties(input[pos + 1..used])
  {
    assert input[pos..used][1..] == input[pos + 1..used];
  }

  /** The prompt `>` was the last character read. */
  predicate Prompted(input: Stream, pos: nat, used: nat) {
    pos < used <= |input| && input[used - 1] == Some('>')
  }

  /** The outcome of one accumulation: the buffer, how much of the line was
      consumed, and how many reads came back empty (including reads past the
      end of the line). */
  datatype Transfer = Transfer(text: string, used: nat, emptyReads: nat)

  /** The `while True` loop of `get_result`, from position `pos` with the
      empty-read counter at `empties` and `buffer` accumulated so far. The
      counter is never reset by a character that does arrive. */
  function Accumulate(input: Stream, pos: nat, empties: nat, buffer: string): (t: Transfer)
    requires pos <= |input| && empties <= EmptyReadLimit
    decreases |input| - pos, EmptyReadLimit - empties
    ensures pos <= t.used <= |input|
    ensures empties <= t.emptyReads <= EmptyReadLimit + 1
  {
    var c := ReadAt(input, pos);
    var next := if pos < |input| then pos + 1 else pos;
    if c.None? then
      if empties == EmptyReadLimit then Transfer(buffer, next, empties + 1)
      else Accumulate(input, next, empties + 1, buffer)
    else if c.value == '\r' then Accumulate(input, next, empties, buffer)
    else if c.value == '>' then Transfer(buffer, next, empties)
    else Accumulate(input, next, empties, buffer + [c.value])
  }

  /** What the loop leaves in the buffer: the kept characters of exactly the
      stretch it consumed. */
  lemma {:induction false} AccumulateText(input: Stream, pos: nat, empties: nat, buffer: string)
    requires pos <= |input| && empties <= EmptyReadLimit
    decreases |input| - pos, EmptyReadLimit - empties
    ensures var t := Accumulate(input, pos, empties, buffer);
      t.text == buffer + Kept(input[pos..t.used])
  {
    var t := Accumulate(input, pos, empties, buffer);
    var c := ReadAt(input, pos);
    var next := if pos < |input| then pos + 1 else pos;
    if c.None? {
      if pos == |input| {
        assert input[pos..t.used] == [];
        if empties < EmptyReadLimit {
          AccumulateText(input, next, empties + 1, buffer);
        }
      } else {
        StretchStep(input, pos, t.used);
        if empties < EmptyReadLimit {
          AccumulateText(input, next, empties + 1, buffer);
        } else {
          assert input[next..t.used] == [];
        }
      }
    } else {
      StretchStep(input, pos, t.used);
      if c.value == '\r' {
        AccumulateText(input, next, empties, buffer);
      } else if c.value == '>' {
        assert input[next..t.used] == [];
      } else {
        AccumulateText(input, next, empties, buffer + [c.value]);
      }
    }
  }

  /** When and why the loop stops: only at the prompt or at the sixth empty
      read, never reading on past either. */
  lemma {:induction false} AccumulateStops(input: Stream, pos: nat, empties: nat, buffer: string)
    requires pos <= |input| && empties <= EmptyReadLimit
    decreases |input| - pos, EmptyReadLimit - empties
    ensures var t := Accumulate(input, pos, empties, buffer);
      && (Prompted(input, pos, t.used) || t.emptyReads == EmptyReadLimit + 1)
      && (forall j :: pos <= j < t.used - 1 ==> input[j] != Some('>'))
  {
    var t := Accumulate(input, pos, empties, buffer);
    var c := ReadAt(input, pos);
    var next := if pos < |input| then pos + 1 else pos;
    if pos == |input| {
      if empties < EmptyReadLimit {
        AccumulateStops(input, next, empties + 1, buffer);
      }
    } else if (c.None? && empties == EmptyReadLimit) || c == Some('>') {
      assert t.used == next;
    } else {
      var buffer' := if c.Some? && c.value != '\r' then buffer + [c.value] else buffer;
      var empties' := if c.None? then empties + 1 else empties;
      assert t == Accumulate(input, next, empties', buffer');
      AccumulateStops(input, next, empties', buffer');
    }
  }

  /** The counter the loop ends with is the number of empty reads in the
      stretch it consumed, except that reads past the end of the line count
      too. */
  lemma {:induction false} AccumulateCounts(input: Stream, pos: nat, empties: nat, buffer: string)
    requires pos <= |input| && empties <= EmptyReadLimit
    decreases |input| - pos, EmptyReadLimit - empties
    ensures var t := Accumulate(input, pos, empties, buffer);
      && empties + Empties(input[pos..t.used]) <= t.emptyReads
      && (t.used < |input| || Prompted(input, pos, t.used) ==>
            t.emptyReads == empties + Empties(input[pos..t.used]))
  {
    var t := Accumulate(input, pos, empties, buffer);
    var c := ReadAt(input, pos);
    var next := if pos < |input| then pos + 1 else pos;
    if pos == |input| {
      assert input[pos..t.used] == [];
      if empties < EmptyReadLimit {
        AccumulateCounts(input, next, empties + 1, buffer);
      }
    } else {
      var buffer' := if c.Some? && c.value != '\r' && c.value != '>' then buffer + [c.value] else buffer;
      var empties' := if c.None? then empties + 1 else empties;
      StretchStep(input, pos, t.used);
      if (c.None? && empties == EmptyReadLimit) || c == Some('>') {
        assert t.used == next;
        assert input[next..t.used] == [];
      } else {
        assert t == Accumulate(input, next, empties', buffer');
        AccumulateCounts(input, next, empties', buffer');
      }
    }
  }

  /** Before its last read the loop's counter had not yet reached the limit:
      every read but the last one left room for another empty read. */
  lemma {:induction false} AccumulateUnderLimit(input: Stream, pos: nat, empties: nat, buffer: string)
    requires pos <= |input| && empties <= EmptyReadLimit
    decreases |input| - pos, EmptyReadLimit - empties
    ensures var t := Accumulate(input, pos, empties, buffer);
      pos < t.used ==> empties + Empties(input[pos..t.used - 1]) <= EmptyReadLimit
  {
    var t := Accumulate(input, pos, empties, buffer);
    var c := ReadAt(input, pos);
    var next := if pos < |input| then pos + 1 else pos;
    if pos < |input| {
      var buffer' := if c.Some? && c.value != '\r' && c.value != '>' then buffer + [c.value] else buffer;
      var empties' := if c.None? then empties + 1 else empties;
      if (c.None? && empties == EmptyReadLimit) || c == Some('>') {
        assert t.used == next;
        assert input[pos..t.used - 1] == [];
      } else {
        assert t == Accumulate(input, next, empties', buffer');
        AccumulateUnderLimit(input, next, empties', buffer');
        if pos < t.used - 1 {
          StretchStep(input, pos, t.used - 1);
          assert input[pos..t.used - 1][1..] == input[next..t.used - 1];
        } else {
          assert input[pos..t.used - 1] == [];
        }
      }
    }
  }

  /** One response as `get_result` returns it, and how much of the line it took. */
  datatype Reply = Reply(response: Option<string>, used: nat, emptyReads: nat)

  /** A response is absent or non-empty, and never holds CR or the prompt. */
  predicate Clean(response: Option<string>) {
    response.None? ||
    (|response.value| > 0 &&
     forall k :: 0 <= k < |response.value| ==> response.value[k] != '\r' && response.value[k] != '>')
  }

  /** `get_result` on an open port: accumulate, then turn an empty buffer into `None`. */
  function ReadReply(input: Stream): (r: Reply)
    ensures r.used <= |input|
  {
    var t := Accumulate(input, 0, 0, []);
    Reply(if t.text == [] then None else Some(t.text), t.used, t.emptyReads)
  }

  /** The response is the kept characters of everything read, `None` when
      there are none; the read ends at the prompt or at the sixth empty
      read, and counts every empty read on the way. */
  lemma ReadReplySpec(input: Stream)
    ensures var r := ReadReply(input);
      && Clean(r.response)
      && r.response == (if Kept(input[..r.used]) == [] then None else Some(Kept(input[..r.used])))
      && (Prompted(input, 0, r.used) || r.emptyReads == EmptyReadLimit + 1)
      && Empties(input[..r.used]) <= r.emptyReads <= EmptyReadLimit + 1
  {
    var t := Accumulate(input, 0, 0, []);
    AccumulateText(input, 0, 0, []);
    AccumulateStops(input, 0, 0, []);
    AccumulateCounts(input, 0, 0, []);
    assert input[0..t.used] == input[..t.used];
    assert [] + Kept(input[..t.used]) == Kept(input[..t.used]);
  }

  /** The responses of `n` successive `get_result` calls on the same line. */
  function Replies(input: Stream, n: nat): (rs: seq<Option<string>>)
    ensures |rs| == n
  {
    if n == 0 then [] else var r := ReadReply(input); [r.response] + Replies(input[r.used..], n - 1)
  }

  /** Every one of them is clean. */
  lemma {:induction false} RepliesClean(input: Stream, n: nat)
    ensures forall k :: 0 <= k < n ==> Clean(Replies(input, n)[k])
  {
    if n > 0 {
      var r := ReadReply(input);
      ReadReplySpec(input);
      RepliesClean(input[r.used..], n - 1);
      forall k | 0 <= k < n
        ensures Clean(Replies(input, n)[k])
      {
        if k > 0 {
          assert Replies(input, n)[k] == Replies(input[r.used..], n - 1)[k - 1];
        }
      }
    }
  }

  /** What is left of the line after `n` successive `get_result` calls. */
  function After(input: Stream, n: nat): Stream {
    if n == 0 then input else After(input[ReadReply(input).used..], n - 1)
  }

  /** It is a suffix of the line. */
  lemma {:induction false} AfterIsSuffix(input: Stream, n: nat)
    ensures var rest := After(input, n);
      |rest| <= |input| && rest == input[|input| - |rest|..]
  {
    if n == 0 {
      assert After(input, 0) == input;
    } else {
      var u := ReadReply(input).used;
      AfterIsSuffix(input[u..], n - 1);
      var rest := After(input, n);
      assert rest == After(input[u..], n - 1);
      assert input[u..][|input[u..]| - |rest|..] == input[|input| - |rest|..];
    }
  }

  /** The counter is cumulative: once six reads of the line have come back
      empty, with no prompt among them, the response ends there, however many
      characters arrived in between. */
  lemma SixthEmptyReadEnds(input: Stream, k: nat)
    requires 0 < k <= |input| && input[k - 1].None?
    requires Empties(input[..k]) == EmptyReadLimit + 1
    requires forall j :: 0 <= j < k ==> input[j] != Some('>')
    ensures ReadReply(input).used == k
    ensures ReadReply(input).emptyReads == EmptyReadLimit + 1
  {
    var r := ReadReply(input);
    var t := Accumulate(input, 0, 0, []);
    AccumulateStops(input, 0, 0, []);
    AccumulateCounts(input, 0, 0, []);
    AccumulateUnderLimit(input, 0, 0, []);
    assert t.used == r.used;
    if r.used < k {
      // no prompt before k, so the loop stopped at its sixth empty read,
      // leaving at least one more empty read, at k - 1, uncounted
      assert input[0..r.used] == input[..r.used];
      assert input[..k] == input[..r.used] + input[r.used..k];
      EmptiesAppend(input[..r.used], input[r.used..k]);
      assert input[r.used..k] == input[r.used..k - 1] + [input[k - 1]];
      EmptiesAppend(input[r.used..k - 1], [input[k - 1]]);
      assert false;
    } else if r.used > k {
      // the first k reads already held six empty ones
      assert input[0..r.used - 1] == input[..k] + input[k..r.used - 1];
      EmptiesAppend(input[..k], input[k..r.used - 1]);
      assert false;
    }
    assert input[0..k] == input[..k];
  }

  /** The CR LF framing `send_command` puts around a command. */
  function Frame(cmd: string): string {
    cmd + "\r\n"
  }

  /** A run of commands, framed one after another. */
  function Frames(cmds: seq<string>): string {
    if cmds == [] then [] else Frame(cmds[0]) + Frames(cmds[1..])
  }

  lemma {:induction false} FramesAppend(cmds: seq<string>, cmd: string)
    ensures Frames(cmds + [cmd]) == Frames(cmds) + Frame(cmd)
  {
    if cmds == [] {
      assert cmds + [cmd] == [cmd];
    } else {
      assert (cmds + [cmd])[1..] == cmds[1..] + [cmd];
      FramesAppend(cmds[1..], cmd);
    }
  }

  /** The adapter's view of the written stream: the lines it has received,
      each ended by CR LF (a trailing unfinished line is not a command yet). */
  function Unframe(w: string): seq<string> {
    UnframeFrom(w, [])
  }

  function UnframeFrom(w: string, line: string): seq<string>
    decreases |w|
  {
    if w == [] then []
    else if |w| >= 2 && w[0] == '\r' && w[1] == '\n' then [line] + UnframeFrom(w[2..], [])
    else UnframeFrom(w[1..], line + [w[0]])
  }

  lemma {:induction false} UnframeLine(cmd: string, rest: string, line: string)
    requires '\r' !in cmd
    ensures UnframeFrom(Frame(cmd) + rest, line) == [line + cmd] + UnframeFrom(rest, [])
  {
    var w := Frame(cmd) + rest;
    if cmd == [] {
      assert w[2..] == rest;
      assert line + cmd == line;
    } else {
      assert w[0] == cmd[0] && w[1..] == Frame(cmd[1..]) + rest;
      UnframeLine(cmd[1..], rest, line + [cmd[0]]);
      assert line + [cmd[0]] + cmd[1..] == line + cmd;
    }
  }

  /** Framing is faithful: the adapter reads back exactly the commands sent,
      as long as no command itself contains a carriage return. */
  lemma {:induction false} UnframeFrames(cmds: seq<string>)
    requires forall i :: 0 <= i < |cmds| ==> '\r' !in cmds[i]
    ensures Unframe(Frames(cmds)) == cmds
  {
    if cmds != [] {
      UnframeLine(cmds[0], Frames(cmds[1..]), []);
      UnframeFrames(cmds[1..]);
      assert [] + cmds[0] == cmds[0];
      assert [cmds[0]] + cmds[1..] == cmds;
    }
  }

  /** The first three responses on a line, one call at a time. */
  lemma RepliesUnfold(input: Stream)
    ensures var r0 := ReadReply(input);
            var in1 := input[r0.used..];
            var r1 := ReadReply(in1);
            var in2 := in1[r1.used..];
            var r2 := ReadReply(in2);
            && Replies(input, 1) == [r0.response]
            && Replies(input, 2) == [r0.response, r1.response]
            && Replies(input, 3) == [r0.response, r1.response, r2.response]
            && After(input, 1) == in1
            && After(input, 3) == in2[r2.used..]
  {
    var r0 := ReadReply(input);
    var in1 := input[r0.used..];
    var r1 := ReadReply(in1);
    var in2 := in1[r1.used..];
    assert Replies(in1, 1) == [r1.response];
    assert Replies(in1, 2) == [r1.response] + Replies(in2, 1);
    assert After(in1, 2) == After(in2, 1);
  }

  /** Reading `n` responses and then one more is reading `n + 1`. */
  lemma RepliesThenOne(input: Stream, n: nat)
    ensures Replies(input, n + 1)[n] == Replies(After(input, n), 1)[0]
    ensures After(input, n + 1) == After(After(input, n), 1)
    ensures Replies(input, n + 1)[..n] == Replies(input, n)
  {
    RepliesLast(input, n);
    AfterLast(input, n);
    RepliesPrefix(input, n);
  }

  lemma {:induction false} RepliesLast(input: Stream, n: nat)
    ensures Replies(input, n + 1)[n] == Replies(After(input, n), 1)[0]
  {
    if n == 0 {
      assert After(input, 0) == input;
    } else {
      var rest := input[ReadReply(input).used..];
      assert Replies(input, n + 1)[n] == Replies(rest, n)[n - 1];
      assert After(input, n) == After(rest, n - 1);
      RepliesLast(rest, n - 1);
    }
  }

  lemma {:induction false} AfterLast(input: Stream, n: nat)
    ensures After(input, n + 1) == After(After(input, n), 1)
  {
    if n == 0 {
      assert After(input, 0) == input;
    } else {
      var rest := input[ReadReply(input).used..];
      assert After(input, n + 1) == After(rest, n);
      assert After(input, n) == After(rest, n - 1);
      AfterLast(rest, n - 1);
    }
  }

  lemma {:induction false} RepliesPrefix(input: Stream, n: nat)
    ensures Replies(input, n + 1)[..n] == Replies(input, n)
  {
    if n > 0 {
      var r := ReadReply(input);
      var rest := input[r.used..];
      RepliesPrefix(rest, n - 1);
      PrefixCons(r.response, Replies(rest, n), n - 1);
    }
  }

  lemma PrefixCons<T>(x: T, s: seq<T>, m: nat)
    requires m <= |s|
    ensures ([x] + s)[..m + 1] == [x] + s[..m]
  {
  }
}
