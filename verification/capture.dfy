/** The class `OBDCapture` (carberry_io/carberry_capture.py): choosing a
    serial port to talk through, and sorting the sensors the vehicle reports
    into supported and unsupported ones.

    `connect` is modelled against candidate devices described by what the
    constructor of the port object would meet on each of them (see
    `ObdPort.Open`); the list of device names itself comes from a scan of
    the machine and is taken as given. */
module Capture {
  import opened Outcomes
  import opened Wire
  import opened ObdPort

  /** One serial device `connect` may try: whether it opens, whether writing
      the reset command fails, and what the adapter on it answers. */
  datatype Candidate = Candidate(opens: bool, atzWriteFails: bool, input: Stream)

  /** Constructing the port object on a candidate. */
  function Attempt(c: Candidate): Outcome<Port> {
    Open(c.opens, c.atzWriteFails, c.input)
  }

  /** What the constructor would do on each candidate, in order. */
  function Attempts(cs: seq<Candidate>): (os: seq<Outcome<Port>>)
    ensures |os| == |cs| && forall j :: 0 <= j < |cs| ==> os[j] == Attempt(cs[j])
  {
    seq(|cs|, j requires 0 <= j < |cs| => Attempt(cs[j]))
  }

  /** The constructor returned, but with the flag `state` at 0. */
  predicate Refused(o: Outcome<Port>) {
    o.Ok? && o.value.state == 0
  }

  /** Reference definition: the position, from `i` on, of the first attempt
      that is not refused (it either connected or raised), or the number of
      attempts. */
  function FirstUsableFrom(os: seq<Outcome<Port>>, i: nat): (k: nat)
    requires i <= |os|
    ensures i <= k <= |os|
    decreases |os| - i
  {
    if i == |os| then |os|
    else if !Refused(os[i]) then i
    else FirstUsableFrom(os, i + 1)
  }

  /** The first usable attempt over the whole list. */
  function FirstUsable(os: seq<Outcome<Port>>): (k: nat)
    ensures k <= |os|
  {
    FirstUsableFrom(os, 0)
  }

  /** Every attempt from `i` up to the first usable one is refused, and that
      one is not. */
  lemma {:induction false} FirstUsableFromSpec(os: seq<Outcome<Port>>, i: nat)
    requires i <= |os|
    decreases |os| - i
    ensures forall j :: i <= j < FirstUsableFrom(os, i) ==> Refused(os[j])
    ensures FirstUsableFrom(os, i) < |os| ==> !Refused(os[FirstUsableFrom(os, i)])
  {
    if i < |os| && Refused(os[i]) {
      FirstUsableFromSpec(os, i + 1);
    }
  }

  /** Every attempt before the first usable one is refused, and that one
      is not. */
  lemma FirstUsableSpec(os: seq<Outcome<Port>>)
    ensures forall j :: 0 <= j < FirstUsable(os) ==> Refused(os[j])
    ensures FirstUsable(os) < |os| ==> !Refused(os[FirstUsable(os)])
  {
    FirstUsableFromSpec(os, 0);
  }

  /** What `connect` leaves behind: the port it kept, if any, and the port
      objects it closed and dropped along the way. */
  datatype Connection = Connection(port: Option<Port>, discarded: seq<Port>)

  /** `connect`, given what the constructor does on each device in turn:
      close and drop each port whose handshake failed, and keep the first
      one that connected. A constructor that raises ends `connect` with the
      same exception, and no later device is tried. */
  method Connect(attempts: seq<Outcome<Port>>) returns (r: Outcome<Connection>)
    ensures var k := FirstUsable(attempts);
      if k < |attempts| && attempts[k].Raised? then r == Raised(attempts[k].error)
      else
        && r.Ok?
        && r.value.port == (if k < |attempts| then Some(attempts[k].value) else None)
        && |r.value.discarded| == k
        && forall j :: 0 <= j < k ==> attempts[j].Ok? && r.value.discarded[j] == Close(attempts[j].value)
  {
    FirstUsableSpec(attempts);
    var discarded: seq<Port> := [];
    var i := 0;
    while i < |attempts|
      invariant i <= FirstUsable(attempts)
      invariant |discarded| == i
      invariant forall j :: 0 <= j < i ==>
        Refused(attempts[j]) && discarded[j] == Close(attempts[j].value)
    {
      var attempt := attempts[i];
      if attempt.Raised? {
        return Raised(attempt.error);
      }
      if attempt.value.state == 0 {
        discarded := discarded + [Close(attempt.value)];
      } else {
        return Ok(Connection(Some(attempt.value), discarded));
      }
      i := i + 1;
    }
    return Ok(Connection(None, discarded));
  }

  /** `is_connected` returns the kept port object, which is truthy exactly
      when there is one. This predicate states whether a port is kept; the
      port itself is `c.port`. */
  predicate IsConnected(c: Connection) {
    c.port.Some?
  }

  /** On real devices, a kept port is always one whose handshake succeeded,
      and `connect` keeps nothing only when every device refused. */
  lemma ConnectedMeansReady(cs: seq<Candidate>, c: Connection)
    requires var os := Attempts(cs); var k := FirstUsable(os);
      && (k < |os| ==> os[k].Ok? && c.port == Some(os[k].value))
      && (k == |os| ==> c.port.None?)
    ensures IsConnected(c) ==> c.port.value.state == 1 && c.port.value.attached
    ensures !IsConnected(c) <==> forall j :: 0 <= j < |cs| ==> Refused(Attempt(cs[j]))
  {
    var os := Attempts(cs);
    FirstUsableSpec(os);
    var k := FirstUsable(os);
    if k < |os| {
      assert !Refused(Attempt(cs[k]));
    }
  }

  /** A dropped port no longer holds its device, but the device itself is
      left open: `close` only closes a connected port. */
  lemma DiscardedPortsStayOpen(os: seq<Outcome<Port>>, j: nat)
    requires j < FirstUsable(os)
    requires os[j].Ok? ==> !os[j].value.line.closed
    ensures os[j].Ok? && !Close(os[j].value).attached && !Close(os[j].value).line.closed
  {
    FirstUsableSpec(os);
  }

  /** A sensor of the registry together with its position in it. */
  datatype Entry<S> = Entry(index: nat, sensor: S)

  /** Each entry carries the registry's sensor at its index. */
  ghost predicate Filed<S>(es: seq<Entry<S>>, registry: seq<S>) {
    forall k :: 0 <= k < |es| ==> es[k].index < |registry| && es[k].sensor == registry[es[k].index]
  }

  datatype Partition<S> = Partition(supported: seq<Entry<S>>, unsupported: seq<Entry<S>>)

  function Indices<S>(es: seq<Entry<S>>): (r: seq<nat>)
    ensures |r| == |es| && forall k :: 0 <= k < |es| ==> r[k] == es[k].index
  {
    seq(|es|, k requires 0 <= k < |es| => es[k].index)
  }

  /** Reference definition: the one-based positions, among the first `n`
      flags, of those equal to (`want`) or different from (`!want`) the
      character `1`. */
  function PositionsUpTo(flags: string, want: bool, n: nat): seq<nat>
    requires n <= |flags|
  {
    if n == 0 then []
    else PositionsUpTo(flags, want, n - 1) + (if (flags[n - 1] == '1') == want then [n] else [])
  }

  /** The positions over the whole flag string. */
  function Positions(flags: string, want: bool): seq<nat> {
    PositionsUpTo(flags, want, |flags|)
  }

  /** Among the first `n` flags, the positions are exactly the matching
      flags, in increasing order. */
  lemma {:induction false} PositionsUpToSpec(flags: string, want: bool, n: nat)
    requires n <= |flags|
    ensures forall k :: 0 <= k < |PositionsUpTo(flags, want, n)| ==>
      1 <= PositionsUpTo(flags, want, n)[k] <= n
    ensures forall i :: 1 <= i <= n ==>
      (i in PositionsUpTo(flags, want, n) <==> (flags[i - 1] == '1') == want)
    ensures forall k, l :: 0 <= k < l < |PositionsUpTo(flags, want, n)| ==>
      PositionsUpTo(flags, want, n)[k] < PositionsUpTo(flags, want, n)[l]
  {
    if n > 0 {
      PositionsUpToSpec(flags, want, n - 1);
    }
  }

  /** The positions are exactly the matching flags, in increasing order. */
  lemma PositionsSpec(flags: string, want: bool)
    ensures forall k :: 0 <= k < |Positions(flags, want)| ==>
      1 <= Positions(flags, want)[k] <= |flags|
    ensures forall i :: 1 <= i <= |flags| ==>
      (i in Positions(flags, want) <==> (flags[i - 1] == '1') == want)
    ensures forall k, l :: 0 <= k < l < |Positions(flags, want)| ==>
      Positions(flags, want)[k] < Positions(flags, want)[l]
  {
    PositionsUpToSpec(flags, want, |flags|);
  }

  /** Among the first `n` flags, every flag lands in exactly one of the two
      lists. */
  lemma {:induction false} PositionsUpToSplit(flags: string, n: nat)
    requires n <= |flags|
    ensures |PositionsUpTo(flags, true, n)| + |PositionsUpTo(flags, false, n)| == n
    ensures forall i :: i in PositionsUpTo(flags, true, n) ==> i !in PositionsUpTo(flags, false, n)
  {
    PositionsUpToSpec(flags, true, n);
    PositionsUpToSpec(flags, false, n);
    if n > 0 {
      PositionsUpToSplit(flags, n - 1);
    }
  }

  /** Every flag lands in exactly one of the two lists. */
  lemma PositionsSplit(flags: string)
    ensures |Positions(flags, true)| + |Positions(flags, false)| == |flags|
    ensures forall i :: i in Positions(flags, true) ==> i !in Positions(flags, false)
  {
    PositionsUpToSplit(flags, |flags|);
  }

  /** The partition loop of `capture_data`: flag `i` (counting from 0)
      files registry entry `i + 1` as supported when it is the character
      `1` and as unsupported otherwise. The registry is indexed for every
      flag, so a flag string as long as the registry raises. */
  method Classify<S>(flags: string, registry: seq<S>) returns (r: Outcome<Partition<S>>)
    ensures r.Raised? <==> 0 < |flags| && |registry| <= |flags|
    ensures r.Raised? ==> r.error == IndexError
    ensures r.Ok? ==> Indices(r.value.supported) == Positions(flags, true)
    ensures r.Ok? ==> Indices(r.value.unsupported) == Positions(flags, false)
    ensures r.Ok? ==> Filed(r.value.supported, registry)
    ensures r.Ok? ==> Filed(r.value.unsupported, registry)
  {
    var supported: seq<Entry<S>> := [];
    var unsupported: seq<Entry<S>> := [];
    var i := 0;
    while i < |flags|
      invariant i <= |flags| && (i == 0 || i < |registry|)
      invariant Indices(supported) == PositionsUpTo(flags, true, i)
      invariant Indices(unsupported) == PositionsUpTo(flags, false, i)
      invariant Filed(supported, registry)
      invariant Filed(unsupported, registry)
    {
      if i + 1 >= |registry| {
        return Raised(IndexError);
      }
      var entry := Entry(i + 1, registry[i + 1]);
      if flags[i] == '1' {
        supported := supported + [entry];
      } else {
        unsupported := unsupported + [entry];
      }
      i := i + 1;
    }
    return Ok(Partition(supported, unsupported));
  }
}
