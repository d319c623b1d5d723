/**
 * The touch-to-scroll bridge: each WebSocket session turns a stream of
 * touch-drag deltas (pixels) into high-resolution wheel events on a virtual
 * input device, carrying the fractional remainder from one message to the next.
 *
 * Floating point is replaced by exact reals; the device is an append-only
 * log of the events written to it.
 */
module Scroll {

  // Linux input event types and codes used by the virtual device.
  const EV_KEY: int := 0x01
  const EV_REL: int := 0x02
  const REL_WHEEL_HI_RES: int := 0x0b
  const BTN_LEFT: int := 0x110
  const BTN_RIGHT: int := 0x111

  /** Every delta is multiplied by this gain before it is accumulated. */
  const GAIN: real := 6.0

  /** An event as the device receives it: a relative-motion write or a sync report. */
  datatype Event = Rel(evType: int, code: int, value: int) | SynReport

  /** An inbound WebSocket message: a number, or text the handler cannot turn into a finite tick. */
  datatype Message = Delta(value: real) | Unparsable

  /** Python's int() on a float: truncation toward zero. */
  function Trunc(x: real): (r: int)
    ensures 0.0 <= x ==> 0 <= r && r as real <= x < r as real + 1.0
    ensures x < 0.0 ==> r <= 0 && r as real - 1.0 < x <= r as real
  {
    if x >= 0.0 then x.Floor else -((-x).Floor)
  }

  /** Truncation toward zero is odd. */
  lemma TruncOdd(x: real)
    ensures Trunc(-x) == -Trunc(x)
  {
  }

  /** Truncation of a non-negative number whose integer part is known. */
  lemma TruncOf(x: real, n: nat)
    requires n as real <= x < n as real + 1.0
    ensures Trunc(x) == n
  {
  }

  /** What one message leaves behind: the new residue and the tick count computed for it. */
  datatype Step = Step(residue: real, tick: int)

  /** One iteration of the handler's loop: scale and add, truncate, subtract what is written. */
  function Feed(acc: real, delta: real): (s: Step)
    ensures s.tick as real + s.residue == acc + delta * GAIN
    ensures -1.0 < s.residue < 1.0
  {
    var raw := acc + delta * GAIN;
    var ia := Trunc(raw);
    Step(if ia != 0 then raw - ia as real else raw, ia)
  }

  /**
   * A message writes to the device exactly when the scaled sum reaches a whole
   * tick, and what it keeps has the sign of that sum.
   */
  lemma FeedWrites(acc: real, delta: real)
    ensures Feed(acc, delta).tick != 0 <==> (acc + delta * GAIN <= -1.0 || 1.0 <= acc + delta * GAIN)
    ensures Feed(acc, delta).tick == Trunc(acc + delta * GAIN)
    ensures Feed(acc, delta).residue == 0.0 || (Feed(acc, delta).residue > 0.0 <==> acc + delta * GAIN > 0.0)
  {
  }

  /** A delta of 0 changes nothing and yields no tick, whatever residue a session can hold. */
  lemma ZeroDelta(acc: real)
    requires -1.0 < acc < 1.0
    ensures Feed(acc, 0.0) == Step(acc, 0)
  {
  }

  /** Feeding the negated residue and delta mirrors the step exactly. */
  lemma FeedOdd(acc: real, delta: real)
    ensures Feed(-acc, -delta) == Step(-Feed(acc, delta).residue, -Feed(acc, delta).tick)
  {
    var raw := acc + delta * GAIN;
    assert -acc + (-delta) * GAIN == -raw;
    TruncOdd(raw);
  }

  /** The state of a session: its residue and the tick count computed for each message, in order. */
  datatype Session = Session(residue: real, ticks: seq<int>)

  function Sum(xs: seq<int>): int
  {
    if xs == [] then 0 else xs[0] + Sum(xs[1..])
  }

  function Total(ds: seq<real>): real
  {
    if ds == [] then 0.0 else ds[0] + Total(ds[1..])
  }

  /**
   * The session after the deltas `ds`, starting from residue `acc` (a fresh
   * session starts from 0): one tick per message, and after any message the
   * residue lies strictly inside (-1, 1).
   */
  function Run(acc: real, ds: seq<real>): (s: Session)
    ensures |s.ticks| == |ds|
    ensures ds != [] ==> -1.0 < s.residue < 1.0
    ensures -1.0 < acc < 1.0 ==> -1.0 < s.residue < 1.0
    decreases |ds|
  {
    if ds == [] then Session(acc, [])
    else
      var step := Feed(acc, ds[0]);
      var rest := Run(step.residue, ds[1..]);
      Session(rest.residue, [step.tick] + rest.ticks)
  }

  /**
   * Conservation: the ticks computed plus the residue left are exactly the
   * starting residue plus the scaled displacement of all deltas.
   */
  lemma {:induction false} RunConserves(acc: real, ds: seq<real>)
    ensures Sum(Run(acc, ds).ticks) as real + Run(acc, ds).residue == acc + GAIN * Total(ds)
    decreases |ds|
  {
    if ds != [] {
      var step := Feed(acc, ds[0]);
      RunConserves(step.residue, ds[1..]);
      var rest := Run(step.residue, ds[1..]);
      assert ([step.tick] + rest.ticks)[1..] == rest.ticks;
    }
  }

  /** The device events for one message: a wheel write when the tick is non-zero, then a sync. */
  function MessageEvents(tick: int): seq<Event>
  {
    if tick != 0 then [Rel(EV_REL, REL_WHEEL_HI_RES, tick), SynReport] else [SynReport]
  }

  /** The device events for messages that computed `ticks`, in order. */
  function Emitted(ticks: seq<int>): seq<Event>
  {
    if ticks == [] then [] else MessageEvents(ticks[0]) + Emitted(ticks[1..])
  }

  /** The sum of the values of all wheel writes in an event log. */
  function WheelTotal(es: seq<Event>): int
  {
    if es == [] then 0 else (if es[0].Rel? then es[0].value else 0) + WheelTotal(es[1..])
  }

  /** A fresh session has residue 0 and has written nothing. */
  lemma FreshSession()
    ensures Run(0.0, []) == Session(0.0, [])
    ensures Emitted(Run(0.0, []).ticks) == []
  {
  }

  /** Feeding `a` then `b` is feeding `a + b`: the second part continues from the first's residue. */
  lemma {:induction false} RunAppend(acc: real, a: seq<real>, b: seq<real>)
    ensures Run(acc, a + b) == Session(Run(Run(acc, a).residue, b).residue, Run(acc, a).ticks + Run(Run(acc, a).residue, b).ticks)
    decreases |a|
  {
    if a == [] {
      assert a + b == b;
    } else {
      assert (a + b)[0] == a[0] && (a + b)[1..] == a[1..] + b;
      RunAppend(Feed(acc, a[0]).residue, a[1..], b);
    }
  }

  /**
   * The tick of message i is the truncation of the residue left by the messages
   * before it plus its own scaled delta.
   */
  lemma TickOfMessage(acc: real, ds: seq<real>, i: nat)
    requires i < |ds|
    ensures Run(acc, ds).ticks[i] == Trunc(Run(acc, ds[..i]).residue + ds[i] * GAIN)
  {
    assert ds == ds[..i] + ds[i..];
    RunAppend(acc, ds[..i], ds[i..]);
  }

  /** A delta of 0 anywhere in a session leaves the residue as it was and computes a zero tick. */
  lemma ZeroDeltaInSession(ds: seq<real>)
    ensures Run(0.0, ds + [0.0]) == Session(Run(0.0, ds).residue, Run(0.0, ds).ticks + [0])
  {
    RunAppend(0.0, ds, [0.0]);
    ZeroDelta(Run(0.0, ds).residue);
  }

  lemma {:induction false} EmittedAppend(a: seq<int>, b: seq<int>)
    ensures Emitted(a + b) == Emitted(a) + Emitted(b)
    decreases |a|
  {
    if a == [] {
      assert a + b == b;
    } else {
      assert (a + b)[0] == a[0] && (a + b)[1..] == a[1..] + b;
      EmittedAppend(a[1..], b);
    }
  }

  /** A zero tick produces a sync report and nothing else. */
  lemma ZeroTickOnlySyncs(ticks: seq<int>)
    ensures Emitted(ticks + [0]) == Emitted(ticks) + [SynReport]
  {
    EmittedAppend(ticks, [0]);
    assert Emitted([0]) == MessageEvents(0) + Emitted([]);
  }

  lemma {:induction false} WheelTotalAppend(a: seq<Event>, b: seq<Event>)
    ensures WheelTotal(a + b) == WheelTotal(a) + WheelTotal(b)
    decreases |a|
  {
    if a == [] {
      assert a + b == b;
    } else {
      assert (a + b)[0] == a[0] && (a + b)[1..] == a[1..] + b;
      WheelTotalAppend(a[1..], b);
    }
  }

  /** The wheel writes of messages add up to the sum of their ticks (zero ticks write nothing). */
  lemma {:induction false} EmittedWheelTotal(ticks: seq<int>)
    ensures WheelTotal(Emitted(ticks)) == Sum(ticks)
    decreases |ticks|
  {
    if ticks != [] {
      var t := ticks[0];
      EmittedWheelTotal(ticks[1..]);
      WheelTotalAppend(MessageEvents(t), Emitted(ticks[1..]));
      assert [SynReport][1..] == [];
      if t != 0 {
        assert MessageEvents(t)[1..] == [SynReport];
      }
    }
  }

  /**
   * Conservation on the device: after messages d1..dn of a fresh session the
   * wheel values written plus the residue equal GAIN * (d1 + ... + dn), so the
   * device is never a whole tick away from the scaled displacement.
   */
  lemma Conservation(ds: seq<real>)
    ensures WheelTotal(Emitted(Run(0.0, ds).ticks)) as real + Run(0.0, ds).residue == GAIN * Total(ds)
    ensures -1.0 < GAIN * Total(ds) - WheelTotal(Emitted(Run(0.0, ds).ticks)) as real < 1.0
  {
    EmittedWheelTotal(Run(0.0, ds).ticks);
    RunConserves(0.0, ds);
  }

  /** Every message yields exactly one sync report. */
  lemma {:induction false} OneSyncPerMessage(ticks: seq<int>)
    ensures multiset(Emitted(ticks))[SynReport] == |ticks|
    decreases |ticks|
  {
    if ticks != [] {
      OneSyncPerMessage(ticks[1..]);
    }
  }

  /**
   * Every write in a log is a non-zero REL_WHEEL_HI_RES motion of type EV_REL
   * (so no button event is ever written), and each write is immediately
   * followed by a sync report.
   */
  predicate WellFormedLog(es: seq<Event>)
  {
    && (forall i :: 0 <= i < |es| && es[i].Rel? ==>
          es[i].evType == EV_REL && es[i].code == REL_WHEEL_HI_RES && es[i].value != 0)
    && (forall i :: 0 <= i < |es| && es[i].Rel? ==> i + 1 < |es| && es[i + 1] == SynReport)
  }

  /** Every log a session produces is well formed and, once a message arrived, ends with a sync. */
  lemma {:induction false} EmittedWellFormed(ticks: seq<int>)
    ensures WellFormedLog(Emitted(ticks))
    ensures ticks != [] ==> Emitted(ticks)[|Emitted(ticks)| - 1] == SynReport
    decreases |ticks|
  {
    if ticks != [] {
      EmittedWellFormed(ticks[1..]);
      var m: seq<Event>, b: seq<Event> := MessageEvents(ticks[0]), Emitted(ticks[1..]);
      assert Emitted(ticks) == m + b;
      forall i | 0 <= i < |m + b| && (m + b)[i].Rel?
        ensures i + 1 < |m + b| && (m + b)[i + 1] == SynReport
      {
        if i >= |m| {
          assert b[i - |m|].Rel?;
        }
      }
    }
  }

  function Negate(ds: seq<real>): (r: seq<real>)
  {
    seq(|ds|, i requires 0 <= i < |ds| => -ds[i])
  }

  function NegateTicks(ts: seq<int>): (r: seq<int>)
  {
    seq(|ts|, i requires 0 <= i < |ts| => -ts[i])
  }

  /** A session's first message, then the rest from the residue it leaves. */
  lemma RunFirst(acc: real, ds: seq<real>)
    requires ds != []
    ensures Run(acc, ds) == Session(Run(Feed(acc, ds[0]).residue, ds[1..]).residue,
                                    [Feed(acc, ds[0]).tick] + Run(Feed(acc, ds[0]).residue, ds[1..]).ticks)
  {
  }

  lemma NegateFirst(ds: seq<real>)
    requires ds != []
    ensures Negate(ds) != [] && Negate(ds)[0] == -ds[0] && Negate(ds)[1..] == Negate(ds[1..])
  {
  }

  lemma NegateTicksFirst(t: int, ts: seq<int>)
    ensures NegateTicks([t] + ts) == [-t] + NegateTicks(ts)
  {
  }

  /**
   * Sign symmetry: fed the negated deltas from the negated residue, a session
   * ends with the negated residue and computes the negated tick for every
   * message; in particular from a fresh session (residue 0).
   */
  lemma {:induction false} SignSymmetry(acc: real, ds: seq<real>)
    ensures Run(-acc, Negate(ds)) == Session(-Run(acc, ds).residue, NegateTicks(Run(acc, ds).ticks))
    decreases |ds|
  {
    if ds != [] {
      var step := Feed(acc, ds[0]);
      var rest := Run(step.residue, ds[1..]);
      RunFirst(acc, ds);
      var nds := Negate(ds);
      NegateFirst(ds);
      FeedOdd(acc, ds[0]);
      var nstep := Feed(-acc, nds[0]);
      assert nstep == Step(-step.residue, -step.tick);
      SignSymmetry(step.residue, ds[1..]);
      var nrest := Run(nstep.residue, nds[1..]);
      assert nrest == Session(-rest.residue, NegateTicks(rest.ticks));
      RunFirst(-acc, nds);
      NegateTicksFirst(step.tick, rest.ticks);
    }
  }

  /** A step whose outcome is known: tick t and non-negative residue r with t + r the scaled sum. */
  lemma FeedKnown(acc: real, d: real, t: nat, r: real)
    requires 0.0 <= r < 1.0
    requires acc + d * GAIN == t as real + r
    ensures Feed(acc, d) == Step(r, t)
  {
    TruncOf(acc + d * GAIN, t);
  }

  /** Four deltas of 1.0 write four bursts of 6 ticks and never leave a residue. */
  lemma WholeDeltas()
    ensures Run(0.0, [1.0, 1.0, 1.0, 1.0]) == Session(0.0, [6, 6, 6, 6])
  {
    FeedKnown(0.0, 1.0, 6, 0.0);
    assert Run(0.0, [1.0]) == Session(0.0, [6]);
    assert Run(0.0, [1.0, 1.0]) == Session(0.0, [6, 6]);
    assert Run(0.0, [1.0, 1.0, 1.0]) == Session(0.0, [6, 6, 6]);
  }

  /** Five deltas of 0.1 (0.6 of a tick each) from a fresh session: three ticks, no residue. */
  lemma FiveTenths()
    ensures Run(0.0, [0.1, 0.1, 0.1, 0.1, 0.1]) == Session(0.0, [0, 1, 0, 1, 1])
  {
    var d := 0.1;
    FeedKnown(0.0, d, 0, 0.6);
    FeedKnown(0.6, d, 1, 0.2);
    FeedKnown(0.2, d, 0, 0.8);
    FeedKnown(0.8, d, 1, 0.4);
    FeedKnown(0.4, d, 1, 0.0);
    assert Run(0.4, [d]) == Session(0.0, [1]);
    assert Run(0.8, [d, d]) == Session(0.0, [1, 1]);
    assert Run(0.2, [d, d, d]) == Session(0.0, [0, 1, 1]);
    assert Run(0.6, [d, d, d, d]) == Session(0.0, [1, 0, 1, 1]);
  }

  /**
   * Ten deltas of 0.1 carry their fractions over: six ticks in all, exactly
   * 10 * 0.6, and no residue is left.
   */
  lemma TenthDeltas()
    ensures Run(0.0, [0.1, 0.1, 0.1, 0.1, 0.1, 0.1, 0.1, 0.1, 0.1, 0.1])
         == Session(0.0, [0, 1, 0, 1, 1, 0, 1, 0, 1, 1])
  {
    var five := [0.1, 0.1, 0.1, 0.1, 0.1];
    FiveTenths();
    RunAppend(0.0, five, five);
    assert five + five == [0.1, 0.1, 0.1, 0.1, 0.1, 0.1, 0.1, 0.1, 0.1, 0.1];
  }

  /** The process-wide virtual input device; its event queue is modelled as an append-only log. */
  class VirtualDevice {
    const name: string
    /** Declared capabilities: event type to the codes it may carry. */
    const capabilities: map<int, seq<int>>
    var events: seq<Event>

    constructor (name: string)
      ensures this.name == name
      ensures capabilities == map[EV_REL := [REL_WHEEL_HI_RES], EV_KEY := [BTN_LEFT, BTN_RIGHT]]
      ensures events == []
    {
      this.name := name;
      capabilities := map[EV_REL := [REL_WHEEL_HI_RES], EV_KEY := [BTN_LEFT, BTN_RIGHT]];
      events := [];
    }

    method Write(evType: int, code: int, value: int)
      modifies this
      ensures events == old(events) + [Rel(evType, code, value)]
    {
      events := events + [Rel(evType, code, value)];
    }

    method Syn()
      modifies this
      ensures events == old(events) + [SynReport]
    {
      events := events + [SynReport];
    }
  }

  /** The deltas a session processes: the messages before the first one that cannot be parsed. */
  function Parsed(msgs: seq<Message>): (ds: seq<real>)
    ensures |ds| <= |msgs|
    ensures forall i :: 0 <= i < |ds| ==> msgs[i] == Delta(ds[i])
    ensures |ds| < |msgs| ==> msgs[|ds|] == Unparsable
    ensures Unparsable in msgs <==> |ds| < |msgs|
  {
    if msgs == [] || msgs[0] == Unparsable then [] else [msgs[0].value] + Parsed(msgs[1..])
  }

  /**
   * The body of the handler's loop for one parsed message: scale and add, write
   * the truncated value when it is non-zero and subtract it, then always sync.
   */
  method OnMessage(ui: VirtualDevice, acc: real, delta: real) returns (acc': real)
    modifies ui
    ensures acc' == Feed(acc, delta).residue
    ensures ui.events == old(ui.events) + MessageEvents(Feed(acc, delta).tick)
  {
    acc' := acc + delta * GAIN;
    var ia := Trunc(acc');
    if ia != 0 {
      ui.Write(EV_REL, REL_WHEEL_HI_RES, ia);
      acc' := acc' - ia as real;
    }
    ui.Syn();
  }

  /** The handler loop's invariant, over the events written so far and the residue carried. */
  predicate HandledUpTo(msgs: seq<Message>, i: nat, acc: real, events: seq<Event>, start: seq<Event>)
    requires i <= |msgs|
  {
    && Run(acc, Parsed(msgs[i..])).residue == Run(0.0, Parsed(msgs)).residue
    && events + Emitted(Run(acc, Parsed(msgs[i..])).ticks) == start + Emitted(Run(0.0, Parsed(msgs)).ticks)
  }

  /** Handling the parsed message at `i` keeps the invariant. */
  lemma HandleStep(msgs: seq<Message>, i: nat, acc: real, events: seq<Event>, start: seq<Event>)
    requires i < |msgs| && msgs[i].Delta?
    requires HandledUpTo(msgs, i, acc, events, start)
    ensures HandledUpTo(msgs, i + 1, Feed(acc, msgs[i].value).residue,
                        events + MessageEvents(Feed(acc, msgs[i].value).tick), start)
  {
    var step := Feed(acc, msgs[i].value);
    var rest := Parsed(msgs[i + 1..]);
    assert msgs[i..][1..] == msgs[i + 1..];
    assert Parsed(msgs[i..]) == [msgs[i].value] + rest;
    RunFirst(acc, Parsed(msgs[i..]));
    var tail := Run(step.residue, rest).ticks;
    assert Emitted([step.tick] + tail) == MessageEvents(step.tick) + Emitted(tail);
  }

  /**
   * One WebSocket session: a fresh residue, then each message in arrival order
   * goes through OnMessage. A message that does not parse raises out of the
   * loop and ends the session with nothing written for it; `raised` says
   * whether that happened.
   */
  method WsHandler(ui: VirtualDevice, msgs: seq<Message>) returns (acc: real, raised: bool)
    modifies ui
    ensures ui.events == old(ui.events) + Emitted(Run(0.0, Parsed(msgs)).ticks)
    ensures acc == Run(0.0, Parsed(msgs)).residue
    ensures raised <==> Unparsable in msgs
  {
    acc := 0.0;
    var i := 0;
    while i < |msgs| && msgs[i].Delta?
      invariant 0 <= i <= |msgs|
      invariant forall j :: 0 <= j < i ==> msgs[j].Delta?
      invariant HandledUpTo(msgs, i, acc, ui.events, old(ui.events))
    {
      HandleStep(msgs, i, acc, ui.events, old(ui.events));
      acc := OnMessage(ui, acc, msgs[i].value);
      i := i + 1;
    }
    raised := i < |msgs|;
  }
}
