/** One WebSocket connection: fragments put back together, callbacks made, the close reported once
    (section 5.4 of RFC 6455). */
module WebSocketConnection {
  import opened Wrappers
  import opened Utf8

  datatype Kind = Text | Binary

  datatype CloseInfo = CloseInfo(code: nat, reason: string)

  const PROTOCOL := 1002
  const INVALID_DATA := 1007
  const MESSAGE_TOO_BIG := 1009
  const INTERNAL := 1011

  predicate KnownCode(code: nat) {
    1000 <= code <= 1003 || 1007 <= code <= 1014 || 3000 <= code <= 4999
  }

  /** A decoded message; `First`, `Continue` and `Last` carry the fragments of one. */
  datatype Message =
    | Whole(kind: Kind, data: seq<Byte>)
    | First(kind: Kind, data: seq<Byte>)
    | Continue(data: seq<Byte>)
    | Last(data: seq<Byte>)
    | Ping(data: seq<Byte>)
    | Pong(data: seq<Byte>)
    | Close(frame: Option<CloseInfo>)
    | Nop

  datatype Received = Got(message: Message) | Broken(code: nat) | Ended

  /** One turn of the loop: what arrives, whether the callback or reply it leads to succeeds, and
      whether the session is open afterwards; `local` is what the application closed it with. */
  datatype Step = Step(received: Received, succeeds: bool, stillOpen: bool, local: Option<CloseInfo>)

  /** What a connection is seen to do. */
  datatype Output =
    | Connected
    | Delivered(kind: Kind, data: seq<Byte>)
    | Replied(data: seq<Byte>)
    | Failed(reason: string)
    | SentClose(frame: Option<CloseInfo>)
    | Closed(frame: Option<CloseInfo>)

  datatype Fragment = Fragment(kind: Kind, data: seq<Byte>)

  // ---- Fragments ----------------------------------------------------------

  class FragmentSlot {
    var value: Option<Fragment>

    constructor ()
      ensures value == None
    {
      value := None;
    }

    method Start(first: Fragment, maxSize: nat) returns (violation: Option<nat>)
      modifies this
      ensures violation == Violation(old(value), First(first.kind, first.data), maxSize)
      ensures value == if violation.None? then Some(first) else old(value)
    {
      if value.Some? {
        return Some(PROTOCOL);
      }
      if |first.data| > maxSize {
        return Some(MESSAGE_TOO_BIG);
      }
      value := Some(first);
      return None;
    }

    method Append(data: seq<Byte>, maxSize: nat) returns (violation: Option<nat>)
      modifies this
      ensures violation == Violation(old(value), Continue(data), maxSize)
      ensures value
              == if violation.None? then Some(old(value).value.(data := old(value).value.data + data)) else old(value)
    {
      if value.None? {
        return Some(PROTOCOL);
      }
      if |value.value.data| + |data| > maxSize {
        return Some(MESSAGE_TOO_BIG);
      }
      value := Some(value.value.(data := value.value.data + data));
      return None;
    }

    method Take() returns (taken: Option<Fragment>)
      modifies this
      ensures taken == old(value) && value == None
    {
      taken := value;
      value := None;
    }
  }

  /** The close code a message earns by not fitting what came before it. */
  function Violation(open: Option<Fragment>, m: Message, maxSize: nat): Option<nat> {
    match m
    case Whole(_, _) => if open.Some? then Some(PROTOCOL) else None
    case First(_, data) =>
      if open.Some? then Some(PROTOCOL) else if |data| > maxSize then Some(MESSAGE_TOO_BIG) else None
    case Continue(data) =>
      if open.None? then Some(PROTOCOL)
      else if |open.value.data| + |data| > maxSize then Some(MESSAGE_TOO_BIG)
      else None
    case Last(data) =>
      if open.None? then Some(PROTOCOL)
      else if |open.value.data| + |data| > maxSize then Some(MESSAGE_TOO_BIG)
      else if open.value.kind.Text? && !Valid(open.value.data + data) then Some(INVALID_DATA)
      else None
    case _ => None
  }

  // ---- What one step does -------------------------------------------------

  datatype Reaction =
    | Next(fragment: Option<Fragment>, out: seq<Output>)
    | Stop(out: seq<Output>, frame: Option<CloseInfo>)

  function Refuse(code: nat, reason: string): Reaction {
    var frame := CloseInfo(code, reason);
    Stop([Failed(reason), SentClose(Some(frame))], Some(frame))
  }

  const HANDLER_FAILED := CloseInfo(INTERNAL, "handler failed")

  function Deliver(kind: Kind, data: seq<Byte>, succeeds: bool): Reaction {
    if succeeds then Next(None, [Delivered(kind, data)])
    else Stop([Delivered(kind, data), Failed(""), SentClose(Some(HANDLER_FAILED))], Some(HANDLER_FAILED))
  }

  function ReasonFor(m: Message, code: nat): string {
    if m.Whole? then "data frame interleaved with fragmented message"
    else if code == INVALID_DATA then "invalid UTF-8 text message"
    else "invalid fragmented message"
  }

  function React(open: Option<Fragment>, step: Step, maxSize: nat): Reaction {
    match step.received
    case Broken(code) =>
      var frame := CloseInfo(code, "invalid websocket frame");
      Stop([Failed(""), SentClose(Some(frame))], Some(frame))
    case Ended => Stop(if step.stillOpen then [Failed("websocket transport closed unexpectedly")] else [], None)
    case Got(m) =>
      var violation := Violation(open, m, maxSize);
      if violation.Some? then Refuse(violation.value, ReasonFor(m, violation.value))
      else
        match m
        case Whole(kind, data) => Deliver(kind, data, step.succeeds)
        case First(kind, data) => Next(Some(Fragment(kind, data)), [])
        case Continue(data) => Next(Some(Fragment(open.value.kind, open.value.data + data)), [])
        case Last(data) => Deliver(open.value.kind, open.value.data + data, step.succeeds)
        case Ping(data) => if step.succeeds then Next(open, [Replied(data)]) else Stop([Replied(data)], None)
        case Close(frame) =>
          if frame.Some? && !KnownCode(frame.value.code) then Refuse(PROTOCOL, "invalid websocket close code")
          else Stop([SentClose(frame)], frame)
        case _ => Next(open, [])
  }

  /** What a stretch of steps does; `fragment` is what is held if the connection goes on. */
  datatype Run = Run(out: seq<Output>, finished: bool, fragment: Option<Fragment>)

  function Preceded(out: seq<Output>, r: Run): Run { r.(out := out + r.out) }

  function Reported(frame: Option<CloseInfo>, step: Step): Option<CloseInfo> {
    if frame.Some? then frame
    else if step.received == Got(Close(None)) then None
    else step.local
  }

  function RunFrom(open: Option<Fragment>, steps: seq<Step>, maxSize: nat): Run
    decreases |steps|
  {
    if steps == [] then Run([], false, open)
    else
      match React(open, steps[0], maxSize)
      case Stop(out, frame) => Run(out + [Closed(Reported(frame, steps[0]))], true, None)
      case Next(fragment, out) =>
        if !steps[0].stillOpen then Run(out + [Closed(steps[0].local)], true, None)
        else Preceded(out, RunFrom(fragment, steps[1..], maxSize))
  }

  /** A whole connection; `connect` is the step of the connection callback. */
  function Connection(connect: Step, steps: seq<Step>, maxSize: nat): Run {
    if !connect.succeeds then
      Run([Connected, Failed(""), SentClose(Some(HANDLER_FAILED)), Closed(Some(HANDLER_FAILED))], true, None)
    else if !connect.stillOpen then Run([Connected, Closed(connect.local)], true, None)
    else Preceded([Connected], RunFrom(None, steps, maxSize))
  }

  /** The connection loop. `finished` is false while it waits for a step beyond the last one. */
  method RunConnection(connect: Step, steps: seq<Step>, maxSize: nat) returns (out: seq<Output>, finished: bool)
    ensures out == Connection(connect, steps, maxSize).out && finished == Connection(connect, steps, maxSize).finished
  {
    hide Valid, RunFrom, React;
    out := [Connected];
    if !connect.succeeds {
      return out + [Failed(""), SentClose(Some(HANDLER_FAILED)), Closed(Some(HANDLER_FAILED))], true;
    }
    if !connect.stillOpen {
      return out + [Closed(connect.local)], true;
    }
    var slot := new FragmentSlot();
    var i := 0;
    while i < |steps|
      invariant 0 <= i <= |steps|
      invariant fresh(slot)
      invariant Connection(connect, steps, maxSize) == Preceded(out, RunFrom(slot.value, steps[i..], maxSize))
    {
      var step := steps[i];
      ghost var before := slot.value;
      RunUnfolded(before, steps[i..], maxSize);
      var reaction := Handle(slot, step, maxSize);
      out := out + reaction.out;
      if reaction.Stop? {
        return out + [Closed(Reported(reaction.frame, step))], true;
      }
      if !step.stillOpen {
        return out + [Closed(step.local)], true;
      }
      i := i + 1;
    }
    RunUnfolded(slot.value, [], maxSize);
    assert steps[i..] == [] && out + [] == out;
    finished := false;
  }

  lemma RunUnfolded(open: Option<Fragment>, steps: seq<Step>, maxSize: nat)
    ensures RunFrom(open, steps, maxSize) ==
            if steps == [] then Run([], false, open)
            else
              var r := React(open, steps[0], maxSize);
              if r.Stop? then Run(r.out + [Closed(Reported(r.frame, steps[0]))], true, None)
              else if !steps[0].stillOpen then Run(r.out + [Closed(steps[0].local)], true, None)
              else Preceded(r.out, RunFrom(r.fragment, steps[1..], maxSize))
  {
  }

  /** The body of the loop. */
  method Handle(slot: FragmentSlot, step: Step, maxSize: nat) returns (r: Reaction)
    modifies slot
    ensures r == React(old(slot.value), step, maxSize)
    ensures r.Next? ==> slot.value == r.fragment
  {
    match step.received
    case Broken(code) =>
      var frame := CloseInfo(code, "invalid websocket frame");
      r := Stop([Failed(""), SentClose(Some(frame))], Some(frame));
    case Ended =>
      r := Stop(if step.stillOpen then [Failed("websocket transport closed unexpectedly")] else [], None);
    case Got(m) =>
      match m {
        case Whole(kind, data) =>
          if slot.value.Some? {
            r := Refuse(PROTOCOL, "data frame interleaved with fragmented message");
          } else {
            r := Deliver(kind, data, step.succeeds);
          }
        case Ping(data) =>
          r := if step.succeeds then Next(slot.value, [Replied(data)]) else Stop([Replied(data)], None);
        case Pong(_) => r := Next(slot.value, []);
        case Nop => r := Next(slot.value, []);
        case Close(frame) =>
          if frame.Some? && !KnownCode(frame.value.code) {
            r := Refuse(PROTOCOL, "invalid websocket close code");
          } else {
            r := Stop([SentClose(frame)], frame);
          }
        case First(kind, data) =>
          var violation := slot.Start(Fragment(kind, data), maxSize);
          r := if violation.Some? then Refuse(violation.value, "invalid fragmented message") else Next(slot.value, []);
        case Continue(data) =>
          var violation := slot.Append(data, maxSize);
          r := if violation.Some? then Refuse(violation.value, "invalid fragmented message") else Next(slot.value, []);
        case Last(data) =>
          var violation := slot.Append(data, maxSize);
          if violation.Some? {
            r := Refuse(violation.value, "invalid fragmented message");
          } else {
            var taken := slot.Take();
            if taken.value.kind.Text? && !Valid(taken.value.data) {
              r := Refuse(INVALID_DATA, "invalid UTF-8 text message");
            } else {
              r := Deliver(taken.value.kind, taken.value.data, step.succeeds);
            }
          }
      }
  }

  // ---- Closing ------------------------------------------------------------

  ghost predicate NoneClosed(out: seq<Output>) { forall o <- out :: !o.Closed? }

  lemma ReactionsDoNotClose(open: Option<Fragment>, step: Step, maxSize: nat)
    ensures NoneClosed(React(open, step, maxSize).out)
  {
  }

  ghost predicate ClosedLast(r: Run) {
    if r.finished then r.out != [] && r.out[|r.out| - 1].Closed? && NoneClosed(r.out[..|r.out| - 1])
    else NoneClosed(r.out)
  }

  lemma {:induction false} RunClosesLast(open: Option<Fragment>, steps: seq<Step>, maxSize: nat)
    ensures ClosedLast(RunFrom(open, steps, maxSize))
    decreases |steps|
  {
    hide React;
    RunUnfolded(open, steps, maxSize);
    if steps != [] {
      var r := React(open, steps[0], maxSize);
      ReactionsDoNotClose(open, steps[0], maxSize);
      assert forall o: Output :: (r.out + [o])[..|r.out|] == r.out;
      if r.Next? && steps[0].stillOpen {
        RunClosesLast(r.fragment, steps[1..], maxSize);
        PrecededClosesLast(r.out, RunFrom(r.fragment, steps[1..], maxSize));
      }
    }
  }

  lemma PrecededClosesLast(out: seq<Output>, r: Run)
    requires NoneClosed(out) && ClosedLast(r)
    ensures ClosedLast(Preceded(out, r))
  {
    if r.finished {
      assert (out + r.out)[..|out| + |r.out| - 1] == out + r.out[..|r.out| - 1];
    }
  }

  /** A finished connection reports its close exactly once, and last; an unfinished one not yet. */
  lemma ConnectionClosesOnce(connect: Step, steps: seq<Step>, maxSize: nat)
    ensures ClosedLast(Connection(connect, steps, maxSize))
    ensures Connection(connect, steps, maxSize).out[0] == Connected
  {
    hide RunFrom;
    RunClosesLast(None, steps, maxSize);
    PrecededClosesLast([Connected], RunFrom(None, steps, maxSize));
  }

  // ---- The buffer ---------------------------------------------------------

  ghost predicate Bounded(open: Option<Fragment>, maxSize: nat) { open.Some? ==> |open.value.data| <= maxSize }

  /** What is held never exceeds the limit, after any steps. */
  lemma {:induction false} BufferBounded(open: Option<Fragment>, steps: seq<Step>, maxSize: nat)
    requires Bounded(open, maxSize)
    ensures Bounded(RunFrom(open, steps, maxSize).fragment, maxSize)
    decreases |steps|
  {
    if steps != [] {
      var r := React(open, steps[0], maxSize);
      if r.Next? {
        BufferBounded(r.fragment, steps[1..], maxSize);
      }
    }
  }

  // ---- Runs in stretches --------------------------------------------------

  lemma {:induction false} RunContinues(open: Option<Fragment>, before: seq<Step>, after: seq<Step>, maxSize: nat)
    requires !RunFrom(open, before, maxSize).finished
    ensures RunFrom(open, before + after, maxSize) ==
            Preceded(RunFrom(open, before, maxSize).out,
                     RunFrom(RunFrom(open, before, maxSize).fragment, after, maxSize))
    decreases |before|
  {
    hide React;
    RunUnfolded(open, before, maxSize);
    if before == [] {
      assert before + after == after;
      assert [] + RunFrom(open, after, maxSize).out == RunFrom(open, after, maxSize).out;
    } else {
      RunUnfolded(open, before + after, maxSize);
      assert (before + after)[0] == before[0] && (before + after)[1..] == before[1..] + after;
      var r := React(open, before[0], maxSize);
      RunContinues(r.fragment, before[1..], after, maxSize);
      var rest := RunFrom(r.fragment, before[1..], maxSize);
      var later := RunFrom(rest.fragment, after, maxSize);
      assert r.out + (rest.out + later.out) == (r.out + rest.out) + later.out;
    }
  }

  /** Nothing happens after a connection has finished. */
  lemma {:induction false} RunStopped(open: Option<Fragment>, before: seq<Step>, after: seq<Step>, maxSize: nat)
    requires RunFrom(open, before, maxSize).finished
    ensures RunFrom(open, before + after, maxSize) == RunFrom(open, before, maxSize)
    decreases |before|
  {
    hide React;
    RunUnfolded(open, before, maxSize);
    RunUnfolded(open, before + after, maxSize);
    assert before != [];
    assert (before + after)[0] == before[0] && (before + after)[1..] == before[1..] + after;
    var r := React(open, before[0], maxSize);
    if r.Next? && before[0].stillOpen {
      RunStopped(r.fragment, before[1..], after, maxSize);
    }
  }
}
