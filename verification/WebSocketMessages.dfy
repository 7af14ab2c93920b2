/** What the frames of a connection mean: the messages they were cut from, and which sequences of
    frames no messages could have been cut into (section 5.4 of RFC 6455). */
module WebSocketMessages {
  import opened Wrappers
  import opened Utf8
  import opened WebSocketConnection

  /** A message as its sender cut it up; without further pieces it was sent whole. */
  datatype Unit = Unit(kind: Kind, first: seq<Byte>, rest: seq<seq<Byte>>)

  function Joined(pieces: seq<seq<Byte>>): seq<Byte> {
    if pieces == [] then [] else Joined(pieces[..|pieces| - 1]) + pieces[|pieces| - 1]
  }

  function Original(unit: Unit): seq<Byte> { unit.first + Joined(unit.rest) }

  function Continues(pieces: seq<seq<Byte>>): seq<Message> {
    if pieces == [] then [] else Continues(pieces[..|pieces| - 1]) + [Continue(pieces[|pieces| - 1])]
  }

  /** The frames of a message not yet ended. */
  function Opening(begun: Option<Unit>): seq<Message> {
    match begun
    case None => []
    case Some(u) => [First(u.kind, u.first)] + Continues(u.rest)
  }

  function Frames(unit: Unit): seq<Message> {
    if unit.rest == [] then [Whole(unit.kind, unit.first)]
    else
      var n := |unit.rest| - 1;
      Opening(Some(unit.(rest := unit.rest[..n]))) + [Last(unit.rest[n])]
  }

  function AllFrames(units: seq<Unit>): seq<Message> {
    if units == [] then [] else AllFrames(units[..|units| - 1]) + Frames(units[|units| - 1])
  }

  function Originals(units: seq<Unit>): seq<(Kind, seq<Byte>)> {
    if units == [] then []
    else
      var n := |units| - 1;
      Originals(units[..n]) + [(units[n].kind, Original(units[n]))]
  }

  // ---- Legal sequences of frames ------------------------------------------

  /** The frames are those of whole messages and of at most one begun. */
  ghost predicate Shaped(frames: seq<Message>, units: seq<Unit>, begun: Option<Unit>) {
    frames == AllFrames(units) + Opening(begun)
  }

  /** Fragmented messages stay within the limit. */
  ghost predicate Sized(units: seq<Unit>, begun: Option<Unit>, maxSize: nat) {
    && (forall u <- units :: u.rest != [] ==> |Original(u)| <= maxSize)
    && (begun.Some? ==> |Original(begun.value)| <= maxSize)
  }

  /** Fragmented texts are UTF-8. */
  ghost predicate Textual(units: seq<Unit>) {
    forall u <- units :: u.rest != [] && u.kind.Text? ==> Valid(Original(u))
  }

  ghost predicate Parses(frames: seq<Message>, units: seq<Unit>, begun: Option<Unit>, maxSize: nat) {
    Shaped(frames, units, begun) && Sized(units, begun, maxSize) && Textual(units)
  }

  ghost predicate Legal(frames: seq<Message>, maxSize: nat) {
    exists units, begun :: Parses(frames, units, begun, maxSize)
  }

  ghost predicate WellShaped(frames: seq<Message>) {
    exists units, begun :: Shaped(frames, units, begun)
  }

  ghost predicate WellSized(frames: seq<Message>, maxSize: nat) {
    exists units, begun :: Shaped(frames, units, begun) && Sized(units, begun, maxSize)
  }

  // ---- One frame more -----------------------------------------------------

  predicate Data(m: Message) { m.Whole? || m.First? || m.Continue? || m.Last? }

  /** Whether a frame can come next at all. */
  predicate Follows(begun: Option<Unit>, m: Message) {
    if m.Whole? || m.First? then begun.None? else (m.Continue? || m.Last?) && begun.Some?
  }

  /** The messages once one more frame has come. */
  function Extend(units: seq<Unit>, begun: Option<Unit>, m: Message): (seq<Unit>, Option<Unit>)
    requires Follows(begun, m)
  {
    match m
    case Whole(kind, data) => (units + [Unit(kind, data, [])], None)
    case First(kind, data) => (units, Some(Unit(kind, data, [])))
    case Continue(data) => (units, Some(begun.value.(rest := begun.value.rest + [data])))
    case Last(data) => (units + [begun.value.(rest := begun.value.rest + [data])], None)
  }

  lemma FrameOpened(u: Unit, data: seq<Byte>)
    ensures Original(u.(rest := u.rest + [data])) == Original(u) + data
    ensures Opening(Some(u.(rest := u.rest + [data]))) == Opening(Some(u)) + [Continue(data)]
    ensures Frames(u.(rest := u.rest + [data])) == Opening(Some(u)) + [Last(data)]
  {
    var longer := u.rest + [data];
    assert longer[..|u.rest|] == u.rest;
  }

  lemma UnitAdded(units: seq<Unit>, u: Unit)
    ensures AllFrames(units + [u]) == AllFrames(units) + Frames(u)
    ensures Originals(units + [u]) == Originals(units) + [(u.kind, Original(u))]
  {
    assert (units + [u])[..|units|] == units;
  }

  lemma ExtendShaped(frames: seq<Message>, units: seq<Unit>, begun: Option<Unit>, m: Message)
    requires Shaped(frames, units, begun) && Follows(begun, m)
    ensures Shaped(frames + [m], Extend(units, begun, m).0, Extend(units, begun, m).1)
  {
    hide AllFrames, Opening, Frames;
    var (units', begun') := Extend(units, begun, m);
    NothingOpened();
    match m
    case Whole(kind, data) =>
      UnitAdded(units, Unit(kind, data, []));
      WholeFrame(kind, data);
    case First(kind, data) => FirstFrame(kind, data);
    case Continue(data) =>
      FrameOpened(begun.value, data);
    case Last(data) =>
      FrameOpened(begun.value, data);
      UnitAdded(units, begun.value.(rest := begun.value.rest + [data]));
  }

  lemma NothingOpened()
    ensures Opening(None) == []
  {
  }

  lemma WholeFrame(kind: Kind, data: seq<Byte>)
    ensures Frames(Unit(kind, data, [])) == [Whole(kind, data)]
  {
  }

  lemma FirstFrame(kind: Kind, data: seq<Byte>)
    ensures Opening(Some(Unit(kind, data, []))) == [First(kind, data)]
  {
  }

  /** Any way of reading the frames is one way of reading all but the last, extended by it. */
  lemma LastFrame(frames: seq<Message>, m: Message, units: seq<Unit>, begun: Option<Unit>)
    returns (units': seq<Unit>, begun': Option<Unit>)
    requires Shaped(frames + [m], units, begun)
    ensures Shaped(frames, units', begun') && Follows(begun', m) && (units, begun) == Extend(units', begun', m)
  {
    hide AllFrames, Opening, Frames, Extend, Follows;
    if begun.Some? {
      units' := units;
      var last;
      begun', last := OpeningBefore(begun.value);
      LastOfTwo(frames, m, AllFrames(units), Opening(begun'), last);
    } else {
      NothingOpened();
      NothingFramed(units);
      var n := |units| - 1;
      assert units == units[..n] + [units[n]];
      UnitAdded(units[..n], units[n]);
      units' := units[..n];
      var last;
      begun', last := FramesBefore(units[n]);
      LastOfTwo(frames, m, AllFrames(units'), Opening(begun'), last);
    }
  }

  lemma LastOfTwo(frames: seq<Message>, m: Message, a: seq<Message>, b: seq<Message>, last: Message)
    requires frames + [m] == a + (b + [last])
    ensures frames == a + b && m == last
  {
    var whole := frames + [m];
    assert whole == (a + b) + [last];
    assert whole[..|frames|] == frames && whole[|frames|] == m;
  }

  lemma NothingFramed(units: seq<Unit>)
    ensures AllFrames(units) == [] <==> units == []
  {
  }

  /** What was open before the latest frame of an open message. */
  lemma OpeningBefore(u: Unit) returns (before: Option<Unit>, last: Message)
    ensures Opening(Some(u)) == Opening(before) + [last] && Follows(before, last)
    ensures forall units :: Extend(units, before, last) == (units, Some(u))
  {
    if u.rest == [] {
      before, last := None, First(u.kind, u.first);
    } else {
      var k := |u.rest| - 1;
      before, last := Some(u.(rest := u.rest[..k])), Continue(u.rest[k]);
      assert u.rest == u.rest[..k] + [u.rest[k]];
      FrameOpened(before.value, u.rest[k]);
    }
  }

  /** What was open before the frame that ended a message. */
  lemma FramesBefore(u: Unit) returns (before: Option<Unit>, last: Message)
    ensures Frames(u) == Opening(before) + [last] && Follows(before, last)
    ensures forall units :: Extend(units, before, last) == (units + [u], None)
  {
    if u.rest == [] {
      before, last := None, Whole(u.kind, u.first);
      NothingOpened();
    } else {
      var k := |u.rest| - 1;
      before, last := Some(u.(rest := u.rest[..k])), Last(u.rest[k]);
      assert u.rest == u.rest[..k] + [u.rest[k]];
    }
  }

  /** Frames can be read in one way only. */
  lemma {:induction false} ShapeIsUnique(frames: seq<Message>, units: seq<Unit>, begun: Option<Unit>, units': seq<Unit>,
                                         begun': Option<Unit>)
    requires Shaped(frames, units, begun) && Shaped(frames, units', begun')
    ensures units == units' && begun == begun'
  {
    if frames == [] {
      NothingFramed(units);
      NothingFramed(units');
    } else {
      var n := |frames| - 1;
      assert frames == frames[..n] + [frames[n]];
      var a, b := LastFrame(frames[..n], frames[n], units, begun);
      var a', b' := LastFrame(frames[..n], frames[n], units', begun');
      ShapeIsUnique(frames[..n], a, b, a', b');
    }
  }

  // ---- The loop's own state -----------------------------------------------

  /** What the loop holds of a message begun. */
  function Held(begun: Option<Unit>): Option<Fragment> {
    match begun case None => None case Some(u) => Some(Fragment(u.kind, Original(u)))
  }

  /** The message a frame completes. */
  function Completed(begun: Option<Unit>, m: Message): seq<(Kind, seq<Byte>)>
    requires Follows(begun, m)
  {
    match m
    case Whole(kind, data) => [(kind, data)]
    case Last(data) => [(begun.value.kind, Original(begun.value) + data)]
    case _ => []
  }

  lemma OneUnitMore(units: seq<Unit>, begun: Option<Unit>, u: Unit, maxSize: nat)
    requires Sized(units, begun, maxSize) && Textual(units)
    ensures Sized(units + [u], None, maxSize) <==> (u.rest != [] ==> |Original(u)| <= maxSize)
    ensures Textual(units + [u]) <==> (u.rest != [] && u.kind.Text? ==> Valid(Original(u)))
  {
    hide Valid, Original;
    assert u in units + [u];
    assert forall v <- units + [u] :: v in units || v == u;
  }

  /** The loop refuses a frame exactly when it leaves nothing legal, and with the code for it. */
  lemma ViolationIsIllegal(units: seq<Unit>, begun: Option<Unit>, m: Message, maxSize: nat)
    requires Data(m) && Sized(units, begun, maxSize) && Textual(units)
    ensures Violation(Held(begun), m, maxSize) == Some(PROTOCOL) <==> !Follows(begun, m)
    ensures Follows(begun, m) ==> Judged(units, begun, m, maxSize)
  {
    hide Valid, Sized, Textual, Judged;
    if Follows(begun, m) {
      if m.Whole? || m.Last? {
        UnitJudged(units, begun, m, maxSize);
      } else {
        OpeningJudged(units, begun, m, maxSize);
      }
    }
  }

  /** The code a frame earns, by what it would make of the messages. */
  ghost predicate Judged(units: seq<Unit>, begun: Option<Unit>, m: Message, maxSize: nat)
    requires Follows(begun, m)
  {
    var (units', begun') := Extend(units, begun, m);
    var violation := Violation(Held(begun), m, maxSize);
    && (violation == Some(MESSAGE_TOO_BIG) <==> !Sized(units', begun', maxSize))
    && (violation == Some(INVALID_DATA) <==> Sized(units', begun', maxSize) && !Textual(units'))
    && (violation.None? <==> Sized(units', begun', maxSize) && Textual(units'))
    && Originals(units') == Originals(units) + Completed(begun, m)
  }

  lemma UnitJudged(units: seq<Unit>, begun: Option<Unit>, m: Message, maxSize: nat)
    requires Follows(begun, m) && (m.Whole? || m.Last?) && Sized(units, begun, maxSize) && Textual(units)
    ensures Judged(units, begun, m, maxSize)
  {
    hide Valid, Sized, Textual, Originals, Original, Frames, Opening, AllFrames;
    var u := if m.Whole? then Unit(m.kind, m.data, []) else begun.value.(rest := begun.value.rest + [m.data]);
    OneUnitMore(units, begun, u, maxSize);
    UnitAdded(units, u);
    if m.Whole? {
      WholeOriginal(m.kind, m.data);
    } else {
      FrameOpened(begun.value, m.data);
      EndedFragment(begun.value, u, m, maxSize);
    }
  }

  lemma WholeOriginal(kind: Kind, data: seq<Byte>)
    ensures Original(Unit(kind, data, [])) == data
  {
    NothingJoined();
  }

  lemma EndedFragment(b: Unit, u: Unit, m: Message, maxSize: nat)
    requires m.Last? && u == b.(rest := b.rest + [m.data]) && Original(u) == Original(b) + m.data
    ensures Violation(Held(Some(b)), m, maxSize) ==
            if |Original(u)| > maxSize then Some(MESSAGE_TOO_BIG)
            else if u.kind.Text? && !Valid(Original(u)) then Some(INVALID_DATA)
            else None
  {
    hide Valid, Original;
  }

  lemma NothingJoined()
    ensures Joined([]) == []
  {
  }

  lemma OpeningJudged(units: seq<Unit>, begun: Option<Unit>, m: Message, maxSize: nat)
    requires Follows(begun, m) && (m.First? || m.Continue?) && Sized(units, begun, maxSize) && Textual(units)
    ensures Judged(units, begun, m, maxSize)
  {
    hide Valid, Textual, Originals, Joined;
    assert Originals(units) + [] == Originals(units);
    if m.First? {
      assert Original(Unit(m.kind, m.data, [])) == m.data by { NothingJoined(); }
    } else {
      FrameOpened(begun.value, m.data);
    }
  }

  // ---- Runs ---------------------------------------------------------------

  /** The data frame a step brings, if any. */
  function DataFrame(step: Step): seq<Message> {
    if step.received.Got? && Data(step.received.message) then [step.received.message] else []
  }

  /** The data frames that arrive, everything else left out. */
  function DataFrames(steps: seq<Step>): seq<Message> {
    if steps == [] then [] else DataFrames(steps[..|steps| - 1]) + DataFrame(steps[|steps| - 1])
  }

  function Deliveries(out: seq<Output>): seq<(Kind, seq<Byte>)> {
    if out == [] then []
    else
      var n := |out| - 1;
      Deliveries(out[..n]) + if out[n].Delivered? then [(out[n].kind, out[n].data)] else []
  }

  lemma {:induction false} DeliveriesConcatenate(a: seq<Output>, b: seq<Output>)
    ensures Deliveries(a + b) == Deliveries(a) + Deliveries(b)
  {
    if b == [] {
      assert a + b == a;
    } else {
      var n := |b| - 1;
      assert (a + b)[..|a| + n] == a + b[..n] && (a + b)[|a| + n] == b[n];
      DeliveriesConcatenate(a, b[..n]);
      assert Deliveries(a + b[..n]) == Deliveries(a) + Deliveries(b[..n]);
    }
  }

  /** How a legal reading changes with one more step the loop takes. */
  function Advance(units: seq<Unit>, begun: Option<Unit>, step: Step): (seq<Unit>, Option<Unit>) {
    if DataFrame(step) != [] && Follows(begun, step.received.message) then Extend(units, begun, step.received.message)
    else (units, begun)
  }

  /** A step that meets no violation is read as one frame more, or none, and what it completes is
      delivered, whatever becomes of the connection. */
  lemma StepReads(frames: seq<Message>, units: seq<Unit>, begun: Option<Unit>, step: Step, maxSize: nat)
    requires Parses(frames, units, begun, maxSize)
    requires step.received.Got? && Violation(Held(begun), step.received.message, maxSize).None?
    ensures var (units', begun') := Advance(units, begun, step);
            var r := React(Held(begun), step, maxSize);
            && Parses(frames + DataFrame(step), units', begun', maxSize)
            && Originals(units') == Originals(units) + Deliveries(r.out)
            && (r.Next? ==> r.fragment == Held(begun'))
            && (step.succeeds && !step.received.message.Close? ==> r.Next?)
  {
    hide Valid, Shaped, Sized, Textual, Originals;
    var m := step.received.message;
    DeliveredParts(Held(begun), step, maxSize);
    if Data(m) {
      ViolationIsIllegal(units, begun, m, maxSize);
      ExtendShaped(frames, units, begun, m);
      HeldExtended(units, begun, m);
    } else {
      assert frames + DataFrame(step) == frames;
      assert Originals(units) + [] == Originals(units);
    }
  }

  lemma HeldExtended(units: seq<Unit>, begun: Option<Unit>, m: Message)
    requires Follows(begun, m)
    ensures Held(Extend(units, begun, m).1) ==
            match m
            case First(kind, data) => Some(Fragment(kind, data))
            case Continue(data) => Some(Fragment(begun.value.kind, Original(begun.value) + data))
            case _ => None
  {
    match m
    case First(kind, data) => assert Original(Unit(kind, data, [])) == data;
    case Continue(data) => FrameOpened(begun.value, data);
    case _ =>
  }

  /** What a reaction delivers. */
  lemma DeliveredParts(open: Option<Fragment>, step: Step, maxSize: nat)
    ensures Deliveries(React(open, step, maxSize).out) ==
            if step.received.Got? && Violation(open, step.received.message, maxSize).None? then
              if step.received.message.Whole? then [(step.received.message.kind, step.received.message.data)]
              else if step.received.message.Last? then [(open.value.kind, open.value.data + step.received.message.data)]
              else []
            else []
  {
    hide Violation;
    var out := React(open, step, maxSize).out;
    assert |out| >= 1 ==> out[..1] == [out[0]] && out[..0] == [];
    assert |out| >= 2 ==> out[..2][..1] == out[..1];
    assert |out| >= 3 ==> out[..3][..2] == out[..2];
    assert out[..|out|] == out;
    ShortDeliveries(out);
  }

  lemma ShortDeliveries(out: seq<Output>)
    requires |out| <= 3 && forall i :: 1 <= i < |out| ==> !out[i].Delivered?
    ensures Deliveries(out) == if out != [] && out[0].Delivered? then [(out[0].kind, out[0].data)] else []
  {
    if out != [] {
      var n := |out| - 1;
      if n > 0 {
        assert out[..n][0] == out[0];
        ShortDeliveries(out[..n]);
      }
    }
  }

  /** A run and its last step. */
  lemma RunWithLast(before: seq<Step>, last: Step, maxSize: nat)
    ensures var prefix := RunFrom(None, before, maxSize);
            RunFrom(None, before + [last], maxSize) ==
            if prefix.finished then prefix
            else
              var r := React(prefix.fragment, last, maxSize);
              if r.Stop? then Run(prefix.out + (r.out + [Closed(Reported(r.frame, last))]), true, None)
              else if !last.stillOpen then Run(prefix.out + (r.out + [Closed(last.local)]), true, None)
              else Run(prefix.out + r.out, false, r.fragment)
  {
    hide React, RunFrom;
    var prefix := RunFrom(None, before, maxSize);
    if prefix.finished {
      RunStopped(None, before, [last], maxSize);
    } else {
      RunContinues(None, before, [last], maxSize);
      RunUnfolded(prefix.fragment, [last], maxSize);
      var r := React(prefix.fragment, last, maxSize);
      assert [last][1..] == [] && r.out + [] == r.out;
      if r.Next? {
        RunUnfolded(r.fragment, [], maxSize);
      }
    }
  }

  /** Whatever arrives, as long as the connection goes on: the data frames are those of whole
      messages, all delivered unchanged and in order, and of at most one begun, which is held. */
  lemma {:induction false} RunExplained(steps: seq<Step>, maxSize: nat) returns (units: seq<Unit>, begun: Option<Unit>)
    requires !RunFrom(None, steps, maxSize).finished
    ensures Parses(DataFrames(steps), units, begun, maxSize)
    ensures RunFrom(None, steps, maxSize).fragment == Held(begun)
    ensures Deliveries(RunFrom(None, steps, maxSize).out) == Originals(units)
  {
    hide RunFrom, React, Parses, Violation;
    if steps == [] {
      units, begun := [], None;
      NothingArrived(maxSize);
    } else {
      var n := |steps| - 1;
      assert steps == steps[..n] + [steps[n]];
      RunWithLast(steps[..n], steps[n], maxSize);
      units, begun := RunExplained(steps[..n], maxSize);
      StepWithoutViolation(Held(begun), steps[n], maxSize);
      StepReads(DataFrames(steps[..n]), units, begun, steps[n], maxSize);
      DeliveriesConcatenate(RunFrom(None, steps[..n], maxSize).out, React(Held(begun), steps[n], maxSize).out);
      units, begun := Advance(units, begun, steps[n]).0, Advance(units, begun, steps[n]).1;
    }
  }

  lemma NothingArrived(maxSize: nat)
    ensures RunFrom(None, [], maxSize) == Run([], false, None) && Parses([], [], None, maxSize)
  {
  }

  lemma StepWithoutViolation(open: Option<Fragment>, step: Step, maxSize: nat)
    requires React(open, step, maxSize).Next?
    ensures step.received.Got? && Violation(open, step.received.message, maxSize).None?
  {
  }

  /** A closing report delivers nothing; neither does a step with a violation. */
  lemma LastDelivers(out: seq<Output>, begun: Option<Unit>, last: Step, maxSize: nat)
    ensures var r := React(Held(begun), last, maxSize);
            && Deliveries(out + r.out) == Deliveries(out) + Deliveries(r.out)
            && forall frame :: Deliveries(out + (r.out + [Closed(frame)])) == Deliveries(out) + Deliveries(r.out)
    ensures !(last.received.Got? && Violation(Held(begun), last.received.message, maxSize).None?) ==>
              Deliveries(React(Held(begun), last, maxSize).out) == []
  {
    hide React, Violation;
    var r := React(Held(begun), last, maxSize);
    DeliveriesConcatenate(out, r.out);
    forall frame ensures Deliveries(out + (r.out + [Closed(frame)])) == Deliveries(out) + Deliveries(r.out) {
      var closed := [Closed(frame)];
      ShortDeliveries(closed);
      DeliveriesConcatenate(r.out, closed);
      DeliveriesConcatenate(out, r.out + closed);
    }
    DeliveredParts(Held(begun), last, maxSize);
  }

  /** What the last step of a run that has gone on adds to what was delivered. */
  lemma DeliveredWithLast(before: seq<Step>, last: Step, maxSize: nat)
    returns (kept: bool, units: seq<Unit>, begun: Option<Unit>)
    requires !RunFrom(None, before, maxSize).finished
    ensures Parses(DataFrames(if kept then before + [last] else before), units, begun, maxSize)
    ensures Deliveries(RunFrom(None, before + [last], maxSize).out) == Originals(units)
  {
    hide RunFrom, React, Parses, Violation, DataFrames, DataFrame, Deliveries, Advance, Originals;
    units, begun := RunExplained(before, maxSize);
    RunWithLast(before, last, maxSize);
    LastDelivers(RunFrom(None, before, maxSize).out, begun, last, maxSize);
    kept := last.received.Got? && Violation(Held(begun), last.received.message, maxSize).None?;
    if kept {
      StepReads(DataFrames(before), units, begun, last, maxSize);
      FramesWithLast(before, last);
      units, begun := Advance(units, begun, last).0, Advance(units, begun, last).1;
    } else {
      assert Originals(units) + [] == Originals(units);
    }
  }

  lemma FramesWithLast(before: seq<Step>, last: Step)
    ensures DataFrames(before + [last]) == DataFrames(before) + DataFrame(last)
  {
    assert (before + [last])[..|before|] == before;
  }

  /** In every run, finished or not, what has been delivered is the messages of some first part of
      what arrived, whose data frames are legal. */
  lemma {:induction false} DeliveredFromPrefix(steps: seq<Step>, maxSize: nat)
    returns (n: nat, units: seq<Unit>, begun: Option<Unit>)
    ensures n <= |steps| && Parses(DataFrames(steps[..n]), units, begun, maxSize)
    ensures Deliveries(RunFrom(None, steps, maxSize).out) == Originals(units)
  {
    hide RunFrom, React, Parses, Violation, DataFrames;
    if steps == [] {
      n, units, begun := 0, [], None;
      assert DataFrames([]) == [] by { NoFrames(); }
      NothingArrived(maxSize);
    } else {
      var k := |steps| - 1;
      var before, last := steps[..k], steps[k];
      assert steps == before + [last];
      if RunFrom(None, before, maxSize).finished {
        RunWithLast(before, last, maxSize);
        n, units, begun := DeliveredFromPrefix(before, maxSize);
        assert before[..n] == steps[..n];
      } else {
        var kept;
        kept, units, begun := DeliveredWithLast(before, last, maxSize);
        n := if kept then k + 1 else k;
        assert steps[..n] == if kept then before + [last] else before;
      }
    }
  }

  lemma NoFrames()
    ensures DataFrames([]) == []
  {
  }

  // ---- Legal frames are accepted ------------------------------------------

  /** Messages arriving while every callback and reply succeeds and nobody closes. */
  ghost predicate Smooth(steps: seq<Step>) {
    forall s <- steps :: s.received.Got? && !s.received.message.Close? && s.succeeds && s.stillOpen
  }

  /** However messages are cut into fragments, and whatever pings and pongs come between: each is
      delivered once, whole and unchanged, in order, and what has been begun is held. */
  lemma {:induction false} RunAccepts(steps: seq<Step>, units: seq<Unit>, begun: Option<Unit>, maxSize: nat)
    requires Smooth(steps) && Parses(DataFrames(steps), units, begun, maxSize)
    ensures !RunFrom(None, steps, maxSize).finished && RunFrom(None, steps, maxSize).fragment == Held(begun)
    ensures Deliveries(RunFrom(None, steps, maxSize).out) == Originals(units)
  {
    hide RunFrom, React, Violation, Parses, Advance, Held;
    if steps == [] {
      NothingArrived(maxSize);
      NothingRead(units, begun, maxSize);
    } else {
      var n := |steps| - 1;
      var before, last := steps[..n], steps[n];
      assert steps == before + [last] && last in steps && forall s <- before :: s in steps;
      var units', begun' := LastStepRead(DataFrames(before), units, begun, last, maxSize);
      RunAccepts(before, units', begun', maxSize);
      RunWithLast(before, last, maxSize);
      StepReads(DataFrames(before), units', begun', last, maxSize);
      DeliveriesConcatenate(RunFrom(None, before, maxSize).out, React(Held(begun'), last, maxSize).out);
    }
  }

  lemma NothingRead(units: seq<Unit>, begun: Option<Unit>, maxSize: nat)
    requires Parses([], units, begun, maxSize)
    ensures units == [] && begun == None && Held(None) == None && Originals([]) == []
  {
    ShapeIsUnique([], [], None, units, begun);
  }

  /** A legal reading of what a step ends with is one of what came before it, to which the step is
      no violation. */
  lemma LastStepRead(frames: seq<Message>, units: seq<Unit>, begun: Option<Unit>, last: Step, maxSize: nat)
    returns (units': seq<Unit>, begun': Option<Unit>)
    requires Parses(frames + DataFrame(last), units, begun, maxSize) && last.received.Got?
    ensures Parses(frames, units', begun', maxSize) && Advance(units', begun', last) == (units, begun)
    ensures Violation(Held(begun'), last.received.message, maxSize).None?
  {
    hide Shaped, Violation, Valid, Sized, Textual;
    if DataFrame(last) != [] {
      units', begun' := LastFrame(frames, last.received.message, units, begun);
      EarlierIsLegal(units', begun', last.received.message, maxSize);
    } else {
      units', begun' := units, begun;
      assert frames + DataFrame(last) == frames;
      ControlIsLegal(Held(begun), last, maxSize);
    }
  }

  lemma EarlierIsLegal(units: seq<Unit>, begun: Option<Unit>, m: Message, maxSize: nat)
    requires Data(m) && Follows(begun, m)
    requires Sized(Extend(units, begun, m).0, Extend(units, begun, m).1, maxSize) && Textual(Extend(units, begun, m).0)
    ensures Sized(units, begun, maxSize) && Textual(units)
    ensures Violation(Held(begun), m, maxSize).None?
  {
    hide Valid, Violation;
    var (units', begun') := Extend(units, begun, m);
    assert forall u <- units :: u in units';
    if begun.Some? {
      FrameOpened(begun.value, m.data);
      assert m.Last? ==> units'[|units|] in units';
    }
    ViolationIsIllegal(units, begun, m, maxSize);
  }

  lemma ControlIsLegal(open: Option<Fragment>, step: Step, maxSize: nat)
    requires DataFrame(step) == [] && step.received.Got?
    ensures Violation(open, step.received.message, maxSize).None?
  {
  }

  /** The same of a whole connection. */
  lemma MessagesReassembled(connect: Step, units: seq<Unit>, begun: Option<Unit>, steps: seq<Step>, maxSize: nat)
    requires connect.succeeds && connect.stillOpen && Smooth(steps)
    requires Parses(DataFrames(steps), units, begun, maxSize)
    ensures !Connection(connect, steps, maxSize).finished
    ensures Deliveries(Connection(connect, steps, maxSize).out) == Originals(units)
  {
    hide RunFrom, Parses;
    RunAccepts(steps, units, begun, maxSize);
    DeliveriesConcatenate([Connected], RunFrom(None, steps, maxSize).out);
    ShortDeliveries([Connected]);
  }

  // ---- Illegal frames end the connection ----------------------------------

  /** In a connection that goes on, the next frame is refused exactly when no messages could have
      been cut into the frames up to and including it; the code tells why. */
  lemma RefusedExactly(before: seq<Step>, m: Message, maxSize: nat)
    requires !RunFrom(None, before, maxSize).finished && Data(m)
    ensures var frames := DataFrames(before) + [m];
            var violation := Violation(RunFrom(None, before, maxSize).fragment, m, maxSize);
            && (violation.Some? <==> !Legal(frames, maxSize))
            && (violation == Some(PROTOCOL) <==> !WellShaped(frames))
            && (violation == Some(MESSAGE_TOO_BIG) <==> WellShaped(frames) && !WellSized(frames, maxSize))
            && (violation == Some(INVALID_DATA) <==> WellSized(frames, maxSize) && !Legal(frames, maxSize))
  {
    hide RunFrom, Violation, Valid, Sized, Textual, Shaped;
    var units, begun := RunExplained(before, maxSize);
    ViolationIsIllegal(units, begun, m, maxSize);
    if Follows(begun, m) {
      ExtendShaped(DataFrames(before), units, begun, m);
      ExtendedIsUnique(DataFrames(before), units, begun, m);
      var (units', begun') := Extend(units, begun, m);
      var frames := DataFrames(before) + [m];
      assert Violation(Held(begun), m, maxSize).None? ==> Parses(frames, units', begun', maxSize);
    } else {
      CannotFollow(DataFrames(before), units, begun, m);
    }
  }

  lemma ExtendedIsUnique(frames: seq<Message>, units: seq<Unit>, begun: Option<Unit>, m: Message)
    requires Shaped(frames, units, begun) && Follows(begun, m)
    ensures forall us, b :: Shaped(frames + [m], us, b) ==> (us, b) == Extend(units, begun, m)
  {
    hide Shaped;
    ExtendShaped(frames, units, begun, m);
    forall us, b | Shaped(frames + [m], us, b) ensures (us, b) == Extend(units, begun, m) {
      ShapeIsUnique(frames + [m], us, b, Extend(units, begun, m).0, Extend(units, begun, m).1);
    }
  }

  lemma CannotFollow(frames: seq<Message>, units: seq<Unit>, begun: Option<Unit>, m: Message)
    requires Shaped(frames, units, begun) && !Follows(begun, m)
    ensures forall us, b :: !Shaped(frames + [m], us, b)
  {
    hide Shaped;
    forall us, b ensures !Shaped(frames + [m], us, b) {
      if Shaped(frames + [m], us, b) {
        var us', b' := LastFrame(frames, m, us, b);
        ShapeIsUnique(frames, units, begun, us', b');
      }
    }
  }

  /** The first frame that leaves nothing legal ends the connection with the code for it: what was
      delivered is exactly the messages ended before it, whatever follows. */
  lemma FirstViolationEnds(before: seq<Step>, bad: Step, after: seq<Step>, maxSize: nat)
    returns (units: seq<Unit>, frame: CloseInfo)
    requires !RunFrom(None, before, maxSize).finished && bad.received.Got? && Data(bad.received.message)
    requires !Legal(DataFrames(before) + [bad.received.message], maxSize)
    ensures var r := RunFrom(None, before + [bad] + after, maxSize);
            && r.finished && Deliveries(r.out) == Originals(units)
            && r.out == RunFrom(None, before, maxSize).out
                        + [Failed(frame.reason), SentClose(Some(frame)), Closed(Some(frame))]
    ensures exists begun :: Parses(DataFrames(before), units, begun, maxSize)
    ensures var frames := DataFrames(before) + [bad.received.message];
            frame.code == if !WellShaped(frames) then PROTOCOL
                          else if !WellSized(frames, maxSize) then MESSAGE_TOO_BIG
                          else INVALID_DATA
  {
    hide RunFrom, Legal, WellShaped, WellSized, Violation, Parses;
    var prefix := RunFrom(None, before, maxSize);
    var begun;
    units, begun := RunExplained(before, maxSize);
    RefusedExactly(before, bad.received.message, maxSize);
    RunWithLast(before, bad, maxSize);
    RunStopped(None, before + [bad], after, maxSize);
    var code := Violation(prefix.fragment, bad.received.message, maxSize).value;
    frame := CloseInfo(code, ReasonFor(bad.received.message, code));
    var out := [Failed(frame.reason), SentClose(Some(frame)), Closed(Some(frame))];
    assert React(prefix.fragment, bad, maxSize) == Refuse(code, frame.reason);
    assert [Failed(frame.reason), SentClose(Some(frame))] + [Closed(Some(frame))] == out;
    DeliveriesConcatenate(prefix.out, out);
    ShortDeliveries(out);
  }
}
