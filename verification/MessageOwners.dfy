/** Startup's check that every message has one owner, and the transport's first-match lookup
    that relies on it. */
module MessageOwners {
  import opened Wrappers
  import opened Subjects

  datatype Kind = Command | Event

  datatype Handler = Handler(kind: Kind, pattern: string)

  datatype OwnerError =
    | InvalidSubject(pattern: string, owner: nat)
    | SharedSubject(pattern: string, other: nat, owner: nat)
    | DuplicateSubject(kind: Kind, pattern: string, existing: nat, owner: nat)
    | CommandOverlapsEvent(command: string, event: string)
    | EventsOverlap(first: string, second: string)

  /** All handlers of a graph, module by module. */
  function Flatten(modules: seq<seq<Handler>>): seq<Handler> {
    if modules == [] then [] else Flatten(modules[..|modules| - 1]) + modules[|modules| - 1]
  }

  ghost predicate ValidHandler(h: Handler) {
    ValidMicroservicePattern(h.pattern, h.kind.Command?)
  }

  /** No subject whatsoever has two owners. */
  ghost predicate SoleOwners(handlers: seq<Handler>) {
    forall i, j, s: string :: 0 <= i < j < |handlers| ==>
      !(Matches(handlers[i].pattern, s) && Matches(handlers[j].pattern, s))
  }

  /** Patterns are mapped to modules that declare them. */
  ghost predicate Declared(modules: seq<seq<Handler>>, kind: Kind, patterns: map<string, nat>) {
    forall p <- patterns :: patterns[p] < |modules| && Handler(kind, p) in modules[patterns[p]]
  }

  /** The reported conflict exists, in the modules named. */
  ghost predicate Conflict(modules: seq<seq<Handler>>, error: OwnerError) {
    match error
    case InvalidSubject(pattern, owner) =>
      owner < |modules| && exists h <- modules[owner] :: h.pattern == pattern && !ValidHandler(h)
    case SharedSubject(pattern, other, owner) =>
      && other < |modules| && owner < |modules|
      && ((Handler(Command, pattern) in modules[other] && Handler(Event, pattern) in modules[owner])
          || (Handler(Event, pattern) in modules[other] && Handler(Command, pattern) in modules[owner]))
    case DuplicateSubject(kind, pattern, existing, owner) =>
      && existing < |modules| && owner < |modules|
      && Handler(kind, pattern) in modules[existing] && Handler(kind, pattern) in modules[owner]
    case CommandOverlapsEvent(command, event) =>
      && Handler(Command, command) in Flatten(modules) && Handler(Event, event) in Flatten(modules)
      && Overlap(command, event)
    case EventsOverlap(first, second) =>
      && first != second && Handler(Event, first) in Flatten(modules) && Handler(Event, second) in Flatten(modules)
      && Overlap(first, second)
  }

  /** What the registration loop has established about the handlers seen so far. */
  ghost predicate Registered(seen: seq<Handler>, commands: map<string, nat>, events: map<string, nat>) {
    && (forall h <- seen :: ValidHandler(h))
    && (forall i, j :: 0 <= i < j < |seen| ==> seen[i].pattern != seen[j].pattern)
    && (forall h <- seen :: h.pattern in (if h.kind.Command? then commands else events))
    && (forall p <- commands :: Handler(Command, p) in seen)
    && (forall p <- events :: Handler(Event, p) in seen)
  }

  lemma FlattenPrefix(modules: seq<seq<Handler>>, m: nat)
    requires m < |modules|
    ensures Flatten(modules[..m + 1]) == Flatten(modules[..m]) + modules[m]
  {
    assert modules[..m + 1][..m] == modules[..m];
  }

  lemma {:induction false} FlattenExtends(modules: seq<seq<Handler>>, m: nat)
    requires m <= |modules|
    ensures Flatten(modules[..m]) <= Flatten(modules)
    decreases |modules| - m
  {
    if m == |modules| {
      assert modules[..m] == modules;
    } else {
      FlattenPrefix(modules, m);
      FlattenExtends(modules, m + 1);
    }
  }

  /** A valid pattern matches some subject, so two handlers with one pattern share it. */
  lemma SamePatternOverlaps(handlers: seq<Handler>, i: nat, j: nat)
    requires i < j < |handlers| && ValidHandler(handlers[i])
    requires handlers[i].pattern == handlers[j].pattern
    ensures !SoleOwners(handlers)
  {
    OverlapExact(handlers[i].pattern, handlers[i].pattern);
  }

  lemma CommandsDoNotOverlap(a: string, b: string)
    requires ValidMicroservicePattern(a, true) && ValidMicroservicePattern(b, true)
    requires CanMeet(Split(a), Split(b))
    ensures Split(a) == Split(b)
  {
    CommandPatternIsLiteral(a);
    CommandPatternIsLiteral(b);
    forall i | 0 <= i < |Split(a)| ensures Split(a)[i] == Split(b)[i] {
      assert Split(a)[i] in Split(a) && Split(b)[i] in Split(b);
      assert Compatible(Split(a)[i], Split(b)[i]);
    }
  }

  lemma {:induction false} SplitInjective(a: string, b: string)
    requires Split(a) == Split(b)
    ensures a == b
  {
    SplitLength(a);
    SplitLength(b);
    if a != "" && b != "" {
      var ra, rb := Split(a[1..]), Split(b[1..]);
      if a[0] == '.' && b[0] == '.' {
        assert ra == Split(a)[1..] && rb == Split(b)[1..];
      } else {
        assert Split(a)[0] == Split(b)[0];
        assert a[0] != '.' && b[0] != '.';
        assert a[0] == Split(a)[0][0] && b[0] == Split(b)[0][0];
        assert ra == [Split(a)[0][1..]] + Split(a)[1..];
        assert rb == [Split(b)[0][1..]] + Split(b)[1..];
      }
      SplitInjective(a[1..], b[1..]);
      assert a == [a[0]] + a[1..] && b == [b[0]] + b[1..];
    }
  }

  lemma SplitLength(s: string)
    ensures s != "" ==> Split(s) != [""]
  {
  }

  lemma OverlapBreaksOwnership(handlers: seq<Handler>, g: Handler, h: Handler)
    requires g in handlers && h in handlers && g != h
    requires ValidHandler(g) && ValidHandler(h) && CanMeet(Split(g.pattern), Split(h.pattern))
    ensures !SoleOwners(handlers) && Overlap(g.pattern, h.pattern)
  {
    OverlapExact(g.pattern, h.pattern);
    var i :| 0 <= i < |handlers| && handlers[i] == g;
    var j :| 0 <= j < |handlers| && handlers[j] == h;
    assert i < j || j < i;
  }

  /** Accepts exactly the graphs whose patterns are valid and leave every subject at most one
      owner. The two closing searches run over hash maps, so which overlap is reported first
      is not fixed. */
  method CheckMessageOwners(modules: seq<seq<Handler>>) returns (error: Option<OwnerError>)
    ensures error.None? <==>
            (forall h <- Flatten(modules) :: ValidHandler(h)) && SoleOwners(Flatten(modules))
    ensures error.Some? ==> Conflict(modules, error.value)
  {
    ghost var all := Flatten(modules);
    var commands: map<string, nat>, events: map<string, nat>;
    error, commands, events := RegisterSubjects(modules);
    if error.Some? {
      return;
    }
    var clash := FindCommandClash(commands.Keys, events.Keys);
    if clash.Some? {
      OverlapBreaksOwnership(all, Handler(Command, clash.value.0), Handler(Event, clash.value.1));
      return Some(CommandOverlapsEvent(clash.value.0, clash.value.1));
    }
    clash := FindEventClash(events.Keys);
    if clash.Some? {
      OverlapBreaksOwnership(all, Handler(Event, clash.value.0), Handler(Event, clash.value.1));
      return Some(EventsOverlap(clash.value.0, clash.value.1));
    }
    DisjointPatternsSoleOwners(all, commands, events);
  }

  /** Whether some pattern of one hash map meets one of another. */
  method FindCommandClash(commands: set<string>, events: set<string>) returns (clash: Option<(string, string)>)
    ensures clash.None? ==> forall c, e :: c in commands && e in events ==> !CanMeet(Split(c), Split(e))
    ensures clash.Some? ==> clash.value.0 in commands && clash.value.1 in events
                            && CanMeet(Split(clash.value.0), Split(clash.value.1))
  {
    hide CanMeet;
    var pending := commands;
    while pending != {}
      invariant pending <= commands
      invariant forall c, e :: c in commands - pending && e in events ==> !CanMeet(Split(c), Split(e))
    {
      var command :| command in pending;
      var event := FindMeeting(command, events);
      if event.Some? {
        return Some((command, event.value));
      }
      pending := pending - {command};
    }
    return None;
  }

  /** Whether two different event patterns meet; each pair is tried once. */
  method FindEventClash(events: set<string>) returns (clash: Option<(string, string)>)
    ensures clash.None? ==> forall a, b :: a in events && b in events && a != b ==> !CanMeet(Split(a), Split(b))
    ensures clash.Some? ==> clash.value.0 in events && clash.value.1 in events && clash.value.0 != clash.value.1
                            && CanMeet(Split(clash.value.0), Split(clash.value.1))
  {
    hide CanMeet;
    var pending := events;
    while pending != {}
      invariant pending <= events
      invariant forall a, b :: a in events - pending && b in events && a != b ==> !CanMeet(Split(a), Split(b))
      invariant forall a, b :: a in events && b in events - pending && a != b ==> !CanMeet(Split(a), Split(b))
    {
      var first :| first in pending;
      pending := pending - {first};
      var second := FindMeeting(first, pending);
      if second.Some? {
        return Some((first, second.value));
      }
      forall b | b in events && b != first
        ensures !CanMeet(Split(first), Split(b)) && !CanMeet(Split(b), Split(first))
      {
        MeetingIsMutual(Split(first), Split(b));
      }
    }
    return None;
  }

  lemma MeetingIsMutual(p: seq<string>, q: seq<string>)
    ensures CanMeet(p, q) <==> CanMeet(q, p)
  {
    assert forall i :: 0 <= i < HeadLength(p) && i < HeadLength(q) ==>
        (Compatible(p[i], q[i]) <==> Compatible(q[i], p[i]));
  }

  method FindMeeting(pattern: string, others: set<string>) returns (found: Option<string>)
    ensures found.None? ==> forall o <- others :: !CanMeet(Split(pattern), Split(o))
    ensures found.Some? ==> found.value in others && CanMeet(Split(pattern), Split(found.value))
  {
    hide CanMeet;
    var rest := others;
    while rest != {}
      invariant rest <= others
      invariant forall o <- others - rest :: !CanMeet(Split(pattern), Split(o))
    {
      var other :| other in rest;
      var meet := MicroservicePatternsIntersect(pattern, other);
      if meet {
        return Some(other);
      }
      rest := rest - {other};
    }
    return None;
  }

  lemma DisjointPatternsSoleOwners(all: seq<Handler>, commands: map<string, nat>, events: map<string, nat>)
    requires Registered(all, commands, events)
    requires forall c, e :: c in commands && e in events ==> !CanMeet(Split(c), Split(e))
    requires forall a, b :: a in events && b in events && a != b ==> !CanMeet(Split(a), Split(b))
    ensures SoleOwners(all)
  {
    forall i, j, s: string | 0 <= i < j < |all|
      ensures !(Matches(all[i].pattern, s) && Matches(all[j].pattern, s))
    {
      var p, q := all[i].pattern, all[j].pattern;
      if Matches(p, s) && Matches(q, s) {
        SharedWordsMeet(Split(p), Split(q), Split(s));
        SharedWordsMeet(Split(q), Split(p), Split(s));
        assert all[i] in all && all[j] in all;
        if all[i].kind.Command? && all[j].kind.Command? {
          CommandsDoNotOverlap(p, q);
          SplitInjective(p, q);
        }
        assert false;
      }
    }
  }

  method RegisterSubjects(modules: seq<seq<Handler>>)
    returns (error: Option<OwnerError>, commands: map<string, nat>, events: map<string, nat>)
    ensures error.None? ==> Registered(Flatten(modules), commands, events)
    ensures error.Some? ==> Conflict(modules, error.value)
    ensures error.Some? ==> !((forall h <- Flatten(modules) :: ValidHandler(h)) && SoleOwners(Flatten(modules)))
  {
    hide Declared, Conflict;
    hide Registered, SoleOwners, ValidHandler, Split;
    error, commands, events := None, map[], map[];
    NothingRegistered(modules);
    for m := 0 to |modules|
      invariant error.None? && Registered(Flatten(modules[..m]), commands, events)
      invariant Declared(modules, Command, commands) && Declared(modules, Event, events)
    {
      FlattenPrefix(modules, m);
      FlattenExtends(modules, m + 1);
      ghost var before := Flatten(modules[..m]);
      assert before + modules[m][..0] == before;
      for i := 0 to |modules[m]|
        invariant error.None? && Registered(before + modules[m][..i], commands, events)
        invariant Declared(modules, Command, commands) && Declared(modules, Event, events)
      {
        assert before + modules[m][..i] + [modules[m][i]] == before + modules[m][..i + 1];
        assert before + modules[m][..i + 1] <= before + modules[m];
        error, commands, events :=
          RegisterSubject(before + modules[m][..i], modules, modules[m][i], m, commands, events);
        if error.Some? {
          return;
        }
      }
      assert modules[m][..|modules[m]|] == modules[m];
    }
    assert modules[..|modules|] == modules;
  }

  lemma NothingRegistered(modules: seq<seq<Handler>>)
    ensures Registered(Flatten([]), map[], map[])
    ensures Declared(modules, Command, map[]) && Declared(modules, Event, map[])
  {
  }

  method RegisterSubject(ghost seen: seq<Handler>, ghost modules: seq<seq<Handler>>, h: Handler, owner: nat,
                         commands: map<string, nat>, events: map<string, nat>)
    returns (error: Option<OwnerError>, commands': map<string, nat>, events': map<string, nat>)
    requires seen + [h] <= Flatten(modules) && Registered(seen, commands, events)
    requires owner < |modules| && h in modules[owner]
    requires Declared(modules, Command, commands) && Declared(modules, Event, events)
    ensures error.None? ==> Registered(seen + [h], commands', events')
    ensures error.None? ==> Declared(modules, Command, commands') && Declared(modules, Event, events')
    ensures error.Some? ==> !(ValidHandler(h) && h in Flatten(modules) && SoleOwners(Flatten(modules)))
    ensures error.Some? ==> h in Flatten(modules) && Conflict(modules, error.value)
  {
    hide SoleOwners, Flatten;
    ghost var all := Flatten(modules);
    assert h == Handler(h.kind, h.pattern);
    commands', events' := commands, events;
    assert all[|seen|] == h;
    if !ValidMicroservicePattern(h.pattern, h.kind.Command?) {
      return Some(InvalidSubject(h.pattern, owner)), commands, events;
    }
    var other := if h.kind.Command? then events else commands;
    var same := if h.kind.Command? then commands else events;
    if h.pattern in other {
      TakenSubjectOverlaps(seen, all, h, commands, events);
      return Some(SharedSubject(h.pattern, other[h.pattern], owner)), commands, events;
    }
    if h.pattern in same {
      TakenSubjectOverlaps(seen, all, h, commands, events);
      return Some(DuplicateSubject(h.kind, h.pattern, same[h.pattern], owner)), commands, events;
    }
    error := None;
    if h.kind.Command? {
      commands' := commands[h.pattern := owner];
    } else {
      events' := events[h.pattern := owner];
    }
    ExtendRegistered(seen, h, commands, events, commands', events');
  }

  lemma TakenSubjectOverlaps(seen: seq<Handler>, all: seq<Handler>, h: Handler,
                             commands: map<string, nat>, events: map<string, nat>)
    requires seen + [h] <= all && Registered(seen, commands, events)
    requires h.pattern in commands || h.pattern in events
    ensures !SoleOwners(all)
  {
    var g := Handler(if h.pattern in commands then Command else Event, h.pattern);
    var j :| 0 <= j < |seen| && seen[j] == g;
    assert all[j] == (seen + [h])[j] && all[|seen|] == (seen + [h])[|seen|];
    SamePatternOverlaps(all, j, |seen|);
  }

  lemma ExtendRegistered(seen: seq<Handler>, h: Handler, commands: map<string, nat>, events: map<string, nat>,
                         commands': map<string, nat>, events': map<string, nat>)
    requires Registered(seen, commands, events) && ValidHandler(h)
    requires h.pattern !in commands && h.pattern !in events
    requires commands'.Keys == commands.Keys + if h.kind.Command? then {h.pattern} else {}
    requires events'.Keys == events.Keys + if h.kind.Event? then {h.pattern} else {}
    ensures Registered(seen + [h], commands', events')
  {
    assert Handler(h.kind, h.pattern) == h;
    forall p | p in seen ensures p.pattern != h.pattern {
    }
  }

  /** The event owner the transport picks: the first event handler that matches. */
  function FirstMatch(handlers: seq<Handler>, subject: string): (owner: Option<Handler>)
    ensures owner.Some? ==> owner.value in handlers && owner.value.kind.Event? && Matches(owner.value.pattern, subject)
    ensures owner.None? ==> forall h <- handlers :: h.kind.Event? ==> !Matches(h.pattern, subject)
  {
    if handlers == [] then None
    else if handlers[0].kind.Event? && Matches(handlers[0].pattern, subject) then Some(handlers[0])
    else FirstMatch(handlers[1..], subject)
  }

  /** Once startup has accepted the handlers, the lookup does not depend on their order. */
  lemma FirstMatchIgnoresOrder(handlers: seq<Handler>, shuffled: seq<Handler>, subject: string)
    requires SoleOwners(handlers) && multiset(shuffled) == multiset(handlers)
    ensures FirstMatch(handlers, subject) == FirstMatch(shuffled, subject)
  {
    var a, b := FirstMatch(handlers, subject), FirstMatch(shuffled, subject);
    forall h: Handler ensures h in handlers <==> h in shuffled {
      assert h in multiset(handlers) <==> h in multiset(shuffled);
    }
    if a.Some? && b.Some? {
      OwnerIsUnique(handlers, a.value, b.value, subject);
    }
  }

  lemma OwnerIsUnique(handlers: seq<Handler>, g: Handler, h: Handler, subject: string)
    requires SoleOwners(handlers) && g in handlers && h in handlers
    requires Matches(g.pattern, subject) && Matches(h.pattern, subject)
    ensures g == h
  {
    var i :| 0 <= i < |handlers| && handlers[i] == g;
    var j :| 0 <= j < |handlers| && handlers[j] == h;
    assert !(i < j) && !(j < i);
  }
}
