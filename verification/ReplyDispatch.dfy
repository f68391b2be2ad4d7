/**
  Dispatch of solicited replies. The pending-request list is shared: between the look-up of
  a reply's request and its removal, other threads may add requests and withdraw any of
  them. Serials are handed out in increasing order and never reused.
 */
module ReplyDispatch {
  import opened Numerals

  datatype Kind =
    | EmergencyDial
    | SetEccServiceCategory
    | DataRegistrationState
    | SetupDataCall
    | AllowData
    | GetSimStatus
    | OtherKind(code: int)

  /** The requests whose replies are handled here rather than by the superclass. */
  predicate Ours(kind: Kind) {
    !kind.GetSimStatus? && !kind.OtherKind?
  }

  datatype Request = Request(serial: int, kind: Kind, hasResult: bool)

  /** A reply as received: a parcel of words with a read position. */
  datatype Parcel = Parcel(words: seq<int>, position: nat)

  /** Reading past the end yields 0 and leaves the position. */
  function ReadInt(p: Parcel): (int, Parcel) {
    if p.position < |p.words| then (p.words[p.position], p.(position := p.position + 1)) else (0, p)
  }

  function DataAvail(p: Parcel): int {
    |p.words| - p.position
  }

  predicate HasAnswer(error: int, p: Parcel) {
    error == 0 || DataAvail(p) > 0
  }

  datatype Event =
    | Completed(reply: int, request: Request)
    | CompletedWithException(reply: int, request: Request)
    | HandedUp(received: Parcel, passedOn: Parcel, found: Option<Request>)
    | ShouldNotBeHere(kind: Kind)

  /** Where the receiving thread stands: between replies, or between look-up and removal. */
  datatype Control = Idle | LookedUp(serial: int, error: int, parcel: Parcel, kind: Kind)

  datatype State = State(pending: map<int, Request>, next: int, control: Control, log: seq<Event>)

  function Found(pending: map<int, Request>, serial: int): Option<Request> {
    if serial in pending then Some(pending[serial]) else None
  }

  /** The first half of processing a reply, done under the lock of the list. The superclass
      removes and answers the request of the reply it gets, if it finds one. */
  function Receive(s: State, received: Parcel, refreshThrows: bool): State {
    var (serial, p1) := ReadInt(received);
    var (error, p2) := ReadInt(p1);
    if serial in s.pending && HasAnswer(error, p2) && Ours(s.pending[serial].kind) then
      s.(control := LookedUp(serial, error, p2, s.pending[serial].kind))
    else if serial in s.pending && HasAnswer(error, p2) && s.pending[serial].kind.GetSimStatus? && refreshThrows then
      s.(log := s.log + if s.pending[serial].hasResult then [CompletedWithException(serial, s.pending[serial])] else [])
    else
      s.(pending := s.pending - {serial}, log := s.log + [HandedUp(received, p2.(position := received.position), Found(s.pending, serial))])
  }

  /** The second half: remove the request, decode the reply by the request's kind, complete it. */
  function Take(s: State, decodeThrows: bool): State
    requires s.control.LookedUp?
  {
    var LookedUp(serial, error, p, _) := s.control;
    var idle := s.(control := Idle);
    if serial !in s.pending then idle
    else
      var r := s.pending[serial];
      var taken := idle.(pending := s.pending - {serial});
      if HasAnswer(error, p) && !Ours(r.kind) then taken.(log := s.log + [ShouldNotBeHere(r.kind)])
      else if HasAnswer(error, p) && decodeThrows then taken
      else taken.(log := s.log + if r.hasResult then [Completed(serial, r)] else [])
  }

  // ----- the dispatcher in place -----

  class Dispatcher {
    var pending: map<int, Request>
    var log: seq<Event>

    /** The look-up half of processSolicited; Idle means the reply is finished. */
    method Preprocess(received: Parcel, refreshThrows: bool) returns (control: Control)
      modifies this
      ensures State(pending, 0, control, log) == Receive(State(old(pending), 0, Idle, old(log)), received, refreshThrows)
    {
      var dataPosition := received.position;
      var (serial, p1) := ReadInt(received);
      var (error, p) := ReadInt(p1);
      var rr: Option<Request> := None;
      if serial in pending {
        var tr := pending[serial];
        if error == 0 || DataAvail(p) > 0 {
          match tr.kind {
            case EmergencyDial => rr := Some(tr);
            case SetEccServiceCategory => rr := Some(tr);
            case DataRegistrationState => rr := Some(tr);
            case SetupDataCall => rr := Some(tr);
            case AllowData => rr := Some(tr);
            case GetSimStatus =>
              if refreshThrows {
                if tr.hasResult {
                  log := log + [CompletedWithException(serial, tr)];
                }
                return Idle;
              }
            case OtherKind(_) =>
          }
        }
      }
      if rr.None? {
        p := p.(position := dataPosition);
        log := log + [HandedUp(received, p, Found(pending, serial))];
        pending := pending - {serial};
        return Idle;
      }
      return LookedUp(serial, error, p, rr.value.kind);
    }

    method Finish(control: Control, decodeThrows: bool)
      requires control.LookedUp?
      modifies this
      ensures State(pending, 0, Idle, log) == Take(State(old(pending), 0, control, old(log)), decodeThrows)
    {
      var LookedUp(serial, error, p, _) := control;
      if serial !in pending {
        return;
      }
      var rr := pending[serial];
      pending := pending - {serial};
      if error == 0 || DataAvail(p) > 0 {
        match rr.kind {
          case GetSimStatus =>
            log := log + [ShouldNotBeHere(rr.kind)];
            return;
          case OtherKind(_) =>
            log := log + [ShouldNotBeHere(rr.kind)];
            return;
          case _ =>
            if decodeThrows {
              return;
            }
        }
      }
      if rr.hasResult {
        log := log + [Completed(serial, rr)];
      }
    }
  }

  // ----- runs -----

  datatype Step =
    | Issue(kind: Kind, hasResult: bool)
    | Withdraw(serial: int)
    | Reply(received: Parcel, refreshThrows: bool)
    | Resume(decodeThrows: bool)

  /** The receiving thread takes one reply at a time; the other steps may come at any moment. */
  function Apply(s: State, step: Step): State {
    match step
    case Issue(kind, hasResult) =>
      s.(pending := s.pending[s.next := Request(s.next, kind, hasResult)], next := s.next + 1)
    case Withdraw(serial) => s.(pending := s.pending - {serial})
    case Reply(received, refreshThrows) => if s.control.Idle? then Receive(s, received, refreshThrows) else s
    case Resume(decodeThrows) => if s.control.LookedUp? then Take(s, decodeThrows) else s
  }

  function Run(s: State, steps: seq<Step>): State
    decreases steps
  {
    if steps == [] then s else Run(Apply(s, steps[0]), steps[1..])
  }

  const START := State(map[], 0, Idle, [])

  predicate AnswersSerial(e: Event, serial: int) {
    e.Completed? && e.reply == serial
  }

  function Completions(log: seq<Event>, serial: int): nat {
    if log == [] then 0
    else Completions(log[..|log| - 1], serial) + if AnswersSerial(log[|log| - 1], serial) then 1 else 0
  }

  /** A log entry that does what the source promises. */
  predicate Sound(e: Event) {
    match e
    case Completed(reply, request) => request.serial == reply && request.hasResult && Ours(request.kind)
    case CompletedWithException(reply, request) => request.serial == reply && request.hasResult && request.kind.GetSimStatus?
    case HandedUp(received, passedOn, found) =>
      passedOn == received && (found.Some? ==> found.value.serial == ReadInt(received).0)
    case ShouldNotBeHere(_) => false
  }

  ghost predicate PendingOk(pending: map<int, Request>, next: int) {
    forall k :: k in pending ==> k < next && pending[k].serial == k
  }

  /** Between look-up and removal the request may have gone, but not changed. */
  ghost predicate ControlOk(control: Control, pending: map<int, Request>, next: int) {
    control.LookedUp? ==>
      && control.serial < next
      && HasAnswer(control.error, control.parcel)
      && Ours(control.kind)
      && (control.serial in pending ==> pending[control.serial].kind == control.kind)
  }

  ghost predicate LogOk(log: seq<Event>, pending: map<int, Request>, next: int) {
    && (forall e <- log :: Sound(e))
    && (forall serial :: Completions(log, serial) <= 1)
    && (forall serial :: serial in pending || serial >= next ==> Completions(log, serial) == 0)
  }

  ghost predicate Invariant(s: State) {
    && PendingOk(s.pending, s.next)
    && ControlOk(s.control, s.pending, s.next)
    && LogOk(s.log, s.pending, s.next)
  }

  lemma LogGrows(log: seq<Event>, e: Event, pending: map<int, Request>, pending': map<int, Request>, next: int)
    requires LogOk(log, pending, next) && Sound(e) && pending'.Keys <= pending.Keys
    requires e.Completed? ==> e.reply in pending && e.reply !in pending' && e.reply < next
    ensures LogOk(log + [e], pending', next)
  {
    forall serial
      ensures Completions(log + [e], serial) == Completions(log, serial) + if AnswersSerial(e, serial) then 1 else 0
    {
      assert (log + [e])[..|log|] == log;
    }
  }

  lemma ReceiveKeeps(s: State, received: Parcel, refreshThrows: bool)
    requires Invariant(s) && s.control.Idle?
    ensures Invariant(Receive(s, received, refreshThrows))
  {
    var s' := Receive(s, received, refreshThrows);
    if s'.log != s.log {
      var e := s'.log[|s.log|];
      assert s'.log == s.log + [e];
      assert Sound(e);
      LogGrows(s.log, e, s.pending, s'.pending, s.next);
    }
  }

  lemma TakeKeeps(s: State, decodeThrows: bool)
    requires Invariant(s) && s.control.LookedUp?
    ensures Invariant(Take(s, decodeThrows))
  {
    var s' := Take(s, decodeThrows);
    if s'.log != s.log {
      var e := s'.log[|s.log|];
      assert s'.log == s.log + [e];
      assert Sound(e);
      LogGrows(s.log, e, s.pending, s'.pending, s.next);
    }
  }

  lemma ApplyKeeps(s: State, step: Step)
    requires Invariant(s)
    ensures Invariant(Apply(s, step))
  {
    match step {
      case Issue(_, _) =>
      case Withdraw(_) =>
      case Reply(received, refreshThrows) =>
        if s.control.Idle? {
          ReceiveKeeps(s, received, refreshThrows);
        }
      case Resume(decodeThrows) =>
        if s.control.LookedUp? {
          TakeKeeps(s, decodeThrows);
        }
    }
  }

  lemma {:induction false} RunKeeps(s: State, steps: seq<Step>)
    requires Invariant(s)
    ensures Invariant(Run(s, steps))
    decreases steps
  {
    if steps != [] {
      ApplyKeeps(s, steps[0]);
      RunKeeps(Apply(s, steps[0]), steps[1..]);
    }
  }

  /** Under every interleaving with issues and withdrawals by other threads: each reply completes
      only the request with its own serial, each request at most once; the superclass always gets
      the parcel exactly as it was received; the "should not be here" branch is never reached. */
  lemma DispatchIsSound(steps: seq<Step>)
    ensures forall e <- Run(START, steps).log :: Sound(e)
    ensures forall serial :: Completions(Run(START, steps).log, serial) <= 1
  {
    assert Invariant(START);
    RunKeeps(START, steps);
  }

  // ----- how a request leaves the list -----

  function SerialOf(p: Parcel): int {
    ReadInt(p).0
  }

  predicate Touches(step: Step, serial: int) {
    (step.Withdraw? && step.serial == serial) || (step.Reply? && SerialOf(step.received) == serial)
  }

  /** Over every run a pending request stays pending, unchanged, unless it is withdrawn or a reply
      carrying its serial arrives. */
  lemma {:induction false} StaysPending(s: State, steps: seq<Step>, serial: int)
    requires Invariant(s) && serial in s.pending
    requires s.control.LookedUp? ==> s.control.serial != serial
    requires forall i :: 0 <= i < |steps| ==> !Touches(steps[i], serial)
    ensures var end := Run(s, steps);
            serial in end.pending && end.pending[serial] == s.pending[serial]
    decreases steps
  {
    if steps != [] {
      var next := Apply(s, steps[0]);
      ApplyKeeps(s, steps[0]);
      assert !Touches(steps[0], serial);
      assert serial in next.pending && next.pending[serial] == s.pending[serial];
      StaysPending(next, steps[1..], serial);
    }
  }
}
