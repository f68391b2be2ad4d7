/**
  Which requests are answered, and how often, over every run of the dispatch: by this class, by the
  exception of a refresh that throws, or by the superclass when a reply is handed up.
 */
module ReplyAnswers {
  import opened ReplyDispatch

  // ----- how often a request is answered -----

  /** An answer to the request with this serial, by this class or by the superclass. */
  predicate Answers(e: Event, serial: int) {
    match e
    case Completed(reply, _) => reply == serial
    case CompletedWithException(reply, _) => reply == serial
    case HandedUp(received, _, found) => SerialOf(received) == serial && found.Some? && found.value.hasResult
    case ShouldNotBeHere(_) => false
  }

  function AnswerCount(log: seq<Event>, serial: int): nat {
    if log == [] then 0
    else AnswerCount(log[..|log| - 1], serial) + if Answers(log[|log| - 1], serial) then 1 else 0
  }

  /** Whether a step answers the request with this serial. */
  predicate AnsweredNow(s: State, step: Step, serial: int) {
    var log := Apply(s, step).log;
    |log| > |s.log| && Answers(log[|s.log|], serial)
  }

  /** The number of steps of a run that answer the request. */
  function AnswersIn(s: State, steps: seq<Step>, serial: int): nat
    decreases steps
  {
    if steps == [] then 0
    else (if AnsweredNow(s, steps[0], serial) then 1 else 0) + AnswersIn(Apply(s, steps[0]), steps[1..], serial)
  }

  lemma {:induction false} AnswersInLog(s: State, steps: seq<Step>, serial: int)
    ensures AnswerCount(Run(s, steps).log, serial) == AnswerCount(s.log, serial) + AnswersIn(s, steps, serial)
    decreases steps
  {
    if steps != [] {
      var log := Apply(s, steps[0]).log;
      if log != s.log {
        assert log == s.log + [log[|s.log|]];
        assert log[..|log| - 1] == s.log;
      }
      AnswersInLog(Apply(s, steps[0]), steps[1..], serial);
    }
  }

  /** A reply with this serial arrives and finds its request pending. */
  predicate FindsPending(s: State, step: Step, serial: int) {
    step.Reply? && s.control.Idle? && SerialOf(step.received) == serial && serial in s.pending
  }

  /** It is the reply to a SIM status request that wants a result, and the refresh throws. */
  predicate ThrowsOn(s: State, step: Step, serial: int) {
    && FindsPending(s, step, serial) && step.refreshThrows
    && s.pending[serial].kind == GetSimStatus && s.pending[serial].hasResult
    && var (_, p1) := ReadInt(step.received);
       var (error, p2) := ReadInt(p1);
       HasAnswer(error, p2)
  }

  ghost predicate FoundLater(s: State, steps: seq<Step>, serial: int)
    decreases steps
  {
    steps != [] && (FindsPending(s, steps[0], serial) || FoundLater(Apply(s, steps[0]), steps[1..], serial))
  }

  /** A refresh throws on the reply to the request, and a later reply finds it still pending. */
  ghost predicate ThrownThenFound(s: State, steps: seq<Step>, serial: int)
    decreases steps
  {
    steps != [] &&
    var next := Apply(s, steps[0]);
    || (ThrowsOn(s, steps[0], serial) && FoundLater(next, steps[1..], serial))
    || ThrownThenFound(next, steps[1..], serial)
  }

  /** The number of steps of a run at which a refresh throws on a reply to the request. */
  function ThrowsIn(s: State, steps: seq<Step>, serial: int): nat
    decreases steps
  {
    if steps == [] then 0
    else (if ThrowsOn(s, steps[0], serial) then 1 else 0) + ThrowsIn(Apply(s, steps[0]), steps[1..], serial)
  }

  /** Only a pending request is answered, and it is then gone unless the refresh threw. */
  lemma AnswerRemoves(s: State, step: Step, serial: int)
    requires Invariant(s)
    ensures AnsweredNow(s, step, serial) ==> serial in s.pending && serial < Apply(s, step).next
    ensures AnsweredNow(s, step, serial) && !ThrowsOn(s, step, serial) ==> serial !in Apply(s, step).pending
    ensures ThrowsOn(s, step, serial) ==> AnsweredNow(s, step, serial) && Apply(s, step).pending == s.pending
  {}

  lemma {:induction false} GoneForever(s: State, steps: seq<Step>, serial: int)
    requires Invariant(s) && serial < s.next && serial !in s.pending
    ensures AnswersIn(s, steps, serial) == 0 == ThrowsIn(s, steps, serial)
    ensures !FoundLater(s, steps, serial) && !ThrownThenFound(s, steps, serial)
    decreases steps
  {
    hide Invariant, AnsweredNow;
    if steps != [] {
      AnswerRemoves(s, steps[0], serial);
      ApplyKeeps(s, steps[0]);
      GoneForever(Apply(s, steps[0]), steps[1..], serial);
    }
  }

  /** Every reply that finds a pending SIM status request that wants a result answers it, and
      nothing else does. */
  lemma SimStatusStep(s: State, step: Step, serial: int)
    requires Invariant(s) && serial in s.pending
    requires s.pending[serial].kind == GetSimStatus && s.pending[serial].hasResult
    ensures AnsweredNow(s, step, serial) <==> FindsPending(s, step, serial)
    ensures serial in Apply(s, step).pending ==> Apply(s, step).pending[serial] == s.pending[serial]
    ensures serial < Apply(s, step).next
  {}

  lemma {:induction false} SimStatusAnswered(s: State, steps: seq<Step>, serial: int)
    requires Invariant(s) && serial in s.pending
    requires s.pending[serial].kind == GetSimStatus && s.pending[serial].hasResult
    ensures AnswersIn(s, steps, serial) > 0 <==> FoundLater(s, steps, serial)
    ensures ThrownThenFound(s, steps, serial) ==> FoundLater(s, steps, serial)
    decreases steps
  {
    if steps != [] {
      var next := Apply(s, steps[0]);
      SimStatusStep(s, steps[0], serial);
      ApplyKeeps(s, steps[0]);
      if serial in next.pending {
        SimStatusAnswered(next, steps[1..], serial);
      } else {
        GoneForever(next, steps[1..], serial);
      }
    }
  }

  lemma {:induction false} TwiceExactly(s: State, steps: seq<Step>, serial: int)
    requires Invariant(s)
    ensures AnswersIn(s, steps, serial) > 1 <==> ThrownThenFound(s, steps, serial)
    decreases steps
  {
    if steps != [] {
      var next, rest := Apply(s, steps[0]), steps[1..];
      AnswerRemoves(s, steps[0], serial);
      ApplyKeeps(s, steps[0]);
      if ThrowsOn(s, steps[0], serial) {
        SimStatusAnswered(next, rest, serial);
      } else if AnsweredNow(s, steps[0], serial) {
        GoneForever(next, rest, serial);
      } else {
        TwiceExactly(next, rest, serial);
      }
    }
  }

  /** Over every run a request is answered more than once, by this class and the superclass
      together, if and only if a refresh throws on a reply to it and a later reply finds it still
      pending. */
  lemma AnsweredTwiceExactly(steps: seq<Step>, serial: int)
    ensures AnswerCount(Run(START, steps).log, serial) > 1 <==> ThrownThenFound(START, steps, serial)
  {
    assert Invariant(START);
    AnswersInLog(START, steps, serial);
    TwiceExactly(START, steps, serial);
  }

  lemma {:induction false} AnswersInBounded(s: State, steps: seq<Step>, serial: int)
    requires Invariant(s)
    ensures ThrowsIn(s, steps, serial) <= AnswersIn(s, steps, serial) <= ThrowsIn(s, steps, serial) + 1
    decreases steps
  {
    hide Invariant, Apply, AnsweredNow, ThrowsOn;
    if steps != [] {
      var next, rest := Apply(s, steps[0]), steps[1..];
      AnswerRemoves(s, steps[0], serial);
      ApplyKeeps(s, steps[0]);
      if AnsweredNow(s, steps[0], serial) && !ThrowsOn(s, steps[0], serial) {
        GoneForever(next, rest, serial);
      } else {
        AnswersInBounded(next, rest, serial);
      }
    }
  }

  /** The answers to a request, by this class and the superclass together, number the refreshes that
      threw on it and at most one more. */
  lemma AnswersBounded(steps: seq<Step>, serial: int)
    ensures var throws := ThrowsIn(START, steps, serial);
            throws <= AnswerCount(Run(START, steps).log, serial) <= throws + 1
  {
    assert Invariant(START);
    AnswersInLog(START, steps, serial);
    AnswersInBounded(START, steps, serial);
  }

  /** The bound is met: a refresh that throws answers the request but leaves it pending, and the
      superclass answers it again when the next reply is handed up. */
  lemma ThrowingRefreshAnswersTwice()
    ensures var p := Parcel([0, 0], 0);
            var steps := [Issue(GetSimStatus, true), Reply(p, true), Reply(p, false)];
            AnswerCount(Run(START, steps).log, 0) == 2 == 1 + ThrowsIn(START, steps, 0)
  {
    var p := Parcel([0, 0], 0);
    var steps := [Issue(GetSimStatus, true), Reply(p, true), Reply(p, false)];
    var s1 := Apply(START, steps[0]);
    var s2 := Apply(s1, steps[1]);
    var s3 := Apply(s2, steps[2]);
    var two, one := steps[1..], steps[1..][1..];
    assert two[0] == steps[1] && one[0] == steps[2] && one[1..] == [];
    assert ThrowsOn(s1, steps[1], 0) && FindsPending(s2, steps[2], 0);
    assert FoundLater(s2, one, 0) && ThrownThenFound(s1, two, 0);
    AnsweredTwiceExactly(steps, 0);
    AnswersBounded(steps, 0);
    assert ThrowsIn(s3, [], 0) == 0;
    assert ThrowsIn(s2, one, 0) == 0;
    assert ThrowsIn(s1, two, 0) == 1;
  }

  // ----- which replies answer a request -----

  /** The kinds whose replies this class decodes itself. */
  const OUR_KINDS := {EmergencyDial, SetEccServiceCategory, DataRegistrationState, SetupDataCall, AllowData}

  lemma OurKinds(kind: Kind)
    ensures Ours(kind) <==> kind in OUR_KINDS
  {}

  /** The reply has an error code of 0, or something after the error code. */
  predicate CarriesAnswer(p: Parcel) {
    |p.words| <= p.position + 1 || p.words[p.position + 1] == 0 || |p.words| > p.position + 2
  }

  lemma AnswerOnWords(p: Parcel)
    ensures SerialOf(p) == if p.position < |p.words| then p.words[p.position] else 0
    ensures var (_, p1) := ReadInt(p);
            var (error, p2) := ReadInt(p1);
            HasAnswer(error, p2) <==> CarriesAnswer(p)
  {}

  /** The reply is looked up here: an idle thread gets it, and its pending request is of our kinds. */
  predicate LooksUp(s: State, step: Step, serial: int) {
    FindsPending(s, step, serial) && s.pending[serial].kind in OUR_KINDS && CarriesAnswer(step.received)
  }

  /** Steps that do not end the handling of a reply. */
  predicate NoResume(steps: seq<Step>) {
    forall i :: 0 <= i < |steps| ==> !steps[i].Resume?
  }

  predicate Withdrawn(steps: seq<Step>, serial: int) {
    exists i :: 0 <= i < |steps| && steps[i] == Withdraw(serial)
  }

  lemma LookUpStep(s: State, step: Step, serial: int)
    requires LooksUp(s, step, serial)
    ensures var next := Apply(s, step);
            && next.control.LookedUp? && next.control.serial == serial && HasAnswer(next.control.error, next.control.parcel)
            && next.pending == s.pending && next.log == s.log && next.next == s.next
  {
    AnswerOnWords(step.received);
    OurKinds(s.pending[serial].kind);
  }

  /** While a reply is being handled the other threads change only the list. */
  lemma {:induction false} WhileLookedUp(s: State, window: seq<Step>, serial: int)
    requires s.control.LookedUp? && s.control.serial == serial && serial < s.next && NoResume(window)
    ensures var end := Run(s, window);
            && end.control == s.control && end.log == s.log
            && (serial in end.pending <==> serial in s.pending && !Withdrawn(window, serial))
            && (serial in end.pending ==> end.pending[serial] == s.pending[serial])
    decreases window
  {
    if window != [] {
      var next, rest := Apply(s, window[0]), window[1..];
      assert next.control == s.control && next.log == s.log by {
        assert !window[0].Resume?;
      }
      assert serial in next.pending <==> serial in s.pending && window[0] != Withdraw(serial);
      assert forall i :: 0 <= i < |rest| ==> rest[i] == window[i + 1];
      WhileLookedUp(next, rest, serial);
      assert Withdrawn(window, serial) <==> window[0] == Withdraw(serial) || Withdrawn(rest, serial) by {
        if i :| 0 <= i < |window| && window[i] == Withdraw(serial) {
          assert i == 0 || rest[i - 1] == Withdraw(serial);
        }
        if i :| 0 <= i < |rest| && rest[i] == Withdraw(serial) {
          assert window[i + 1] == Withdraw(serial);
        }
      }
    }
  }

  lemma {:induction false} RunOfConcat(s: State, a: seq<Step>, b: seq<Step>)
    ensures Run(s, a + b) == Run(Run(s, a), b)
    decreases a
  {
    if a == [] {
      assert a + b == b;
    } else {
      assert (a + b)[1..] == a[1..] + b;
      RunOfConcat(Apply(s, a[0]), a[1..], b);
    }
  }

  lemma ResumeStep(s: State, decodeThrows: bool)
    requires Invariant(s) && s.control.LookedUp?
    ensures var end, serial := Apply(s, Resume(decodeThrows)), s.control.serial;
            && end.control.Idle? && serial !in end.pending
            && end.log == s.log + if serial in s.pending && s.pending[serial].hasResult && !decodeThrows
                                  then [Completed(serial, s.pending[serial])] else []
  {}

  lemma OneStep(s: State, step: Step)
    ensures Run(s, [step]) == Apply(s, step)
  {
    assert [step][1..] == [];
  }

  lemma ThreeParts(s: State, reply: Step, window: seq<Step>, last: Step)
    ensures Run(s, [reply] + window + [last]) == Apply(Run(Apply(s, reply), window), last)
  {
    hide Run, Apply;
    RunOfConcat(s, [reply] + window, [last]);
    RunOfConcat(s, [reply], window);
    OneStep(s, reply);
    OneStep(Run(Apply(s, reply), window), last);
  }

  lemma CompletionCounts(log: seq<Event>, r: Request, serial: int)
    ensures AnswerCount(log + [Completed(serial, r)], serial) == AnswerCount(log, serial) + 1 && log + [] == log
  {
    assert (log + [Completed(serial, r)])[..|log|] == log;
  }

  /** One reply from its look-up to its end, whatever the other threads do meanwhile: the request is
      gone, and the log has gained exactly its completion if it wants a result, was not withdrawn
      and decoding did not throw, and nothing otherwise. */
  lemma LookedUpReply(s: State, reply: Step, serial: int, window: seq<Step>, decodeThrows: bool)
    requires Invariant(s) && LooksUp(s, reply, serial) && NoResume(window)
    ensures var end, r := Run(s, [reply] + window + [Resume(decodeThrows)]), s.pending[serial];
            var completes := r.hasResult && !Withdrawn(window, serial) && !decodeThrows;
            && end.control.Idle? && serial !in end.pending
            && end.log == s.log + (if completes then [Completed(serial, r)] else [])
            && AnswerCount(end.log, serial) == AnswerCount(s.log, serial) + if completes then 1 else 0
  {
    CompletionCounts(s.log, s.pending[serial], serial);
    assert serial in s.pending && serial < s.next;
    hide Invariant, Withdrawn, NoResume, LooksUp, Run, Apply;
    var s1 := Apply(s, reply);
    var s2 := Run(s1, window);
    LookUpStep(s, reply, serial);
    ApplyKeeps(s, reply);
    WhileLookedUp(s1, window, serial);
    RunKeeps(s1, window);
    ResumeStep(s2, decodeThrows);
    ThreeParts(s, reply, window, Resume(decodeThrows));
  }

  /** On the steps alone: the handling ends without a decode exception before the request is withdrawn. */
  predicate Resumed(steps: seq<Step>, serial: int) {
    steps != [] &&
    if steps[0].Resume? then !steps[0].decodeThrows else steps[0] != Withdraw(serial) && Resumed(steps[1..], serial)
  }

  /** Some reply finds the request pending and is either not looked up here, so that the superclass or
      the exception answers it, or it is resumed before a withdrawal without a decode exception. */
  ghost predicate Answered(s: State, steps: seq<Step>, serial: int)
    decreases steps
  {
    steps != [] &&
    (|| (FindsPending(s, steps[0], serial) && (LooksUp(s, steps[0], serial) ==> Resumed(steps[1..], serial)))
     || Answered(Apply(s, steps[0]), steps[1..], serial))
  }

  lemma {:induction false} AnsweredIsFound(s: State, steps: seq<Step>, serial: int)
    requires Answered(s, steps, serial)
    ensures FoundLater(s, steps, serial)
    decreases steps
  {
    if !FindsPending(s, steps[0], serial) {
      AnsweredIsFound(Apply(s, steps[0]), steps[1..], serial);
    }
  }

  lemma GoneIsNotAnswered(s: State, steps: seq<Step>, serial: int)
    requires Invariant(s) && serial < s.next && serial !in s.pending
    ensures AnswersIn(s, steps, serial) == 0 && !Answered(s, steps, serial)
  {
    hide Invariant;
    GoneForever(s, steps, serial);
    if Answered(s, steps, serial) {
      AnsweredIsFound(s, steps, serial);
    }
  }

  /** What one step does to a request whose reply is in hand. */
  lemma InHandStep(s: State, step: Step, serial: int)
    requires Invariant(s) && s.control.LookedUp? && s.control.serial == serial && serial in s.pending
    ensures var next := Apply(s, step);
            && serial < next.next && !FindsPending(s, step, serial)
            && (AnsweredNow(s, step, serial) <==> step == Resume(false) && s.pending[serial].hasResult)
            && (step.Resume? || step == Withdraw(serial) ==> serial !in next.pending)
            && (!step.Resume? && step != Withdraw(serial) ==>
                  next.control == s.control && serial in next.pending && next.pending[serial] == s.pending[serial])
  {}

  lemma {:induction false} InHand(s: State, steps: seq<Step>, serial: int)
    requires Invariant(s) && s.control.LookedUp? && s.control.serial == serial && serial in s.pending
    ensures AnswersIn(s, steps, serial) > 0 <==> s.pending[serial].hasResult && Resumed(steps, serial)
    ensures !Answered(s, steps, serial)
    decreases steps
  {
    hide Invariant, Apply, AnsweredNow, FindsPending;
    if steps != [] {
      var step, next, rest := steps[0], Apply(s, steps[0]), steps[1..];
      InHandStep(s, step, serial);
      ApplyKeeps(s, step);
      if step.Resume? || step == Withdraw(serial) {
        GoneIsNotAnswered(next, rest, serial);
      } else {
        InHand(next, rest, serial);
      }
    }
  }

  /** The request is pending and no reply to it is in hand. */
  predicate Open(s: State, serial: int) {
    serial in s.pending && (s.control.LookedUp? ==> s.control.serial != serial)
  }

  /** What one step does to a request with no reply in hand. */
  lemma OpenStep(s: State, step: Step, serial: int)
    requires Invariant(s) && Open(s, serial)
    ensures var next := Apply(s, step);
            && serial < next.next
            && (AnsweredNow(s, step, serial) <==>
                  FindsPending(s, step, serial) && !LooksUp(s, step, serial) && s.pending[serial].hasResult)
            && (!LooksUp(s, step, serial) && serial in next.pending ==>
                  Open(next, serial) && next.pending[serial] == s.pending[serial])
  {
    if step.Reply? {
      AnswerOnWords(step.received);
      OurKinds(s.pending[serial].kind);
    }
  }

  lemma {:induction false} OpenAnswered(s: State, steps: seq<Step>, serial: int)
    requires Invariant(s) && Open(s, serial)
    ensures AnswersIn(s, steps, serial) > 0 <==> s.pending[serial].hasResult && Answered(s, steps, serial)
    decreases steps
  {
    hide Invariant, Apply, AnsweredNow, FindsPending, LooksUp;
    if steps != [] {
      var step, next, rest := steps[0], Apply(s, steps[0]), steps[1..];
      OpenStep(s, step, serial);
      ApplyKeeps(s, step);
      if LooksUp(s, step, serial) {
        LookUpStep(s, step, serial);
        InHand(next, rest, serial);
        LooksUpFinds(s, step, serial);
      } else if serial in next.pending {
        OpenAnswered(next, rest, serial);
      } else {
        GoneIsNotAnswered(next, rest, serial);
      }
    }
  }

  lemma LooksUpFinds(s: State, step: Step, serial: int)
    requires LooksUp(s, step, serial)
    ensures FindsPending(s, step, serial)
  {}

  // ----- from the issue of a request on -----

  lemma {:induction false} NextGrows(s: State, steps: seq<Step>)
    ensures Run(s, steps).next >= s.next
    decreases steps
  {
    if steps != [] {
      NextGrows(Apply(s, steps[0]), steps[1..]);
    }
  }

  lemma {:induction false} UnissuedNeverAnswered(s: State, steps: seq<Step>, serial: int)
    requires Invariant(s) && Run(s, steps).next <= serial
    ensures AnswersIn(s, steps, serial) == 0
    decreases steps
  {
    if steps != [] {
      NextGrows(s, steps);
      AnswerRemoves(s, steps[0], serial);
      ApplyKeeps(s, steps[0]);
      UnissuedNeverAnswered(Apply(s, steps[0]), steps[1..], serial);
    }
  }

  lemma {:induction false} OursNeverThrow(s: State, steps: seq<Step>, serial: int)
    requires Invariant(s) && serial < s.next && (serial in s.pending ==> s.pending[serial].kind in OUR_KINDS)
    ensures ThrowsIn(s, steps, serial) == 0
    decreases steps
  {
    if steps != [] {
      var next := Apply(s, steps[0]);
      ApplyKeeps(s, steps[0]);
      assert serial < next.next && (serial in next.pending ==> serial in s.pending && next.pending[serial] == s.pending[serial]);
      OursNeverThrow(next, steps[1..], serial);
    }
  }

  /** Over every run, for the request issued after `before`: it is answered, by this class and the
      superclass together, if and only if it wants a result and some reply finds it pending and is
      either not looked up here or resumed before a withdrawal without a decode exception. A request
      of our kinds is answered at most once. */
  lemma AnsweredExactly(before: seq<Step>, kind: Kind, hasResult: bool, after: seq<Step>)
    ensures var s := Run(START, before);
            var issued, serial := Apply(s, Issue(kind, hasResult)), s.next;
            var answers := AnswerCount(Run(START, before + [Issue(kind, hasResult)] + after).log, serial);
            && (answers > 0 <==> hasResult && Answered(issued, after, serial))
            && (kind in OUR_KINDS ==> answers <= 1)
  {
    assert Invariant(START);
    var s := Run(START, before);
    var issued, serial := Apply(s, Issue(kind, hasResult)), s.next;
    RunKeeps(START, before);
    ApplyKeeps(s, Issue(kind, hasResult));
    assert Open(issued, serial) && issued.pending[serial] == Request(serial, kind, hasResult) && issued.log == s.log;
    hide Invariant, Answered, Run, AnswersIn, AnswerCount;
    RunOfConcat(START, before + [Issue(kind, hasResult)], after);
    RunOfConcat(START, before, [Issue(kind, hasResult)]);
    OneStep(s, Issue(kind, hasResult));
    AnswersInLog(START, before, serial);
    AnswersInLog(issued, after, serial);
    UnissuedNeverAnswered(START, before, serial);
    NothingLogged(serial);
    OpenAnswered(issued, after, serial);
    if kind in OUR_KINDS {
      OursNeverThrow(issued, after, serial);
      AnswersInBounded(issued, after, serial);
    }
  }

  lemma NothingLogged(serial: int)
    ensures AnswerCount(START.log, serial) == 0
  {}

  // ----- which replies go up -----

  /** A reply that an idle thread gets goes to the superclass, as it was received, unless it is looked up
      here or the refresh after a SIM status answer throws; the superclass then takes the request. */
  lemma GoesUp(s: State, received: Parcel, refreshThrows: bool)
    requires s.control.Idle?
    ensures var serial, end := SerialOf(received), Apply(s, Reply(received, refreshThrows));
            (end.log == s.log + [HandedUp(received, received, Found(s.pending, serial))] && serial !in end.pending && end.control.Idle?) <==>
            !(serial in s.pending && CarriesAnswer(received) &&
              (s.pending[serial].kind in OUR_KINDS || (s.pending[serial].kind == GetSimStatus && refreshThrows)))
  {
    AnswerOnWords(received);
    if SerialOf(received) in s.pending {
      OurKinds(s.pending[SerialOf(received)].kind);
    }
  }
}
