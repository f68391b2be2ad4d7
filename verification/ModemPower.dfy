/**
  The airplane-mode and modem-power machine of the radio wrapper. Its only memory is a
  persisted property that says whether the previous call was made in airplane mode.
 */
module ModemPower {
  import opened SystemProperties

  datatype Call = Call(on: bool, airplane: bool)

  /** What one call sends: a modem command of its own, or the ordinary radio request. */
  datatype Command = ModemPowerOn | ModemPowerOff | RadioPower(on: bool)

  const WAS_AIRPLANE := "persist.radio.airplane.mode.on"
  const EBOOT := "gsm.ril.eboot"

  function FlagText(airplane: bool): (text: string)
    ensures text == "true" <==> airplane
  {
    if airplane then "true" else "false"
  }

  function Sent(wasAirplane: bool, c: Call): Command {
    if c.on && wasAirplane && !c.airplane then ModemPowerOn
    else if !c.on && c.airplane then ModemPowerOff
    else RadioPower(c.on)
  }

  function EbootAfter(eboot: string, sent: Command): string {
    match sent
    case ModemPowerOn => "0"
    case ModemPowerOff => "1"
    case RadioPower(_) => eboot
  }

  class RadioWrapper {
    var props: map<string, string>

    function Airplane(): bool
      reads this
    {
      Property(props, WAS_AIRPLANE) == "true"
    }

    function Eboot(): string
      reads this
    {
      Property(props, EBOOT)
    }

    method SetRadioPower(on: bool, isInApm: bool) returns (sent: Command)
      modifies this
      ensures sent == Sent(old(Airplane()), Call(on, isInApm))
      ensures Property(props, WAS_AIRPLANE) == FlagText(isInApm) && Airplane() == isInApm
      ensures Eboot() == EbootAfter(old(Eboot()), sent)
      ensures forall k :: k != WAS_AIRPLANE && k != EBOOT ==> Property(props, k) == Property(old(props), k)
    {
      assert |WAS_AIRPLANE| != |EBOOT|;
      var wasInApm := Property(props, WAS_AIRPLANE) == "true";
      props := props[WAS_AIRPLANE := if isInApm then "true" else "false"];
      if on && wasInApm && !isInApm {
        props := props[EBOOT := "0"];
        sent := ModemPowerOn;
      } else if !on && isInApm {
        props := props[EBOOT := "1"];
        sent := ModemPowerOff;
      } else {
        sent := RadioPower(on);
      }
    }
  }

  // ----- runs -----

  /** The commands of a run; after each call the flag is that call's airplane mode. */
  function Commands(wasAirplane: bool, calls: seq<Call>): (cs: seq<Command>)
    ensures |cs| == |calls|
    decreases calls
  {
    if calls == [] then [] else [Sent(wasAirplane, calls[0])] + Commands(calls[0].airplane, calls[1..])
  }

  function FlagBefore(wasAirplane: bool, calls: seq<Call>, k: nat): bool
    requires k <= |calls|
  {
    if k == 0 then wasAirplane else calls[k - 1].airplane
  }

  lemma {:induction false} CommandAt(wasAirplane: bool, calls: seq<Call>, k: nat)
    requires k < |calls|
    ensures Commands(wasAirplane, calls)[k] == Sent(FlagBefore(wasAirplane, calls, k), calls[k])
    decreases k
  {
    if k > 0 {
      CommandAt(calls[0].airplane, calls[1..], k - 1);
    }
  }

  /** Every command of every run, in terms of the calls: an off-call in airplane mode powers the modem
      off, an on-call outside it after a call inside it powers the modem on, and every other call, an
      on-call in airplane mode included, is passed on as it is. */
  lemma CommandExactly(wasAirplane: bool, calls: seq<Call>, k: nat)
    requires k < |calls|
    ensures var c, sent := calls[k], Commands(wasAirplane, calls)[k];
            var before := if k == 0 then wasAirplane else calls[k - 1].airplane;
            && (sent == ModemPowerOff <==> c == Call(false, true))
            && (sent == ModemPowerOn <==> c == Call(true, false) && before)
            && (sent == RadioPower(true) <==> c == Call(true, true) || (c == Call(true, false) && !before))
            && (sent == RadioPower(false) <==> c == Call(false, false))
  {
    CommandAt(wasAirplane, calls, k);
  }

  /** Switching the radio on in airplane mode and then on again outside it. */
  ghost predicate OnThroughAirplane(calls: seq<Call>) {
    exists k :: 0 < k < |calls| && calls[k - 1] == Call(true, true) && calls[k] == Call(true, false)
  }

  ghost predicate PairedPowerOn(cs: seq<Command>) {
    forall k :: 0 <= k < |cs| && cs[k] == ModemPowerOn ==> k > 0 && cs[k - 1] == ModemPowerOff
  }

  /** Every modem power-on immediately follows a call that powered the modem off exactly when no
      on-call in airplane mode is followed by an on-call outside it and a run that starts with the
      airplane flag set does not open with such an on-call. From a start outside airplane mode,
      never switching on in airplane mode is enough. */
  lemma PowerOnFollowsPowerOff(wasAirplane: bool, calls: seq<Call>)
    ensures PairedPowerOn(Commands(wasAirplane, calls)) <==>
            !OnThroughAirplane(calls) && !(wasAirplane && calls != [] && calls[0] == Call(true, false))
    ensures !wasAirplane && (forall c <- calls :: !(c.on && c.airplane)) ==> PairedPowerOn(Commands(wasAirplane, calls))
  {
    var cs := Commands(wasAirplane, calls);
    forall k | 0 <= k < |calls|
      ensures cs[k] == Sent(FlagBefore(wasAirplane, calls, k), calls[k])
    {
      CommandAt(wasAirplane, calls, k);
    }
    if OnThroughAirplane(calls) {
      var k :| 0 < k < |calls| && calls[k - 1] == Call(true, true) && calls[k] == Call(true, false);
      assert cs[k] == ModemPowerOn && cs[k - 1] != ModemPowerOff;
    } else if wasAirplane && calls != [] && calls[0] == Call(true, false) {
      assert cs[0] == ModemPowerOn;
    } else {
      forall k | 0 <= k < |cs| && cs[k] == ModemPowerOn
        ensures k > 0 && cs[k - 1] == ModemPowerOff
      {
        assert k > 0 && calls[k - 1].airplane && calls[k] == Call(true, false);
        assert !calls[k - 1].on;
      }
    }
  }

  /** After a modem power-off, the next on-call outside airplane mode powers the modem on
      exactly when the call just before it was made in airplane mode; in particular it does
      unless an off-call outside airplane mode came between. */
  lemma PowerOffIsUndone(wasAirplane: bool, calls: seq<Call>, i: nat, j: nat)
    requires i < j < |calls| && Commands(wasAirplane, calls)[i] == ModemPowerOff
    requires calls[j] == Call(true, false)
    requires forall k :: i < k < j ==> calls[k] != Call(true, false)
    ensures Commands(wasAirplane, calls)[j] == ModemPowerOn <==> calls[j - 1].airplane
    ensures (forall k :: i < k < j ==> calls[k] != Call(false, false)) ==> Commands(wasAirplane, calls)[j] == ModemPowerOn
  {
    CommandAt(wasAirplane, calls, i);
    CommandAt(wasAirplane, calls, j);
    if !calls[j - 1].airplane {
      assert calls[j - 1] == Call(false, false);
    }
  }

  // ----- whether the modem is left off -----

  /** The modem after a run of commands: off from a power-off until a power-on. */
  function ModemOff(off: bool, cs: seq<Command>): bool
    decreases cs
  {
    if cs == [] then off
    else ModemOff(if cs[0] == ModemPowerOff then true else if cs[0] == ModemPowerOn then false else off, cs[1..])
  }

  function EbootRun(eboot: string, cs: seq<Command>): string
    decreases cs
  {
    if cs == [] then eboot else EbootRun(EbootAfter(eboot, cs[0]), cs[1..])
  }

  lemma {:induction false} EbootTellsModem(off: bool, eboot: string, cs: seq<Command>)
    requires off <==> eboot == "1"
    ensures ModemOff(off, cs) <==> EbootRun(eboot, cs) == "1"
    decreases cs
  {
    if cs != [] {
      var off' := if cs[0] == ModemPowerOff then true else if cs[0] == ModemPowerOn then false else off;
      assert "0" != "1";
      EbootTellsModem(off', EbootAfter(eboot, cs[0]), cs[1..]);
    }
  }

  /** An on-call at or after position `i` that leaves airplane mode. */
  ghost predicate LeavesByOnCall(wasAirplane: bool, calls: seq<Call>, i: nat) {
    exists k :: i <= k < |calls| && FlagBefore(wasAirplane, calls, k) && calls[k] == Call(true, false)
  }

  /** Some off-call was made in airplane mode, or the modem was off before, and no later on-call
      left airplane mode. */
  ghost predicate LeftOff(off: bool, wasAirplane: bool, calls: seq<Call>) {
    || (off && !LeavesByOnCall(wasAirplane, calls, 0))
    || exists i :: 0 <= i < |calls| && calls[i] == Call(false, true) && !LeavesByOnCall(wasAirplane, calls, i + 1)
  }

  /** After every run the modem is off exactly when it was left off. */
  lemma ModemOffExactly(off: bool, wasAirplane: bool, calls: seq<Call>)
    ensures ModemOff(off, Commands(wasAirplane, calls)) <==> LeftOff(off, wasAirplane, calls)
  {
    var cs := Commands(wasAirplane, calls);
    forall k: nat | k < |calls|
      ensures cs[k] == Sent(FlagBefore(wasAirplane, calls, k), calls[k])
    {
      CommandAt(wasAirplane, calls, k);
    }
    forall i: nat | i <= |calls|
      ensures LeavesByOnCall(wasAirplane, calls, i) <==> exists k :: i <= k < |cs| && cs[k] == ModemPowerOn
    {
      if k :| i <= k < |calls| && FlagBefore(wasAirplane, calls, k) && calls[k] == Call(true, false) {
        assert cs[k] == ModemPowerOn;
      }
    }
    LastModemCommand(off, cs);
    assert forall i :: 0 <= i < |calls| ==> (cs[i] == ModemPowerOff <==> calls[i] == Call(false, true));
  }

  /** The boot property after a run of calls, in terms of the calls alone. */
  lemma EbootExactly(eboot: string, wasAirplane: bool, calls: seq<Call>)
    ensures EbootRun(eboot, Commands(wasAirplane, calls)) == "1" <==> LeftOff(eboot == "1", wasAirplane, calls)
  {
    EbootTellsModem(eboot == "1", eboot, Commands(wasAirplane, calls));
    ModemOffExactly(eboot == "1", wasAirplane, calls);
  }

  /** Any run of calls on the wrapper: the commands it sends, and the stored boot property, which
      is "1" exactly when the calls left the modem off. */
  method SwitchAll(w: RadioWrapper, calls: seq<Call>) returns (sent: seq<Command>)
    modifies w
    ensures sent == Commands(old(w.Airplane()), calls)
    ensures w.Eboot() == "1" <==> LeftOff(old(w.Eboot()) == "1", old(w.Airplane()), calls)
  {
    ghost var eboot, was := w.Eboot(), w.Airplane();
    sent := SendAll(w, calls);
    EbootExactly(eboot, was, calls);
  }

  method SendAll(w: RadioWrapper, calls: seq<Call>) returns (sent: seq<Command>)
    modifies w
    ensures sent == Commands(old(w.Airplane()), calls)
    ensures w.Eboot() == EbootRun(old(w.Eboot()), sent)
    decreases |calls|
  {
    if calls == [] {
      sent := [];
    } else {
      var c := w.SetRadioPower(calls[0].on, calls[0].airplane);
      var rest := SendAll(w, calls[1..]);
      sent := [c] + rest;
      assert sent[1..] == rest;
    }
  }

  lemma {:induction false} LastModemCommand(off: bool, cs: seq<Command>)
    ensures ModemOff(off, cs) <==>
            || (off && forall k :: 0 <= k < |cs| ==> cs[k] != ModemPowerOn)
            || exists i :: 0 <= i < |cs| && cs[i] == ModemPowerOff && forall k :: i < k < |cs| ==> cs[k] != ModemPowerOn
    decreases cs
  {
    if cs != [] {
      var off', rest := if cs[0] == ModemPowerOff then true else if cs[0] == ModemPowerOn then false else off, cs[1..];
      LastModemCommand(off', rest);
      assert forall k :: 0 <= k < |rest| ==> rest[k] == cs[k + 1];
      assert forall k :: 0 < k < |cs| ==> cs[k] == rest[k - 1];
      if i :| 0 <= i < |rest| && rest[i] == ModemPowerOff && forall k :: i < k < |rest| ==> rest[k] != ModemPowerOn {
        assert cs[i + 1] == ModemPowerOff;
      }
      if i :| 0 <= i < |cs| && cs[i] == ModemPowerOff && forall k :: i < k < |cs| ==> cs[k] != ModemPowerOn {
        if i > 0 {
          assert rest[i - 1] == ModemPowerOff;
        }
      }
    }
  }

  /** In particular: power-off, leave airplane mode by an off-call, switch on; the
      last call sends no modem command and the modem stays off. */
  lemma ModemLeftOff()
    ensures var calls := [Call(false, true), Call(false, false), Call(true, false)];
            && Commands(false, calls) == [ModemPowerOff, RadioPower(false), RadioPower(true)]
            && ModemOff(false, Commands(false, calls))
  {
    var calls := [Call(false, true), Call(false, false), Call(true, false)];
    var cs := Commands(false, calls);
    forall k: nat | k < 3
      ensures cs[k] == Sent(FlagBefore(false, calls, k), calls[k])
    {
      CommandAt(false, calls, k);
    }
    assert cs == [ModemPowerOff, RadioPower(false), RadioPower(true)];
    assert cs[1..] == [RadioPower(false), RadioPower(true)];
    assert cs[1..][1..] == [RadioPower(true)];
    assert [RadioPower(true)][1..] == [];
    assert ModemOff(true, [RadioPower(true)]) == ModemOff(true, []);
    assert ModemOff(true, cs[1..]) == ModemOff(true, cs[1..][1..]);
  }
}
