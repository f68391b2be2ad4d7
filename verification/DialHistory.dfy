/**
  Whole histories of the engine: checks, dials, periodic refreshes and property writes by
  the vendor's radio layer, in any order. The network table is shared between calls; these
  lemmas say what of it can leak from one call into the next.
 */
module DialHistory {
  import opened Text
  import opened Numerals
  import opened SystemProperties
  import opened EccRules
  import opened EccNetwork
  import opened EccRefresh
  import opened EccFinality
  import opened EccParse
  import opened EccEngine

  /** The customised list and the normaliser never change after start-up. */
  datatype Setup = Setup(list: seq<EccEntry>, normalise: string -> string)

  datatype Engine = Engine(network: map<string, int>, props: map<string, string>)

  datatype Call =
    | Check(number: Option<string>)
    | Dial(address: Option<string>)
    | Refresh
    | Write(key: string, value: string)

  function Step(e: Engine, c: Call, s: Setup): Engine {
    match c
    case Check(n) => AfterCheck(e, n)
    case Dial(a) => AfterCheck(e, a)
    case Refresh => e.(props := RefreshedProperties(e.props, s.list))
    case Write(key, value) => e.(props := e.props[key := value])
  }

  function AfterCheck(e: Engine, number: Option<string>): Engine {
    if number.None? then e else e.(network := LoadNetwork(Property(e.props, NETWORK_LIST)).table)
  }

  function Run(e: Engine, history: seq<Call>, s: Setup): Engine
    decreases history
  {
    if history == [] then e else Run(Step(e, history[0], s), history[1..], s)
  }

  /** A dial made in state `e`: the check first, then the category from whatever table the
      check left behind. */
  ghost predicate MaySend(e: Engine, s: Setup, address: Option<string>, o: Outcome<seq<DialRequest>>) {
    DialOutcome(CheckAnswer(e.props, s.list, s.normalise, address), AfterCheck(e, address).network, s.list, address, o)
  }

  /** The history without the calls that only read properties. */
  function Writes(history: seq<Call>): seq<Call> {
    if history == [] then []
    else (if history[0].Refresh? || history[0].Write? then [history[0]] else []) + Writes(history[1..])
  }

  lemma {:induction false} PropertiesFromWrites(e: Engine, f: Engine, history: seq<Call>, s: Setup)
    requires e.props == f.props
    ensures Run(e, history, s).props == Run(f, Writes(history), s).props
    decreases history
  {
    if history != [] {
      var c, rest := history[0], history[1..];
      if c.Refresh? || c.Write? {
        assert Writes(history) == [c] + Writes(rest);
        assert Writes(history)[1..] == Writes(rest);
        PropertiesFromWrites(Step(e, c, s), Step(f, c, s), rest, s);
      } else {
        assert Writes(history) == Writes(rest);
        PropertiesFromWrites(Step(e, c, s), f, rest, s);
      }
    }
  }

  /** Earlier checks and dials leave no trace in a dial, whatever table they left behind and
      whatever table there was before. */
  lemma HistoryIndependence(e: Engine, f: Engine, history: seq<Call>, s: Setup, address: Option<string>, o: Outcome<seq<DialRequest>>)
    requires e.props == f.props
    ensures MaySend(Run(e, history, s), s, address, o) <==> MaySend(Run(f, Writes(history), s), s, address, o)
    ensures MaySend(Run(e, history, s), s, address, o) <==>
            MayDial(Run(e, history, s).props, s.list, s.normalise, address, o)
  {
    PropertiesFromWrites(e, f, history, s);
  }

  /** A network-listed number in network form, without a trailing plus, on a well-formed
      network list: the dial is an emergency dial with the category of the number's last
      pair, whatever happened before. */
  lemma NetworkListedDial(e: Engine, history: seq<Call>, s: Setup, a: string, o: Outcome<seq<DialRequest>>)
    requires s.normalise(a) == a && (a == "" || a[|a| - 1] != '+')
    requires var pairs := Pairs(Split(Property(Run(e, history, s).props, NETWORK_LIST), ';'));
             !Malformed(pairs) && LastCategory(pairs, a).Some?
    ensures var pairs := Pairs(Split(Property(Run(e, history, s).props, NETWORK_LIST), ';'));
            && ParseInt(LastCategory(pairs, a).value).Some?
            && (MaySend(Run(e, history, s), s, Some(a), o) <==>
                o == Returned([SetEccServiceCategory(ParseInt(LastCategory(pairs, a).value).value), EmergencyDial(a)]))
  {
    var now := Run(e, history, s);
    var property := Property(now.props, NETWORK_LIST);
    LastPairWins(property, a);
    var table := LoadNetwork(property).table;
    PlainNumber(table, s.list, a);
  }

  /** On a well-formed network list the dial of an emergency number is determined exactly when
      its category is: hash order shows through only for an ambiguous number. */
  lemma DialDetermined(e: Engine, s: Setup, a: string)
    requires CheckAnswer(e.props, s.list, s.normalise, Some(a)) == Returned(true)
    ensures var table := LoadNetwork(Property(e.props, NETWORK_LIST)).table;
            (forall o, p :: MaySend(e, s, Some(a), o) && MaySend(e, s, Some(a), p) ==> o == p) <==>
            !Ambiguous(table, a)
  {
    hide LoadNetwork, Decision;
    var table := LoadNetwork(Property(e.props, NETWORK_LIST)).table;
    CategoryDetermined(table, s.list, a);
    if Ambiguous(table, a) {
      var k := a[..|a| - 1];
      assert a == k + "+";
      assert Matches(a, a) && Matches(k, a);
      var o := Returned([SetEccServiceCategory(table[a]), EmergencyDial(a)]);
      var p := Returned([SetEccServiceCategory(table[k]), EmergencyDial(a)]);
      assert CategoryAnswer(table, s.list, a, Some(table[a]));
      assert CategoryAnswer(table, s.list, a, Some(table[k]));
      assert MaySend(e, s, Some(a), o) && MaySend(e, s, Some(a), p);
      assert o.value[0] != p.value[0];
    }
  }

  // ----- periodic refreshes -----

  function Refreshes(history: seq<Call>): nat {
    if history == [] then 0 else (if history[0].Refresh? then 1 else 0) + Refreshes(history[1..])
  }

  predicate IsSimList(key: string) {
    key == SIM1_LIST || key == SIM2_LIST
  }

  lemma StepProperty(e: Engine, c: Call, s: Setup, key: string)
    requires !c.Write?
    ensures Property(Step(e, c, s).props, key) ==
            if c.Refresh? && IsSimList(key) then Refreshed(Property(e.props, key), s.list) else Property(e.props, key)
  {
    PropertyNamesDiffer();
  }

  lemma {:induction false} OnlyRefreshesWrite(e: Engine, history: seq<Call>, s: Setup, key: string)
    requires forall c <- history :: !c.Write?
    ensures Property(Run(e, history, s).props, key) ==
            RefreshedTimes(if IsSimList(key) then Refreshes(history) else 0, Property(e.props, key), s.list)
    decreases history
  {
    hide Step, Refreshed, Property, IsSimList;
    if history != [] {
      var c, rest := history[0], history[1..];
      StepProperty(e, c, s, key);
      OnlyRefreshesWrite(Step(e, c, s), rest, s, key);
    }
  }

  lemma ListsAfter(e: Engine, history: seq<Call>, s: Setup)
    requires forall c <- history :: !c.Write?
    ensures var now, k := Run(e, history, s), Refreshes(history);
            && Property(now.props, NETWORK_LIST) == Property(e.props, NETWORK_LIST)
            && Property(now.props, SIM1_LIST) == RefreshedTimes(k, Property(e.props, SIM1_LIST), s.list)
            && Property(now.props, SIM2_LIST) == RefreshedTimes(k, Property(e.props, SIM2_LIST), s.list)
  {
    PropertyNamesDiffer();
    OnlyRefreshesWrite(e, history, s, NETWORK_LIST);
    OnlyRefreshesWrite(e, history, s, SIM1_LIST);
    OnlyRefreshesWrite(e, history, s, SIM2_LIST);
  }

  /** The check reads nothing but the three lists. */
  lemma CheckReads(p: map<string, string>, q: map<string, string>, s: Setup, number: string)
    requires Property(p, NETWORK_LIST) == Property(q, NETWORK_LIST)
    requires var table, n := LoadNetwork(Property(p, NETWORK_LIST)).table, s.normalise(number);
             Decision(table, Property(p, SIM1_LIST), Property(p, SIM2_LIST), s.list, n) ==
             Decision(table, Property(q, SIM1_LIST), Property(q, SIM2_LIST), s.list, n)
    ensures CheckAnswer(p, s.list, s.normalise, Some(number)) == CheckAnswer(q, s.list, s.normalise, Some(number))
  {}

  /** On a list that does not flicker, any two histories without writes by the vendor leave the same
      answer to a number, however many refreshes, checks and dials they hold, once each has refreshed
      both properties three times; two times are enough unless the number reads as "" or "+". */
  lemma RoutingFinal(e: Engine, first: seq<Call>, second: seq<Call>, s: Setup, number: string)
    requires (forall c <- first :: !c.Write?) && (forall c <- second :: !c.Write?) && !Flickers(s.list)
    requires var enough := if s.normalise(number) == "" || s.normalise(number) == "+" then 3 else 2;
             Refreshes(first) >= enough && Refreshes(second) >= enough
    ensures CheckAnswer(Run(e, first, s).props, s.list, s.normalise, Some(number)) ==
            CheckAnswer(Run(e, second, s).props, s.list, s.normalise, Some(number))
  {
    hide Run, Flickers, RefreshedTimes, Refreshes, Decision, CheckAnswer, LoadNetwork;
    ListsAfter(e, first, s);
    ListsAfter(e, second, s);
    var sim1, sim2, n := Property(e.props, SIM1_LIST), Property(e.props, SIM2_LIST), s.normalise(number);
    var table := LoadNetwork(Property(e.props, NETWORK_LIST)).table;
    if n == "" || n == "+" {
      DecisionFinalAfterThree(Refreshes(first), table, sim1, sim2, s.list, n);
      DecisionFinalAfterThree(Refreshes(second), table, sim1, sim2, s.list, n);
    } else {
      DecisionFinalAfterTwo(Refreshes(first), table, sim1, sim2, s.list, n);
      DecisionFinalAfterTwo(Refreshes(second), table, sim1, sim2, s.list, n);
    }
    CheckReads(Run(e, first, s).props, Run(e, second, s).props, s, number);
  }

  lemma {:induction false} FixedMember(list: seq<EccEntry>, i: nat)
    requires i < |list| && list[i].condition != ECC_NO_SIM
    ensures list[i].ecc in Fixed(list)
  {
    if i > 0 {
      FixedMember(list[1..], i - 1);
    }
  }

  lemma CtaFixed(events: seq<XmlEvent>)
    ensures !Blank(Fixed(ParsedList(events, true, true)))
  {
    hide ParseRun, Overlay, Fixed;
    var parsed := ParseRun(ParseState(None, []), events).list;
    var i := CtaListed(parsed, "120");
    FixedMember(CtaOverlay(parsed), i);
  }

  /** With the CTA flag set and a parse that completes the CTA numbers are always there to write: one
      refresh already settles the answer to every number but "" and "+", and two the answer to
      every number. */
  lemma CtaSettles(events: seq<XmlEvent>, k: nat, network: map<string, int>, sim1: string, sim2: string, n: string)
    requires k >= if n == "" || n == "+" then 2 else 1
    ensures SameAnswer(k, if n == "" || n == "+" then 2 else 1, network, sim1, sim2, ParsedList(events, true, true), n)
  {
    hide ParsedList, Decision, RefreshedTimes, Blank;
    CtaFixed(events);
    FixedSettles(k, network, sim1, sim2, ParsedList(events, true, true), n);
  }

  // ----- histories on the engine itself -----

  /** The state of the engine object as a value. */
  ghost function StateOf(engine: EccList): Engine
    reads engine
  {
    Engine(engine.networkCategory, engine.props)
  }

  ghost function SetupOf(engine: EccList): Setup
    reads engine
  {
    Setup(engine.customised, engine.normalise)
  }

  method Perform(engine: EccList, c: Call)
    modifies engine
    ensures StateOf(engine) == Step(old(StateOf(engine)), c, old(SetupOf(engine)))
    ensures SetupOf(engine) == old(SetupOf(engine))
  {
    match c {
      case Check(number) =>
        var _ := engine.IsEmergencyNumberExt(number);
      case Dial(address) =>
        var _ := engine.Dial(address);
      case Refresh =>
        engine.UpdateEmergencyNumbersProperty();
      case Write(key, value) =>
        engine.props := engine.props[key := value];
    }
  }

  /** A history carried out on the engine object leaves it in the state the history describes. */
  method PerformAll(engine: EccList, history: seq<Call>)
    modifies engine
    ensures StateOf(engine) == Run(old(StateOf(engine)), history, old(SetupOf(engine)))
    ensures SetupOf(engine) == old(SetupOf(engine))
    decreases |history|
  {
    hide Step;
    if history != [] {
      Perform(engine, history[0]);
      PerformAll(engine, history[1..]);
    }
  }

  /** A dial after any history, both carried out on the engine object, sends what the properties left
      by the history's writes and refreshes allow. */
  method DialAfter(engine: EccList, history: seq<Call>, address: Option<string>) returns (sent: Outcome<seq<DialRequest>>)
    modifies engine
    ensures MaySend(Run(old(StateOf(engine)), Writes(history), old(SetupOf(engine))), old(SetupOf(engine)), address, sent)
  {
    ghost var e, s := StateOf(engine), SetupOf(engine);
    PerformAll(engine, history);
    sent := engine.Dial(address);
    HistoryIndependence(e, e, history, s, address, sent);
  }
}
