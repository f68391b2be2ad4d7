/**
  The mutable emergency-number engine: the static state of MtkEccList, the system
  properties it reads and writes, and the dial request that uses it.
 */
module EccEngine {
  import opened Text
  import opened Numerals
  import opened SystemProperties
  import opened EccRules
  import opened EccNetwork
  import opened EccParse

  const NETWORK_LIST := "ril.ecc.service.category.list"
  const SIM1_LIST := "ril.ecclist"
  const SIM2_LIST := "ril.ecclist1"

  /** A Java call that returns or throws. */
  datatype Outcome<+T> = Returned(value: T) | Exception

  /** Requests sent to the radio by a dial. */
  datatype DialRequest =
    | SetEccServiceCategory(category: int)
    | EmergencyDial(address: string)
    | OrdinaryDial(dialled: Option<string>)

  /** What the check answers, as a function of the properties and the list only. */
  function CheckAnswer(props: map<string, string>, list: seq<EccEntry>, normalise: string -> string, number: Option<string>): Outcome<bool> {
    if number.None? then Returned(false)
    else
      match LoadNetwork(Property(props, NETWORK_LIST))
      case Threw(_) => Exception
      case Loaded(table) =>
        Returned(Decision(table, Property(props, SIM1_LIST), Property(props, SIM2_LIST), list, normalise(number.value)))
  }

  /** What a dial sends after a check with the given answer that left the given network table: the
      category may depend on the walk of the table. */
  ghost predicate DialOutcome(check: Outcome<bool>, network: map<string, int>, list: seq<EccEntry>, address: Option<string>, o: Outcome<seq<DialRequest>>) {
    match check
    case Exception => o == Exception
    case Returned(false) => o == Returned([OrdinaryDial(address)])
    case Returned(true) =>
      address.Some? &&
      exists c :: CategoryAnswer(network, list, address.value, c)
        && o == if c.None? then Exception else Returned([SetEccServiceCategory(c.value), EmergencyDial(address.value)])
  }

  /** What a dial may send, as the properties and the list say. */
  ghost predicate MayDial(props: map<string, string>, list: seq<EccEntry>, normalise: string -> string, address: Option<string>, o: Outcome<seq<DialRequest>>) {
    DialOutcome(CheckAnswer(props, list, normalise, address), LoadNetwork(Property(props, NETWORK_LIST)).table, list, address, o)
  }

  function RefreshedProperties(props: map<string, string>, list: seq<EccEntry>): map<string, string> {
    props[SIM1_LIST := Refreshed(Property(props, SIM1_LIST), list)]
         [SIM2_LIST := Refreshed(Property(props, SIM2_LIST), list)]
  }

  lemma PropertyNamesDiffer()
    ensures SIM1_LIST != SIM2_LIST && SIM1_LIST != NETWORK_LIST && SIM2_LIST != NETWORK_LIST
  {}

  lemma SortStep(list: seq<EccEntry>, i: nat, fixed: seq<string>, noSim: seq<string>)
    requires i < |list|
    ensures var e := list[i];
            && fixed + Fixed(list[i..]) == (if e.condition != ECC_NO_SIM then fixed + [e.ecc] else fixed) + Fixed(list[i + 1..])
            && noSim + NoSim(list[i..]) ==
               (if e.condition == ECC_NO_SIM && e.ecc != "" then noSim + [e.ecc] else noSim) + NoSim(list[i + 1..])
  {
    var e := list[i];
    assert list[i..][0] == e && list[i..][1..] == list[i + 1..];
    assert fixed + ([e.ecc] + Fixed(list[i + 1..])) == (fixed + [e.ecc]) + Fixed(list[i + 1..]);
    assert noSim + ([e.ecc] + NoSim(list[i + 1..])) == (noSim + [e.ecc]) + NoSim(list[i + 1..]);
  }

  class EccList {
    var customised: seq<EccEntry>
    var networkCategory: map<string, int>
    var props: map<string, string>
    const ctaSet: bool
    const normalise: string -> string

    constructor (events: seq<XmlEvent>, completes: bool, props: map<string, string>, normalise: string -> string)
      ensures this.props == props && this.normalise == normalise
      ensures ctaSet == (Property(props, "ro.mtk_cta_set") == "1")
      ensures customised == ParsedList(events, completes, ctaSet) && networkCategory == map[]
    {
      this.props := props;
      this.normalise := normalise;
      this.ctaSet := Property(props, "ro.mtk_cta_set") == "1";
      customised := [];
      networkCategory := map[];
      new;
      Parse(events, completes);
    }

    /** The parser may throw after any number of events; what was read so far is kept. */
    method Parse(events: seq<XmlEvent>, completes: bool)
      modifies this`customised
      ensures customised == ParsedList(events, completes, ctaSet)
    {
      customised := [];
      var record: Option<EccEntry> := None;
      var i := 0;
      while i < |events|
        invariant 0 <= i <= |events|
        invariant ParseRun(ParseState(record, customised), events[i..]) == ParseRun(ParseState(None, []), events)
      {
        assert events[i..][0] == events[i] && events[i..][1..] == events[i + 1..];
        match events[i] {
          case StartTag(name, attributes) =>
            if name == ECC_ENTRY_TAG {
              var r := ReadAttributes(attributes);
              record := Some(r);
            }
          case EndTag(name) =>
            if name == ECC_ENTRY_TAG && record.Some? {
              customised := customised + [record.value];
            }
          case OtherEvent =>
        }
        i := i + 1;
      }
      if completes && ctaSet {
        OverlayCta();
      }
    }

    static method ReadAttributes(attributes: seq<(string, string)>) returns (record: EccEntry)
      ensures record == WithAttributes(BLANK_ENTRY, attributes)
    {
      record := EccEntry("", "", "");
      for i := 0 to |attributes|
        invariant WithAttributes(record, attributes[i..]) == WithAttributes(BLANK_ENTRY, attributes)
      {
        var (name, value) := attributes[i];
        assert attributes[i..][1..] == attributes[i + 1..];
        if name == ECC_ATTR {
          record := record.(ecc := value);
        } else if name == CATEGORY_ATTR {
          record := record.(category := value);
        } else if name == CONDITION_ATTR {
          record := record.(condition := value);
        }
      }
    }

    method OverlayCta()
      modifies this`customised
      ensures customised == CtaOverlay(old(customised))
    {
      hide OverlayOne;
      var numbers := CTA_NUMBERS;
      assert numbers[0..] == numbers && numbers[|numbers|..] == [];
      for n := 0 to |numbers|
        invariant Overlay(customised, numbers[n..]) == Overlay(old(customised), numbers)
      {
        assert numbers[n..][0] == numbers[n] && numbers[n..][1..] == numbers[n + 1..];
        OverlayNumber(numbers[n]);
      }
    }

    /** The inner search: the first entry of the number is overwritten, or one is appended. */
    method OverlayNumber(number: string)
      modifies this`customised
      ensures customised == OverlayOne(old(customised), number)
    {
      var record := EccEntry(number, "0", ECC_FOR_MMI);
      var found, index := false, 0;
      while index < |customised| && !found
        invariant 0 <= index <= |customised|
        invariant forall j :: 0 <= j < index ==> customised[j].ecc != number
        invariant found ==> index < |customised| && customised[index].ecc == number
        decreases |customised| - index, !found
      {
        if customised[index].ecc == number {
          found := true;
        } else {
          index := index + 1;
        }
      }
      assert index == FirstIndex(customised, number);
      if found {
        customised := customised[index := record];
      } else {
        customised := customised + [record];
      }
    }

    method LoadNetworkTable() returns (threw: bool)
      modifies this`networkCategory
      ensures var load := LoadNetwork(Property(props, NETWORK_LIST));
              networkCategory == load.table && (threw <==> load.Threw?)
    {
      networkCategory := map[];
      threw := false;
      var list := Property(props, NETWORK_LIST);
      if list != "" {
        var pieces := Split(list, ';');
        for i := 0 to |pieces|
          invariant LoadPairs(pieces[i..], networkCategory) == LoadNetwork(list)
        {
          assert pieces[i..][1..] == pieces[i + 1..];
          if pieces[i] != "" {
            var fields := Split(pieces[i], ',');
            if |fields| == 2 {
              match ParseInt(fields[1]) {
                case None =>
                  threw := true;
                  return;
                case Some(category) =>
                  networkCategory := networkCategory[fields[0] := category];
              }
            }
          }
        }
      }
    }

    /** The hash table is walked in no particular order. */
    method NetworkLists(number: string) returns (found: bool)
      ensures found <==> NetworkMatch(networkCategory, number)
    {
      var keys := networkCategory.Keys;
      while keys != {}
        invariant keys <= networkCategory.Keys
        invariant forall k :: k in networkCategory && k !in keys ==> !Matches(k, number)
      {
        var k :| k in keys;
        if k == number || k + "+" == number {
          assert k in networkCategory && Matches(k, number);
          return true;
        }
        keys := keys - {k};
      }
      return false;
    }

    static method SimLists(numbers: string, number: string) returns (found: bool)
      ensures found <==> SimMatch(numbers, number)
    {
      hide Split;
      if numbers != "" {
        var pieces := Split(numbers, ',');
        for i := 0 to |pieces|
          invariant forall j :: 0 <= j < i ==> !Matches(pieces[j], number)
        {
          if pieces[i] == number || pieces[i] + "+" == number {
            assert pieces[i] in pieces && Matches(pieces[i], number);
            return true;
          }
        }
      }
      return false;
    }

    method CustomLists(simInserted: bool, number: string) returns (found: bool)
      ensures found <==> CustomMatch(customised, simInserted, number)
    {
      for i := 0 to |customised|
        invariant forall j :: 0 <= j < i ==>
          !((simInserted ==> customised[j].condition != ECC_NO_SIM) && Matches(customised[j].ecc, number))
      {
        var e := customised[i];
        if !simInserted || e.condition != ECC_NO_SIM {
          if e.ecc == number || e.ecc + "+" == number {
            assert e in customised;
            return true;
          }
        }
      }
      return false;
    }

    method IsEmergencyNumberExt(number: Option<string>) returns (answer: Outcome<bool>)
      modifies this`networkCategory
      ensures answer == CheckAnswer(props, customised, normalise, number)
      ensures networkCategory ==
              if number.None? then old(networkCategory) else LoadNetwork(Property(props, NETWORK_LIST)).table
    {
      if number.None? {
        return Returned(false);
      }
      var n := normalise(number.value);
      var threw := LoadNetworkTable();
      if threw {
        return Exception;
      }
      var found := NetworkLists(n);
      if found {
        return Returned(true);
      }
      var simInserted := false;
      var numbers := Property(props, SIM1_LIST);
      found := SimLists(numbers, n);
      if found {
        return Returned(true);
      }
      simInserted := numbers != "";
      numbers := Property(props, SIM2_LIST);
      found := SimLists(numbers, n);
      if found {
        return Returned(true);
      }
      simInserted := simInserted || numbers != "";
      found := CustomLists(simInserted, n);
      return Returned(found);
    }

    /** None stands for the exception of a customised category that is no number. */
    method GetServiceCategoryFromEcc(number: string) returns (category: Option<int>)
      ensures CategoryAnswer(networkCategory, customised, number, category)
    {
      var keys := networkCategory.Keys;
      while keys != {}
        invariant keys <= networkCategory.Keys
        invariant forall k :: k in networkCategory && k !in keys ==> !Matches(k, number)
      {
        var k :| k in keys;
        if k == number || k + "+" == number {
          assert k in networkCategory && Matches(k, number);
          return Some(networkCategory[k]);
        }
        keys := keys - {k};
      }
      for i := 0 to |customised|
        invariant CustomCategory(customised[i..], number) == CustomCategory(customised, number)
      {
        assert customised[i..][1..] == customised[i + 1..];
        if customised[i].ecc == number || customised[i].ecc + "+" == number {
          return ParseInt(customised[i].category);
        }
      }
      return Some(0);
    }

    method SortByCondition() returns (fixedList: seq<string>, fixedListNoSim: seq<string>)
      ensures fixedList == Fixed(customised) && fixedListNoSim == NoSim(customised)
    {
      assert Fixed([]) == [] && NoSim([]) == [];
      hide Fixed, NoSim;
      fixedList, fixedListNoSim := [], [];
      assert customised[0..] == customised && customised[|customised|..] == [];
      for i := 0 to |customised|
        invariant fixedList + Fixed(customised[i..]) == Fixed(customised)
        invariant fixedListNoSim + NoSim(customised[i..]) == NoSim(customised)
      {
        var e := customised[i];
        SortStep(customised, i, fixedList, fixedListNoSim);
        if e.condition != ECC_NO_SIM {
          fixedList := fixedList + [e.ecc];
        } else if e.ecc != "" {
          fixedListNoSim := fixedListNoSim + [e.ecc];
        }
      }
    }

    method UpdateEmergencyNumbersProperty()
      modifies this`props
      ensures props == RefreshedProperties(old(props), customised)
    {
      PropertyNamesDiffer();
      hide Join, RefreshedList, Fixed, NoSim;
      var fixedList, fixedListNoSim := SortByCondition();
      var written := Merge(Property(props, SIM1_LIST), fixedList, fixedListNoSim);
      props := props[SIM1_LIST := written];
      written := Merge(Property(props, SIM2_LIST), fixedList, fixedListNoSim);
      props := props[SIM2_LIST := written];
    }

    static method Merge(numbers: string, fixedList: seq<string>, fixedListNoSim: seq<string>) returns (written: string)
      ensures written == Join(RefreshedList(numbers, fixedList, fixedListNoSim), ',')
    {
      hide Numbers, RemoveAll, Join;
      var simList := ReadNumbers(numbers);
      simList := RemoveAll(simList, fixedList);
      simList := simList + fixedList;
      if numbers == "" {
        simList := RemoveAll(simList, fixedListNoSim);
        simList := simList + fixedListNoSim;
      }
      written := Join(simList, ',');
    }

    static method ReadNumbers(numbers: string) returns (simList: seq<string>)
      ensures simList == Numbers(numbers)
    {
      hide Split;
      simList := [];
      var pieces := Split(numbers, ',');
      assert pieces[0..] == pieces && pieces[|pieces|..] == [];
      for i := 0 to |pieces|
        invariant simList + NonEmpty(pieces[i..]) == NonEmpty(pieces)
      {
        assert pieces[i..][0] == pieces[i] && pieces[i..][1..] == pieces[i + 1..];
        if pieces[i] != "" {
          assert simList + ([pieces[i]] + NonEmpty(pieces[i + 1..])) == (simList + [pieces[i]]) + NonEmpty(pieces[i + 1..]);
          simList := simList + [pieces[i]];
        }
      }
    }

    method Dial(address: Option<string>) returns (sent: Outcome<seq<DialRequest>>)
      modifies this`networkCategory
      ensures MayDial(props, customised, normalise, address, sent)
      ensures networkCategory ==
              if address.None? then old(networkCategory) else LoadNetwork(Property(props, NETWORK_LIST)).table
    {
      var check := IsEmergencyNumberExt(address);
      match check {
        case Exception =>
          return Exception;
        case Returned(emergency) =>
          if !emergency {
            return Returned([OrdinaryDial(address)]);
          }
          var category := GetServiceCategoryFromEcc(address.value);
          if category.None? {
            return Exception;
          }
          return Returned([SetEccServiceCategory(category.value), EmergencyDial(address.value)]);
      }
    }
  }

  // ----- the CTA guarantee -----

  lemma DeterminedDial(network: map<string, int>, list: seq<EccEntry>, number: string, category: int)
    requires forall c :: CategoryAnswer(network, list, number, c) <==> c == Some(category)
    ensures forall o :: DialOutcome(Returned(true), network, list, Some(number), o) <==>
                        o == Returned([SetEccServiceCategory(category), EmergencyDial(number)])
  {
    assert CategoryAnswer(network, list, number, Some(category));
  }

  /** With the CTA flag set and a parse that completes, in every state of the properties: the check
      of a CTA number in network form throws exactly when some category of the network list is no
      number, and says yes otherwise. */
  lemma CtaCheck(events: seq<XmlEvent>, number: string, props: map<string, string>, normalise: string -> string)
    requires number in CTA_NUMBERS && normalise(number) == number
    ensures CheckAnswer(props, ParsedList(events, true, true), normalise, Some(number)) ==
            if Malformed(Pairs(Split(Property(props, NETWORK_LIST), ';'))) then Exception else Returned(true)
  {
    var load := LoadNetwork(Property(props, NETWORK_LIST));
    LastPairWins(Property(props, NETWORK_LIST), number);
    CtaDecision(events, number, load.table, Property(props, SIM1_LIST), Property(props, SIM2_LIST));
  }

  /** For instance it throws, on every CTA number, beside the network list "911,x". */
  lemma CtaCheckThrows(events: seq<XmlEvent>, number: string, normalise: string -> string)
    requires number in CTA_NUMBERS && normalise(number) == number
    ensures CheckAnswer(map[NETWORK_LIST := "911,x"], ParsedList(events, true, true), normalise, Some(number)) == Exception
  {
    hide Malformed, ParsedList, CheckAnswer;
    MalformedExample();
    CtaCheck(events, number, map[NETWORK_LIST := "911,x"], normalise);
  }

  /** Where the check does not throw, the dial of a CTA number is an emergency dial, with the category
      of the number's last pair in the network list and 0 when it has none. */
  lemma CtaDial(events: seq<XmlEvent>, number: string, props: map<string, string>, normalise: string -> string)
    requires number in CTA_NUMBERS && normalise(number) == number
    requires !Malformed(Pairs(Split(Property(props, NETWORK_LIST), ';')))
    ensures var last := LastCategory(Pairs(Split(Property(props, NETWORK_LIST), ';')), number);
            && (last.Some? ==> ParseInt(last.value).Some?)
            && var category := if last.Some? then ParseInt(last.value).value else 0;
               forall o :: MayDial(props, ParsedList(events, true, true), normalise, Some(number), o) <==>
                           o == Returned([SetEccServiceCategory(category), EmergencyDial(number)])
  {
    var list, table := ParsedList(events, true, true), LoadNetwork(Property(props, NETWORK_LIST)).table;
    LastPairWins(Property(props, NETWORK_LIST), number);
    CtaCheck(events, number, props, normalise);
    assert forall c :: CategoryAnswer(table, list, number, c) <==> c == Some(if number in table then table[number] else 0) by {
      CtaDecision(events, number, table, "", "");
    }
    DeterminedDial(table, list, number, if number in table then table[number] else 0);
  }
}
