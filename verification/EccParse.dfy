/**
  Building the customised list: the event loop over ecc_list.xml and the overlay of the
  four CTA numbers.
 */
module EccParse {
  import opened Text
  import opened Numerals
  import opened EccRules
  import opened EccNetwork

  const ECC_ENTRY_TAG := "EccEntry"
  const ECC_ATTR := "Ecc"
  const CATEGORY_ATTR := "Category"
  const CONDITION_ATTR := "Condition"
  const CTA_NUMBERS := ["120", "122", "110", "119"]

  // ----- the event loop -----

  datatype XmlEvent =
    | StartTag(name: string, attributes: seq<(string, string)>)
    | EndTag(name: string)
    | OtherEvent

  function WithAttribute(r: EccEntry, a: (string, string)): EccEntry {
    if a.0 == ECC_ATTR then r.(ecc := a.1)
    else if a.0 == CATEGORY_ATTR then r.(category := a.1)
    else if a.0 == CONDITION_ATTR then r.(condition := a.1)
    else r
  }

  function WithAttributes(r: EccEntry, attributes: seq<(string, string)>): EccEntry
    decreases attributes
  {
    if attributes == [] then r else WithAttributes(WithAttribute(r, attributes[0]), attributes[1..])
  }

  const BLANK_ENTRY := EccEntry("", "", "")

  /** The value of the last attribute with this name, "" when there is none. */
  function LastValue(attributes: seq<(string, string)>, name: string): string {
    if attributes == [] then ""
    else if attributes[|attributes| - 1].0 == name then attributes[|attributes| - 1].1
    else LastValue(attributes[..|attributes| - 1], name)
  }

  /** The entry an element describes, each field by the name of its attribute. */
  function EntryOf(attributes: seq<(string, string)>): EccEntry {
    EccEntry(LastValue(attributes, "Ecc"), LastValue(attributes, "Category"), LastValue(attributes, "Condition"))
  }

  lemma {:induction false} AttributesFromBack(r: EccEntry, attributes: seq<(string, string)>)
    requires attributes != []
    ensures var n := |attributes| - 1;
            WithAttributes(r, attributes) == WithAttribute(WithAttributes(r, attributes[..n]), attributes[n])
    decreases attributes
  {
    hide WithAttribute;
    var n := |attributes| - 1;
    if n == 0 {
      assert attributes[..0] == [] && attributes[1..] == [];
    } else {
      AttributesFromBack(WithAttribute(r, attributes[0]), attributes[1..]);
      assert attributes[1..][..n - 1] == attributes[..n][1..] && attributes[..n][0] == attributes[0];
    }
  }

  /** For every attribute list the number, the category and the condition read are the values of the
      last attributes named "Ecc", "Category" and "Condition", and empty without one. */
  lemma {:induction false} AttributesExactly(attributes: seq<(string, string)>)
    ensures WithAttributes(BLANK_ENTRY, attributes) == EntryOf(attributes)
    decreases |attributes|
  {
    if attributes != [] {
      var n := |attributes| - 1;
      AttributesFromBack(BLANK_ENTRY, attributes);
      AttributesExactly(attributes[..n]);
      AttributeNamesDiffer();
    }
  }

  lemma AttributeNamesDiffer()
    ensures ECC_ATTR == "Ecc" && CATEGORY_ATTR == "Category" && CONDITION_ATTR == "Condition"
    ensures "Ecc" != "Category" && "Ecc" != "Condition" && "Category" != "Condition"
  {}

  /** The record under construction survives its end tag, as in the source. */
  datatype ParseState = ParseState(record: Option<EccEntry>, list: seq<EccEntry>)

  function ParseStep(st: ParseState, ev: XmlEvent): ParseState {
    match ev
    case StartTag(name, attributes) =>
      if name == ECC_ENTRY_TAG then st.(record := Some(WithAttributes(BLANK_ENTRY, attributes))) else st
    case EndTag(name) =>
      if name == ECC_ENTRY_TAG && st.record.Some? then st.(list := st.list + [st.record.value]) else st
    case OtherEvent => st
  }

  function ParseRun(st: ParseState, events: seq<XmlEvent>): ParseState
    decreases events
  {
    if events == [] then st else ParseRun(ParseStep(st, events[0]), events[1..])
  }

  lemma {:induction false} ParseRunOfConcat(st: ParseState, a: seq<XmlEvent>, b: seq<XmlEvent>)
    ensures ParseRun(st, a + b) == ParseRun(ParseRun(st, a), b)
    decreases a
  {
    if a == [] {
      assert a + b == b;
    } else {
      assert (a + b)[1..] == a[1..] + b;
      ParseRunOfConcat(ParseStep(st, a[0]), a[1..], b);
    }
  }

  // ----- documents -----

  datatype Node = Element(name: string, attributes: seq<(string, string)>, children: seq<Node>) | Characters

  /** The events a pull parser reports for a sequence of nodes. */
  function Events(nodes: seq<Node>): seq<XmlEvent> {
    if nodes == [] then []
    else
      (match nodes[0]
       case Element(name, attributes, children) => [StartTag(name, attributes)] + Events(children) + [EndTag(name)]
       case Characters => [OtherEvent])
      + Events(nodes[1..])
  }

  /** The entries of a document as its entry elements describe them, in document order. */
  function Entries(nodes: seq<Node>): seq<EccEntry> {
    if nodes == [] then []
    else
      (match nodes[0]
       case Element(name, attributes, children) =>
         if name == ECC_ENTRY_TAG then [EntryOf(attributes)] else Entries(children)
       case Characters => [])
      + Entries(nodes[1..])
  }

  predicate NoEntry(nodes: seq<Node>) {
    nodes != [] ==>
      && (nodes[0].Element? ==> nodes[0].name != ECC_ENTRY_TAG && NoEntry(nodes[0].children))
      && NoEntry(nodes[1..])
  }

  /** No entry element lies inside another one. */
  predicate FlatDocument(nodes: seq<Node>) {
    nodes != [] ==>
      && (nodes[0].Element? ==>
            if nodes[0].name == ECC_ENTRY_TAG then NoEntry(nodes[0].children) else FlatDocument(nodes[0].children))
      && FlatDocument(nodes[1..])
  }

  lemma {:induction false} ElementEvents(st: ParseState, nodes: seq<Node>)
    requires nodes != [] && nodes[0].Element?
    ensures var e := nodes[0];
            ParseRun(st, Events(nodes)) ==
            ParseRun(ParseStep(ParseRun(ParseStep(st, StartTag(e.name, e.attributes)), Events(e.children)), EndTag(e.name)),
                     Events(nodes[1..]))
  {
    var e := nodes[0];
    var start, inner, end := [StartTag(e.name, e.attributes)], Events(e.children), [EndTag(e.name)];
    ParseRunOfConcat(st, start + inner + end, Events(nodes[1..]));
    ParseRunOfConcat(st, start + inner, end);
    ParseRunOfConcat(st, start, inner);
    assert start[1..] == [] && end[1..] == [];
    assert forall s: ParseState :: ParseRun(s, start) == ParseStep(s, start[0]) by {
      assert forall s: ParseState :: ParseRun(s, start) == ParseRun(ParseStep(s, start[0]), []);
    }
    assert forall s: ParseState :: ParseRun(s, end) == ParseStep(s, end[0]) by {
      assert forall s: ParseState :: ParseRun(s, end) == ParseRun(ParseStep(s, end[0]), []);
    }
  }

  lemma OtherEvents(st: ParseState, nodes: seq<Node>)
    requires nodes != [] && nodes[0].Characters?
    ensures ParseRun(st, Events(nodes)) == ParseRun(st, Events(nodes[1..]))
  {
    ParseRunOfConcat(st, [OtherEvent], Events(nodes[1..]));
    assert [OtherEvent][1..] == [];
    assert ParseRun(st, [OtherEvent]) == ParseRun(ParseStep(st, OtherEvent), []);
  }

  lemma {:induction false} NoEntryChangesNothing(st: ParseState, nodes: seq<Node>)
    requires NoEntry(nodes)
    ensures ParseRun(st, Events(nodes)) == st
  {
    if nodes != [] {
      if nodes[0].Element? {
        ElementEvents(st, nodes);
        NoEntryChangesNothing(st, nodes[0].children);
      } else {
        OtherEvents(st, nodes);
      }
      NoEntryChangesNothing(st, nodes[1..]);
    }
  }

  lemma {:induction false} ParsesDocument(st: ParseState, nodes: seq<Node>)
    requires FlatDocument(nodes)
    ensures ParseRun(st, Events(nodes)).list == st.list + Entries(nodes)
    decreases nodes
  {
    if nodes != [] {
      var st1 := st;
      if nodes[0].Element? {
        var e := nodes[0];
        ElementEvents(st, nodes);
        var inside := ParseStep(st, StartTag(e.name, e.attributes));
        if e.name == ECC_ENTRY_TAG {
          AttributesExactly(e.attributes);
          NoEntryChangesNothing(inside, e.children);
        } else {
          ParsesDocument(inside, e.children);
        }
        st1 := ParseStep(ParseRun(inside, Events(e.children)), EndTag(e.name));
      } else {
        OtherEvents(st, nodes);
      }
      ParsesDocument(st1, nodes[1..]);
    }
  }

  /** Every entry element of a document, nested ones included. */
  function EntryElements(nodes: seq<Node>): nat {
    if nodes == [] then 0
    else
      (match nodes[0]
       case Element(name, _, children) => (if name == ECC_ENTRY_TAG then 1 else 0) + EntryElements(children)
       case Characters => 0)
      + EntryElements(nodes[1..])
  }

  /** The loop appends one record for each entry element. */
  lemma {:induction false} ParsedLength(st: ParseState, nodes: seq<Node>)
    ensures var end := ParseRun(st, Events(nodes));
            && |end.list| == |st.list| + EntryElements(nodes)
            && (st.record.Some? ==> end.record.Some?)
    decreases nodes
  {
    if nodes != [] {
      var st1 := st;
      if nodes[0].Element? {
        var e := nodes[0];
        ElementEvents(st, nodes);
        var inside := ParseStep(st, StartTag(e.name, e.attributes));
        ParsedLength(inside, e.children);
        st1 := ParseStep(ParseRun(inside, Events(e.children)), EndTag(e.name));
      } else {
        OtherEvents(st, nodes);
      }
      ParsedLength(st1, nodes[1..]);
    }
  }

  lemma {:induction false} FlatByCount(nodes: seq<Node>)
    ensures NoEntry(nodes) <==> EntryElements(nodes) == 0
    ensures |Entries(nodes)| <= EntryElements(nodes)
    ensures |Entries(nodes)| == EntryElements(nodes) <==> FlatDocument(nodes)
  {
    if nodes != [] {
      if nodes[0].Element? {
        FlatByCount(nodes[0].children);
      }
      FlatByCount(nodes[1..]);
    }
  }

  /** The loop appends exactly the entries of the document, in document order, if and only if no
      entry element lies inside another. */
  lemma ParsesExactly(st: ParseState, nodes: seq<Node>)
    ensures ParseRun(st, Events(nodes)).list == st.list + Entries(nodes) <==> FlatDocument(nodes)
  {
    ParsedLength(st, nodes);
    FlatByCount(nodes);
    if FlatDocument(nodes) {
      ParsesDocument(st, nodes);
    }
  }

  /** An entry inside another takes the outer one's place: the outer attributes are lost. */
  lemma NestedEntryLosesOuter()
    ensures var doc := [Element(ECC_ENTRY_TAG, [(ECC_ATTR, "1")], [Element(ECC_ENTRY_TAG, [(ECC_ATTR, "2")], [])])];
            ParseRun(ParseState(None, []), Events(doc)).list == [EccEntry("2", "", ""), EccEntry("2", "", "")]
  {
    var inner := Element(ECC_ENTRY_TAG, [(ECC_ATTR, "2")], []);
    var outer := Element(ECC_ENTRY_TAG, [(ECC_ATTR, "1")], [inner]);
    var st := ParseState(None, []);
    var one := WithAttributes(BLANK_ENTRY, [(ECC_ATTR, "1")]);
    var two := WithAttributes(BLANK_ENTRY, [(ECC_ATTR, "2")]);
    assert [(ECC_ATTR, "2")][1..] == [];
    assert two == WithAttributes(WithAttribute(BLANK_ENTRY, (ECC_ATTR, "2")), []) == EccEntry("2", "", "");
    ElementEvents(st, [outer]);
    ElementEvents(ParseState(Some(one), []), [inner]);
    assert [outer][1..] == [] && [inner][1..] == [];
    assert Events([]) == [];
  }

  // ----- the CTA overlay -----

  function CtaEntry(number: string): EccEntry {
    EccEntry(number, "0", ECC_FOR_MMI)
  }

  /** Position of the first entry for `number`, the length of the list when there is none. */
  function FirstIndex(list: seq<EccEntry>, number: string): (i: nat)
    ensures i <= |list|
    ensures i < |list| ==> list[i].ecc == number
    ensures forall j :: 0 <= j < i ==> list[j].ecc != number
  {
    if list == [] || list[0].ecc == number then 0 else 1 + FirstIndex(list[1..], number)
  }

  function OverlayOne(list: seq<EccEntry>, number: string): seq<EccEntry> {
    var i := FirstIndex(list, number);
    if i < |list| then list[i := CtaEntry(number)] else list + [CtaEntry(number)]
  }

  function Overlay(list: seq<EccEntry>, numbers: seq<string>): seq<EccEntry>
    decreases numbers
  {
    if numbers == [] then list else Overlay(OverlayOne(list, numbers[0]), numbers[1..])
  }

  predicate Lists(list: seq<EccEntry>, number: string) {
    exists e <- list :: e.ecc == number
  }

  /** The numbers the list lacks, in the order of `numbers`. */
  function Missing(list: seq<EccEntry>, numbers: seq<string>): seq<string> {
    if numbers == [] then []
    else (if Lists(list, numbers[0]) then [] else [numbers[0]]) + Missing(list, numbers[1..])
  }

  function CtaEntries(numbers: seq<string>): seq<EccEntry> {
    if numbers == [] then [] else [CtaEntry(numbers[0])] + CtaEntries(numbers[1..])
  }

  lemma {:induction false} CtaEntriesAt(numbers: seq<string>)
    ensures |CtaEntries(numbers)| == |numbers|
    ensures forall i :: 0 <= i < |numbers| ==> CtaEntries(numbers)[i] == CtaEntry(numbers[i])
  {
    if numbers != [] {
      CtaEntriesAt(numbers[1..]);
    }
  }

  predicate FirstOf(list: seq<EccEntry>, i: nat)
    requires i < |list|
  {
    forall j :: 0 <= j < i ==> list[j].ecc != list[i].ecc
  }

  lemma MissingAfterOne(list: seq<EccEntry>, number: string, numbers: seq<string>)
    requires number !in numbers
    ensures Missing(OverlayOne(list, number), numbers) == Missing(list, numbers)
  {
    if numbers != [] {
      MissingAfterOne(list, number, numbers[1..]);
      assert numbers[0] in numbers;
      var l1 := OverlayOne(list, number);
      if Lists(list, numbers[0]) {
        var e :| e in list && e.ecc == numbers[0];
        var j :| 0 <= j < |list| && list[j] == e;
        assert l1[j] == e;
      }
      if Lists(l1, numbers[0]) {
        var e :| e in l1 && e.ecc == numbers[0];
        var j :| 0 <= j < |l1| && l1[j] == e;
        assert list[j] == e;
      }
    }
  }

  lemma OverlayOneExactly(list: seq<EccEntry>, number: string)
    ensures var l1 := OverlayOne(list, number);
            && |l1| == (if Lists(list, number) then |list| else |list| + 1)
            && (!Lists(list, number) ==> l1[|list|] == CtaEntry(number))
            && forall i :: 0 <= i < |list| ==>
                 && l1[i].ecc == list[i].ecc
                 && l1[i] == if list[i].ecc == number && FirstOf(list, i) then CtaEntry(number) else list[i]
  {}

  /** The overlay on the positions of the old list: the first entry of each number is
      overwritten in place, every other entry keeps its position and value. */
  lemma {:induction false} OverlayPrefix(list: seq<EccEntry>, numbers: seq<string>)
    requires NoDuplicates(numbers)
    ensures |Overlay(list, numbers)| >= |list|
    ensures forall i :: 0 <= i < |list| ==>
              Overlay(list, numbers)[i] ==
              if list[i].ecc in numbers && FirstOf(list, i) then CtaEntry(list[i].ecc) else list[i]
    decreases numbers
  {
    if numbers != [] {
      var number, rest := numbers[0], numbers[1..];
      assert numbers == [number] + rest;
      var l1 := OverlayOne(list, number);
      OverlayOneExactly(list, number);
      OverlayPrefix(l1, rest);
      forall i | 0 <= i < |list|
        ensures Overlay(l1, rest)[i] ==
                if list[i].ecc in numbers && FirstOf(list, i) then CtaEntry(list[i].ecc) else list[i]
      {
        assert FirstOf(l1, i) <==> FirstOf(list, i);
      }
    }
  }

  /** The overlay past the old list: the missing numbers, in order. */
  lemma {:induction false} OverlaySuffix(list: seq<EccEntry>, numbers: seq<string>)
    requires NoDuplicates(numbers)
    ensures |Overlay(list, numbers)| == |list| + |Missing(list, numbers)|
    ensures Overlay(list, numbers)[|list|..] == CtaEntries(Missing(list, numbers))
    decreases numbers
  {
    if numbers != [] {
      var number, rest := numbers[0], numbers[1..];
      var l1 := OverlayOne(list, number);
      OverlaySuffix(l1, rest);
      assert Missing(l1, rest) == Missing(list, rest) by {
        MissingAfterOne(list, number, rest);
      }
      OverlayOneExactly(list, number);
      MissingStep(list, numbers);
      if !Lists(list, number) {
        assert Overlay(l1, rest)[|list|] == CtaEntry(number) by {
          OverlayPrefix(l1, rest);
        }
        AppendOne(Overlay(l1, rest), |list|, number, Missing(list, rest));
      }
    }
  }

  lemma MissingStep(list: seq<EccEntry>, numbers: seq<string>)
    requires numbers != []
    ensures Missing(list, numbers) ==
            if Lists(list, numbers[0]) then Missing(list, numbers[1..]) else [numbers[0]] + Missing(list, numbers[1..])
  {}

  lemma AppendOne(result: seq<EccEntry>, n: nat, number: string, missing: seq<string>)
    requires n + 1 <= |result| && result[n] == CtaEntry(number) && result[n + 1..] == CtaEntries(missing)
    ensures result[n..] == CtaEntries([number] + missing)
  {}

  /** The overlay in closed form. */
  lemma OverlayExactly(list: seq<EccEntry>, numbers: seq<string>)
    requires NoDuplicates(numbers)
    ensures |Overlay(list, numbers)| == |list| + |Missing(list, numbers)|
    ensures forall i :: 0 <= i < |list| ==>
              Overlay(list, numbers)[i] ==
              if list[i].ecc in numbers && FirstOf(list, i) then CtaEntry(list[i].ecc) else list[i]
    ensures Overlay(list, numbers)[|list|..] == CtaEntries(Missing(list, numbers))
  {
    OverlayPrefix(list, numbers);
    OverlaySuffix(list, numbers);
  }

  function CtaOverlay(list: seq<EccEntry>): seq<EccEntry> {
    Overlay(list, CTA_NUMBERS)
  }

  lemma CtaNumbersDistinct()
    ensures NoDuplicates(CTA_NUMBERS)
  {}

  lemma {:induction false} MissingMembers(list: seq<EccEntry>, numbers: seq<string>, number: string)
    ensures number in Missing(list, numbers) <==> number in numbers && !Lists(list, number)
  {
    if numbers != [] {
      MissingMembers(list, numbers[1..], number);
      assert numbers == [numbers[0]] + numbers[1..];
    }
  }

  /** After the overlay every overlaid number is listed and its first entry is its own. */
  lemma Listed(list: seq<EccEntry>, numbers: seq<string>, number: string) returns (i: nat)
    requires NoDuplicates(numbers) && number in numbers
    ensures i < |Overlay(list, numbers)| && Overlay(list, numbers)[i] == EccEntry(number, "0", "2")
    ensures forall j :: 0 <= j < i ==> Overlay(list, numbers)[j].ecc != number
  {
    OverlayExactly(list, numbers);
    var result := Overlay(list, numbers);
    i := FirstIndex(list, number);
    assert forall j :: 0 <= j < |list| ==> result[j].ecc == list[j].ecc;
    if i == |list| {
      i := AppendedAt(list, numbers, number);
    }
  }

  lemma AppendedAt(list: seq<EccEntry>, numbers: seq<string>, number: string) returns (i: nat)
    requires NoDuplicates(numbers) && number in numbers && FirstIndex(list, number) == |list|
    ensures |list| <= i < |Overlay(list, numbers)| && Overlay(list, numbers)[i] == CtaEntry(number)
    ensures forall j :: |list| <= j < i ==> Overlay(list, numbers)[j].ecc != number
  {
    OverlaySuffix(list, numbers);
    MissingMembers(list, numbers, number);
    MissingDistinct(list, numbers);
    var k := PositionIn(Overlay(list, numbers)[|list|..], Missing(list, numbers), number);
    i := |list| + k;
    var tail := Overlay(list, numbers)[|list|..];
    assert forall j :: |list| <= j < |Overlay(list, numbers)| ==> Overlay(list, numbers)[j] == tail[j - |list|];
  }

  lemma PositionIn(tail: seq<EccEntry>, missing: seq<string>, number: string) returns (k: nat)
    requires tail == CtaEntries(missing) && NoDuplicates(missing) && number in missing
    ensures k < |tail| && tail[k] == CtaEntry(number) && forall j :: 0 <= j < k ==> tail[j].ecc != number
  {
    CtaEntriesAt(missing);
    k :| 0 <= k < |missing| && missing[k] == number;
  }

  lemma CtaListed(list: seq<EccEntry>, number: string) returns (i: nat)
    requires number in CTA_NUMBERS
    ensures i < |CtaOverlay(list)| && CtaOverlay(list)[i] == CtaEntry(number)
    ensures forall j :: 0 <= j < i ==> CtaOverlay(list)[j].ecc != number
  {
    CtaNumbersDistinct();
    i := Listed(list, CTA_NUMBERS, number);
  }

  lemma {:induction false} MissingDistinct(list: seq<EccEntry>, numbers: seq<string>)
    requires NoDuplicates(numbers)
    ensures NoDuplicates(Missing(list, numbers))
  {
    if numbers != [] {
      MissingDistinct(list, numbers[1..]);
      MissingMembers(list, numbers[1..], numbers[0]);
    }
  }

  lemma {:induction false} NoneMissing(list: seq<EccEntry>, numbers: seq<string>)
    requires forall number <- numbers :: Lists(list, number)
    ensures Missing(list, numbers) == []
  {
    if numbers != [] {
      NoneMissing(list, numbers[1..]);
    }
  }

  lemma OverlayTwice(list: seq<EccEntry>, numbers: seq<string>)
    requires NoDuplicates(numbers)
    ensures Overlay(Overlay(list, numbers), numbers) == Overlay(list, numbers)
  {
    var once := Overlay(list, numbers);
    var twice := Overlay(once, numbers);
    forall number | number in numbers
      ensures Lists(once, number)
    {
      var i := Listed(list, numbers, number);
      assert once[i] in once;
    }
    NoneMissing(once, numbers);
    OverlaySuffix(once, numbers);
    OverlayPrefix(once, numbers);
    forall i | 0 <= i < |once|
      ensures twice[i] == once[i]
    {
      if once[i].ecc in numbers && FirstOf(once, i) {
        var j := Listed(list, numbers, once[i].ecc);
      }
    }
    assert twice == once;
  }

  /** Overlaying again changes nothing. */
  lemma CtaOverlayTwice(list: seq<EccEntry>)
    ensures CtaOverlay(CtaOverlay(list)) == CtaOverlay(list)
  {
    CtaNumbersDistinct();
    OverlayTwice(list, CTA_NUMBERS);
  }

  /** What the parse leaves behind: a parse that throws midway keeps the entries read so far
      and skips the overlay. */
  function ParsedList(events: seq<XmlEvent>, completes: bool, ctaSet: bool): seq<EccEntry> {
    var list := ParseRun(ParseState(None, []), events).list;
    if completes && ctaSet then CtaOverlay(list) else list
  }

  /** What the engine starts with for a flat document: its entries, each field under its own name; with
      the overlay exactly when the parse completes on a CTA device. */
  lemma StartsWithEntries(nodes: seq<Node>, completes: bool, ctaSet: bool)
    requires FlatDocument(nodes)
    ensures ParsedList(Events(nodes), completes, ctaSet) ==
            if completes && ctaSet then Overlay(Entries(nodes), ["120", "122", "110", "119"]) else Entries(nodes)
  {
    hide Overlay, ParseRun;
    ParsesExactly(ParseState(None, []), nodes);
    assert [] + Entries(nodes) == Entries(nodes);
  }

  // ----- the CTA guarantee -----

  /** The customised category is that of the first matching entry, and 0 when none matches. */
  lemma {:induction false} FirstMatchDecides(list: seq<EccEntry>, number: string, i: nat)
    requires i <= |list| && forall j :: 0 <= j < i ==> !Matches(list[j].ecc, number)
    ensures i == |list| ==> CustomCategory(list, number) == Some(0)
    ensures i < |list| && Matches(list[i].ecc, number) ==> CustomCategory(list, number) == ParseInt(list[i].category)
  {
    if i > 0 {
      FirstMatchDecides(list[1..], number, i - 1);
    }
  }

  /** With the CTA flag set and a parse that completes, each CTA number is an emergency number
      beside every loaded network table and in every SIM state, and its category is the
      network's if the table lists it and 0 otherwise. */
  lemma CtaDecision(events: seq<XmlEvent>, number: string, network: map<string, int>, sim1: string, sim2: string)
    requires number in CTA_NUMBERS
    ensures var list := ParsedList(events, true, true);
            && Decision(network, sim1, sim2, list, number)
            && forall c :: CategoryAnswer(network, list, number, c) <==>
                           c == Some(if number in network then network[number] else 0)
  {
    hide ParseRun, Overlay, ParseInt, CustomCategory;
    var parsed := ParseRun(ParseState(None, []), events).list;
    var list := CtaOverlay(parsed);
    var i := CtaListed(parsed, number);
    assert list[i] in list && Matches(list[i].ecc, number);
    forall j | 0 <= j < i
      ensures !Matches(list[j].ecc, number)
    {
      MatchingKeys(number, list[j].ecc);
    }
    FirstMatchDecides(list, number, i);
    PlainNumber(network, list, number);
    assert ParseInt("0") == Some(0) by {
      assert SignedDecimal(0) == "0";
      ParseIntOfPrinted(0);
    }
  }
}
