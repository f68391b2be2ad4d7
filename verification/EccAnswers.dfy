/**
  The check, the dial and the refresh as a user of the phone sees them: stated on the texts of the three
  properties and on the entries of the list, without the engine's own notions.
 */
module EccAnswers {
  import opened Text
  import opened Numerals
  import opened SystemProperties
  import opened EccRules
  import opened EccNetwork
  import opened EccDecision
  import opened EccParse
  import opened EccEngine

  // ----- what a number has to do with the lists -----

  /** The listed number is the number itself, or the number without its trailing plus sign. */
  predicate Spells(listed: string, n: string) {
    listed == n || (n != "" && n[|n| - 1] == '+' && listed == n[..|n| - 1])
  }

  function NetworkPairs(props: map<string, string>): seq<(string, string)> {
    Pairs(Split(Property(props, "ril.ecc.service.category.list"), ';'))
  }

  /** The network gives the number a category. */
  ghost predicate InNetworkList(props: map<string, string>, n: string) {
    exists k :: Spells(k, n) && LastCategory(NetworkPairs(props), k).Some?
  }

  /** A piece of a SIM list that is not empty names the number. */
  ghost predicate InSimList(text: string, n: string) {
    text != "" && exists piece <- Split(text, ',') :: Spells(piece, n)
  }

  /** An entry of the customised list names the number; beside a SIM list that is not empty only an
      entry that does not ask for a missing SIM counts. */
  ghost predicate InCustomList(props: map<string, string>, list: seq<EccEntry>, n: string) {
    exists e <- list :: Spells(e.ecc, n) &&
      (Property(props, "ril.ecclist") != "" || Property(props, "ril.ecclist1") != "" ==> e.condition != "0")
  }

  ghost predicate Emergency(props: map<string, string>, list: seq<EccEntry>, n: string) {
    || InNetworkList(props, n)
    || InSimList(Property(props, "ril.ecclist"), n)
    || InSimList(Property(props, "ril.ecclist1"), n)
    || InCustomList(props, list, n)
  }

  // ----- the pairs of a network list -----

  /** A pair is a piece of the list with exactly two fields. */
  lemma {:induction false} PairsArePieces(pieces: seq<string>, k: string, c: string)
    ensures (k, c) in Pairs(pieces) <==> exists piece <- pieces :: Split(piece, ',') == [k, c]
  {
    hide Split;
    if pieces != [] {
      var first, rest := pieces[0], pieces[1..];
      PairsArePieces(rest, k, c);
      NoFields();
      assert pieces == [first] + rest;
      assert (exists piece <- pieces :: Split(piece, ',') == [k, c]) <==>
             Split(first, ',') == [k, c] || exists piece <- rest :: Split(piece, ',') == [k, c] by {
        assert first in pieces && forall piece <- rest :: piece in pieces;
      }
    }
  }

  lemma NoFields()
    ensures |Split("", ',')| != 2
  {}

  lemma {:induction false} LastCategoryMembers(pairs: seq<(string, string)>, k: string)
    ensures LastCategory(pairs, k).Some? <==> exists c :: (k, c) in pairs
    ensures LastCategory(pairs, k).Some? ==> (k, LastCategory(pairs, k).value) in pairs
  {
    if pairs != [] {
      var front, last := pairs[..|pairs| - 1], pairs[|pairs| - 1];
      LastCategoryMembers(front, k);
      assert pairs == front + [last];
      if last.0 == k {
        assert (k, last.1) in pairs;
      }
    }
  }

  /** The network lists a number exactly when a piece of its list has two fields and the first of them
      spells the number. */
  lemma NetworkListPieces(props: map<string, string>, n: string)
    ensures InNetworkList(props, n) <==>
            exists piece <- Split(Property(props, "ril.ecc.service.category.list"), ';') ::
              |Split(piece, ',')| == 2 && Spells(Split(piece, ',')[0], n)
  {
    hide Split, Spells, LastCategory, Pairs;
    var pieces := Split(Property(props, "ril.ecc.service.category.list"), ';');
    if k :| Spells(k, n) && LastCategory(Pairs(pieces), k).Some? {
      LastCategoryMembers(Pairs(pieces), k);
      var c :| (k, c) in Pairs(pieces);
      PairsArePieces(pieces, k, c);
      var piece :| piece in pieces && Split(piece, ',') == [k, c];
      assert |Split(piece, ',')| == 2 && Spells(Split(piece, ',')[0], n);
    }
    if piece :| piece in pieces && |Split(piece, ',')| == 2 && Spells(Split(piece, ',')[0], n) {
      var k, c := Split(piece, ',')[0], Split(piece, ',')[1];
      assert Split(piece, ',') == [k, c];
      PairsArePieces(pieces, k, c);
      LastCategoryMembers(Pairs(pieces), k);
    }
  }

  // ----- the check -----

  lemma MatchesSpells(listed: string, n: string)
    ensures Matches(listed, n) <==> Spells(listed, n)
  {
    MatchingKeys(n, listed);
  }

  lemma AnyMatchSpells(eccs: seq<string>, n: string)
    ensures AnyMatch(eccs, n) <==> exists e <- eccs :: Spells(e, n)
  {
    hide Matches, Spells;
    forall e {
      MatchesSpells(e, n);
    }
  }

  lemma SimMatchSpells(text: string, n: string)
    ensures SimMatch(text, n) <==> InSimList(text, n)
  {
    hide AnyMatch, Spells, Split;
    AnyMatchSpells(Split(text, ','), n);
  }

  lemma CustomMatchSpells(props: map<string, string>, list: seq<EccEntry>, n: string)
    ensures CustomMatch(list, Property(props, SIM1_LIST) != "" || Property(props, SIM2_LIST) != "", n) <==>
            InCustomList(props, list, n)
  {
    hide Matches, Spells, Property;
    forall e: EccEntry {
      MatchesSpells(e.ecc, n);
    }
  }

  lemma NetworkMatchSpells(props: map<string, string>, n: string)
    requires !Malformed(NetworkPairs(props))
    ensures NetworkMatch(LoadNetwork(Property(props, NETWORK_LIST)).table, n) <==> InNetworkList(props, n)
  {
    hide Matches, Spells, Property, LoadNetwork, Malformed, LastCategory, Pairs, Split;
    forall k
      ensures k in LoadNetwork(Property(props, NETWORK_LIST)).table <==> LastCategory(NetworkPairs(props), k).Some?
    {
      LastPairWins(Property(props, NETWORK_LIST), k);
    }
    forall k {
      MatchesSpells(k, n);
    }
  }

  /** The answer of the check in every state: an exception exactly when a category of the network list is
      no number, otherwise yes exactly when the number as the normaliser reads it is in the network
      list, in one of the two SIM lists or in the customised list. */
  lemma CheckExactly(props: map<string, string>, list: seq<EccEntry>, normalise: string -> string, number: string)
    ensures CheckAnswer(props, list, normalise, Some(number)) ==
            if Malformed(NetworkPairs(props)) then Exception else Returned(Emergency(props, list, normalise(number)))
    ensures CheckAnswer(props, list, normalise, None) == Returned(false)
  {
    hide Property, LoadNetwork, Malformed, Pairs, Split, InNetworkList, InSimList, InCustomList, NetworkMatch, SimMatch, CustomMatch;
    var n := normalise(number);
    LastPairWins(Property(props, NETWORK_LIST), n);
    if !Malformed(NetworkPairs(props)) {
      NetworkMatchSpells(props, n);
      SimMatchSpells(Property(props, SIM1_LIST), n);
      SimMatchSpells(Property(props, SIM2_LIST), n);
      CustomMatchSpells(props, list, n);
    }
  }

  // ----- the check after a refresh -----

  /** A refresh rewrites the two SIM lists, each from its own text, and nothing else. */
  lemma RefreshRewrites(props: map<string, string>, list: seq<EccEntry>, key: string)
    ensures Property(RefreshedProperties(props, list), key) ==
            if key == "ril.ecclist" || key == "ril.ecclist1" then Refreshed(Property(props, key), list) else Property(props, key)
  {
    hide Refreshed;
    PropertyNamesDiffer();
  }

  lemma Reassociate(x: seq<string>, y: seq<string>, z: seq<string>)
    ensures x + (y + z) == (x + y) + z
  {}

  lemma {:induction false} FixedOfConcat(a: seq<EccEntry>, b: seq<EccEntry>)
    ensures Fixed(a + b) == Fixed(a) + Fixed(b)
  {
    if a == [] {
      assert a + b == b;
    } else {
      var e, rest := a[0], a[1..];
      assert (a + b)[0] == e && (a + b)[1..] == rest + b;
      FixedOfConcat(rest, b);
      Reassociate(if e.condition != ECC_NO_SIM then [e.ecc] else [], Fixed(rest), Fixed(b));
    }
  }

  lemma {:induction false} NoSimOfConcat(a: seq<EccEntry>, b: seq<EccEntry>)
    ensures NoSim(a + b) == NoSim(a) + NoSim(b)
  {
    if a == [] {
      assert a + b == b;
    } else {
      var e, rest := a[0], a[1..];
      assert (a + b)[0] == e && (a + b)[1..] == rest + b;
      NoSimOfConcat(rest, b);
      Reassociate(if e.condition == ECC_NO_SIM && e.ecc != "" then [e.ecc] else [], NoSim(rest), NoSim(b));
    }
  }

  /** The two lists a refresh merges, entry by entry and in order: an entry with another condition than
      "0" goes to the fixed numbers, one with condition "0" and a number to the "no SIM" numbers, and
      none to both. */
  lemma SortedInOrder(list: seq<EccEntry>, e: EccEntry)
    ensures Fixed(list + [e]) == Fixed(list) + if e.condition != "0" then [e.ecc] else []
    ensures NoSim(list + [e]) == NoSim(list) + if e.condition == "0" && e.ecc != "" then [e.ecc] else []
    ensures Fixed([]) == [] == NoSim([])
  {
    assert [e][1..] == [];
    assert Fixed([e]) == (if e.condition != "0" then [e.ecc] else []) + Fixed([]);
    assert NoSim([e]) == (if e.condition == "0" && e.ecc != "" then [e.ecc] else []) + NoSim([]);
    FixedOfConcat(list, [e]);
    NoSimOfConcat(list, [e]);
  }

  lemma NoSimSpells(list: seq<EccEntry>, n: string)
    requires n != "" && n != "+"
    ensures AnyMatch(NoSim(list), n) <==> exists e <- list :: e.condition == "0" && Spells(e.ecc, n)
  {
    hide AnyMatch, Matches, Spells, NoSim;
    AnyMatchSpells(NoSim(list), n);
    forall ecc
      ensures ecc in NoSim(list) <==> exists e <- list :: e.condition == "0" && e.ecc != "" && e.ecc == ecc
    {
      NoSimMembers(list, ecc);
    }
    EmptySpells(n);
  }

  lemma EmptySpells(n: string)
    ensures Spells("", n) <==> n == "" || n == "+"
  {
    assert n != "" && n[..|n| - 1] == "" ==> |n| == 1;
  }

  lemma {:induction false} NoSimMembers(list: seq<EccEntry>, ecc: string)
    ensures ecc in NoSim(list) <==> exists e <- list :: e.condition == "0" && e.ecc != "" && e.ecc == ecc
  {
    if list != [] {
      NoSimMembers(list[1..], ecc);
      assert list == [list[0]] + list[1..];
      assert list[0] in list && forall e <- list[1..] :: e in list;
    }
  }

  /** The check after a refresh, on comma-free lists and for every number that does not read as "" or
      "+": an exception as before; otherwise yes exactly when the number was an emergency number
      before, or a "no SIM" entry names it and either exactly one SIM list was empty, or neither was,
      neither held a number and there is nothing fixed to write. */
  lemma CheckAfterRefresh(props: map<string, string>, list: seq<EccEntry>, normalise: string -> string, number: string)
    requires CommaFree(list) && normalise(number) != "" && normalise(number) != "+"
    ensures var n, sim1, sim2 := normalise(number), Property(props, "ril.ecclist"), Property(props, "ril.ecclist1");
            CheckAnswer(RefreshedProperties(props, list), list, normalise, Some(number)) ==
            if Malformed(NetworkPairs(props)) then Exception
            else Returned(Emergency(props, list, n) ||
                          ((exists e <- list :: e.condition == "0" && Spells(e.ecc, n)) && AddsNoSim(sim1, sim2, list)))
  {
    hide Property, Refreshed, RefreshedProperties, CommaFree, LoadNetwork, Malformed, Pairs, Split, Decision, AnyMatch, AddsNoSim, Emergency, Spells;
    var n, sim1, sim2 := normalise(number), Property(props, SIM1_LIST), Property(props, SIM2_LIST);
    RefreshRewrites(props, list, SIM1_LIST);
    RefreshRewrites(props, list, SIM2_LIST);
    RefreshRewrites(props, list, NETWORK_LIST);
    PropertyNamesDiffer();
    CheckExactly(props, list, normalise, number);
    LastPairWins(Property(props, NETWORK_LIST), n);
    if !Malformed(NetworkPairs(props)) {
      RefreshEffect(LoadNetwork(Property(props, NETWORK_LIST)).table, sim1, sim2, list, n);
      NoSimSpells(list, n);
    }
  }

  // ----- the dial -----

  /** The position of the first entry that spells the number, the length of the list without one. */
  function FirstSpelling(list: seq<EccEntry>, n: string): (i: nat)
    ensures i <= |list|
    ensures i < |list| ==> Spells(list[i].ecc, n)
    ensures forall j :: 0 <= j < i ==> !Spells(list[j].ecc, n)
  {
    if list == [] || Spells(list[0].ecc, n) then 0 else 1 + FirstSpelling(list[1..], n)
  }

  /** The categories that may be asked for with an address: those of the last network pairs of its two
      spellings; without one that of the first entry that spells it, where a text that is no number
      stands for an exception; otherwise 0. */
  ghost predicate MayAsk(props: map<string, string>, list: seq<EccEntry>, address: string, c: Option<int>) {
    var pairs, i := NetworkPairs(props), FirstSpelling(list, address);
    if InNetworkList(props, address) then
      exists k :: Spells(k, address) && LastCategory(pairs, k).Some? && c == ParseInt(LastCategory(pairs, k).value)
    else if i < |list| then c == ParseInt(list[i].category)
    else c == Some(0)
  }

  lemma CategoryExactly(props: map<string, string>, list: seq<EccEntry>, address: string, c: Option<int>)
    requires !Malformed(NetworkPairs(props))
    ensures CategoryAnswer(LoadNetwork(Property(props, NETWORK_LIST)).table, list, address, c) <==> MayAsk(props, list, address, c)
  {
    hide Property, LoadNetwork, Malformed, Pairs, Split, LastCategory, ParseInt, Matches, Spells, CustomCategory;
    var table := LoadNetwork(Property(props, NETWORK_LIST)).table;
    NetworkMatchSpells(props, address);
    if InNetworkList(props, address) {
      forall k
        ensures Matches(k, address) <==> Spells(k, address)
        ensures k in table <==> LastCategory(NetworkPairs(props), k).Some?
        ensures k in table ==> ParseInt(LastCategory(NetworkPairs(props), k).value) == Some(table[k])
      {
        MatchesSpells(k, address);
        LastPairWins(Property(props, NETWORK_LIST), k);
      }
    } else {
      forall e: EccEntry {
        MatchesSpells(e.ecc, address);
      }
      FirstMatchDecides(list, address, FirstSpelling(list, address));
    }
  }

  /** What a dial sends, in every state: nothing but an exception when a category of the network list is
      no number; an ordinary dial of the address exactly when the number is in no list; otherwise a
      category request followed by an emergency dial of the address, or an exception when the
      category is no number. */
  lemma DialExactly(props: map<string, string>, list: seq<EccEntry>, normalise: string -> string, a: string, o: Outcome<seq<DialRequest>>)
    ensures MayDial(props, list, normalise, Some(a), o) <==>
            if Malformed(NetworkPairs(props)) then o == Exception
            else if !Emergency(props, list, normalise(a)) then o == Returned([OrdinaryDial(Some(a))])
            else exists c :: MayAsk(props, list, a, c) &&
                   o == if c.None? then Exception else Returned([SetEccServiceCategory(c.value), EmergencyDial(a)])
  {
    hide Property, LoadNetwork, Malformed, NetworkPairs, Emergency, MayAsk, CategoryAnswer, CheckAnswer;
    CheckExactly(props, list, normalise, a);
    if !Malformed(NetworkPairs(props)) {
      forall c
        ensures CategoryAnswer(LoadNetwork(Property(props, NETWORK_LIST)).table, list, a, c) <==> MayAsk(props, list, a, c)
      {
        CategoryExactly(props, list, a, c);
      }
    }
  }

  /** A dial without an address is an ordinary one. */
  lemma DialNothing(props: map<string, string>, list: seq<EccEntry>, normalise: string -> string, o: Outcome<seq<DialRequest>>)
    ensures MayDial(props, list, normalise, None, o) <==> o == Returned([OrdinaryDial(None)])
  {}

  /** Whatever a dial sends, it holds an emergency request exactly when the number is in one of the
      lists, and then no ordinary dial; every dial in it is to the address. */
  lemma EmergencyRequests(props: map<string, string>, list: seq<EccEntry>, normalise: string -> string, a: string, sent: seq<DialRequest>)
    requires MayDial(props, list, normalise, Some(a), Returned(sent))
    ensures (exists r <- sent :: r.EmergencyDial?) <==> Emergency(props, list, normalise(a))
    ensures (exists r <- sent :: r.SetEccServiceCategory?) <==> Emergency(props, list, normalise(a))
    ensures (exists r <- sent :: r.OrdinaryDial?) <==> !Emergency(props, list, normalise(a))
    ensures forall r <- sent :: (r.EmergencyDial? ==> r.address == a) && (r.OrdinaryDial? ==> r.dialled == Some(a))
  {
    hide MayDial, Malformed, NetworkPairs, Emergency, MayAsk;
    DialExactly(props, list, normalise, a, Returned(sent));
    if Emergency(props, list, normalise(a)) {
      assert |sent| == 2 && sent[0].SetEccServiceCategory? && sent[1] == EmergencyDial(a);
    } else {
      assert sent[0] == OrdinaryDial(Some(a));
    }
  }
}
