/**
  What rewriting the two SIM list properties does to later emergency decisions. The rewrite
  feeds back into the decision because a non-empty property is also how the engine tells
  that a SIM is inserted.
 */
module EccDecision {
  import opened Text
  import opened EccRules
  import opened EccRefresh

  // ----- matching -----

  lemma AnyMatchOfConcat(xs: seq<string>, ys: seq<string>, n: string)
    ensures AnyMatch(xs + ys, n) <==> AnyMatch(xs, n) || AnyMatch(ys, n)
  {}

  /** Removing from one list what the other holds does not change what the two match. */
  lemma RemoveAllMatches(xs: seq<string>, rs: seq<string>, n: string)
    ensures AnyMatch(RemoveAll(xs, rs), n) || AnyMatch(rs, n) <==> AnyMatch(xs, n) || AnyMatch(rs, n)
  {}

  /** The same for what a reader finds inside the entries. */
  lemma {:induction false} RemoveAllFlatMatches(xs: seq<string>, rs: seq<string>, n: string)
    ensures AnyMatch(Flat(RemoveAll(xs, rs), ','), n) || AnyMatch(Flat(rs, ','), n) <==>
            AnyMatch(Flat(xs, ','), n) || AnyMatch(Flat(rs, ','), n)
  {
    if xs != [] {
      var head, tail := NonEmpty(Pieces(xs[0], ',')), xs[1..];
      RemoveAllFlatMatches(tail, rs, n);
      AnyMatchOfConcat(head, Flat(tail, ','), n);
      if xs[0] in rs {
        assert RemoveAll(xs, rs) == RemoveAll(tail, rs);
        if AnyMatch(head, n) {
          var e :| e in head && Matches(e, n);
          NonEmptyMembers(Pieces(xs[0], ','));
          FlatMembers(rs, ',', e);
          assert e in Flat(rs, ',');
        }
      } else {
        assert RemoveAll(xs, rs) == [xs[0]] + RemoveAll(tail, rs);
        assert RemoveAll(xs, rs)[1..] == RemoveAll(tail, rs);
        AnyMatchOfConcat(head, Flat(RemoveAll(tail, rs), ','), n);
      }
    }
  }

  lemma SimMatchByNumbers(x: string, n: string)
    requires n != "" && n != "+"
    ensures SimMatch(x, n) <==> AnyMatch(Numbers(x), n)
  {
    NonEmptyMembers(Split(x, ','));
    if SimMatch(x, n) {
      var e :| e in Split(x, ',') && Matches(e, n);
      assert e in Numbers(x);
    }
    if AnyMatch(Numbers(x), n) {
      var e :| e in Numbers(x) && Matches(e, n);
      assert e in Split(x, ',') && e != "";
      assert x != "";
    }
  }

  lemma {:induction false} CustomMatchByLists(list: seq<EccEntry>, simInserted: bool, n: string)
    requires n != "" && n != "+"
    ensures CustomMatch(list, simInserted, n) <==>
            AnyMatch(Fixed(list), n) || (!simInserted && AnyMatch(NoSim(list), n))
  {
    if list != [] {
      var e, rest := list[0], list[1..];
      CustomMatchByLists(rest, simInserted, n);
      assert list == [e] + rest;
      assert CustomMatch(list, simInserted, n) <==>
             ((simInserted ==> e.condition != ECC_NO_SIM) && Matches(e.ecc, n)) || CustomMatch(rest, simInserted, n);
      AnyMatchOfConcat([e.ecc], Fixed(rest), n);
      AnyMatchOfConcat([e.ecc], NoSim(rest), n);
      assert [] + Fixed(rest) == Fixed(rest) && [] + NoSim(rest) == NoSim(rest);
      assert AnyMatch([e.ecc], n) <==> Matches(e.ecc, n) by {
        assert e.ecc in [e.ecc];
      }
    }
  }

  // ----- one property after a refresh -----

  lemma RefreshedMatch(x: string, list: seq<EccEntry>, n: string)
    requires n != "" && n != "+"
    ensures SimMatch(Refreshed(x, list), n) || AnyMatch(Fixed(list), n) <==>
            || AnyMatch(Fixed(list), n)
            || AnyMatch(Flat(Fixed(list), ','), n)
            || (if x == "" then AnyMatch(Flat(NoSim(list), ','), n) else AnyMatch(Numbers(x), n))
  {
    var F, S := Fixed(list), NoSim(list);
    SimMatchByNumbers(Refreshed(x, list), n);
    NumbersOfJoin(RefreshedList(x, F, S));
    if x == "" {
      ListOfEmpty(F, S);
      FlatOfConcat(RemoveAll(F, S), S, ',');
      AnyMatchOfConcat(Flat(RemoveAll(F, S), ','), Flat(S, ','), n);
      RemoveAllFlatMatches(F, S, n);
    } else {
      var A := Kept(x, F);
      FlatOfConcat(A, F, ',');
      FlatOfKept(x, F);
      AnyMatchOfConcat(A, Flat(F, ','), n);
      RemoveAllMatches(Numbers(x), F, n);
    }
  }

  /** The decision after a refresh, exactly, for every list, every pair of properties and
      every number but the two an empty entry would match. */
  lemma DecisionAfterRefresh(network: map<string, int>, sim1: string, sim2: string, list: seq<EccEntry>, n: string)
    requires n != "" && n != "+"
    ensures Decision(network, Refreshed(sim1, list), Refreshed(sim2, list), list, n) <==>
            || NetworkMatch(network, n)
            || AnyMatch(Numbers(sim1), n)
            || AnyMatch(Numbers(sim2), n)
            || AnyMatch(Fixed(list), n)
            || AnyMatch(Flat(Fixed(list), ','), n)
            || ((sim1 == "" || sim2 == "") && AnyMatch(Flat(NoSim(list), ','), n))
            || (Refreshed(sim1, list) == "" && Refreshed(sim2, list) == "" && AnyMatch(NoSim(list), n))
  {
    var r1, r2 := Refreshed(sim1, list), Refreshed(sim2, list);
    RefreshedMatch(sim1, list, n);
    RefreshedMatch(sim2, list, n);
    CustomMatchByLists(list, r1 != "" || r2 != "", n);
    assert Numbers("") == [];
  }

  lemma FlatMatch(xs: seq<string>, n: string)
    requires Free(xs, ',') && n != "" && n != "+"
    ensures AnyMatch(Flat(xs, ','), n) <==> AnyMatch(xs, n)
  {
    FlatOfFree(xs, ',');
    NonEmptyMembers(xs);
    if AnyMatch(xs, n) {
      var e :| e in xs && Matches(e, n);
      assert e in NonEmpty(xs);
    }
    if AnyMatch(NonEmpty(xs), n) {
      var e :| e in NonEmpty(xs) && Matches(e, n);
      assert e in xs;
    }
  }

  /** The states of the two properties from which a refresh adds the "no SIM" numbers. */
  predicate AddsNoSim(sim1: string, sim2: string, list: seq<EccEntry>) {
    || (sim1 == "") != (sim2 == "")
    || (sim1 != "" && sim2 != "" && Numbers(sim1) == [] && Numbers(sim2) == [] && Blank(Fixed(list)))
  }

  /** With comma-free list numbers, and for every number but "" and "+", a refresh never withdraws an
      answer, and it adds exactly the "no SIM" numbers when exactly one property was empty, or when
      both held no number and there is nothing fixed to write. */
  lemma RefreshEffect(network: map<string, int>, sim1: string, sim2: string, list: seq<EccEntry>, n: string)
    requires CommaFree(list) && n != "" && n != "+"
    ensures Decision(network, Refreshed(sim1, list), Refreshed(sim2, list), list, n) <==>
            || Decision(network, sim1, sim2, list, n)
            || (AnyMatch(NoSim(list), n) && AddsNoSim(sim1, sim2, list))
  {
    DecisionAfterRefresh(network, sim1, sim2, list, n);
    FixedAndNoSimAreFree(list);
    FlatMatch(Fixed(list), n);
    FlatMatch(NoSim(list), n);
    RefreshedIsEmpty(sim1, list);
    RefreshedIsEmpty(sim2, list);
    SimMatchByNumbers(sim1, n);
    SimMatchByNumbers(sim2, n);
    CustomMatchByLists(list, sim1 != "" || sim2 != "", n);
  }

  lemma CommaNumberNotInFlat(xs: seq<string>, n: string)
    requires ',' in n
    ensures !AnyMatch(Flat(xs, ','), n)
  {
    FlatIsFree(xs, ',');
    assert forall p: string :: ',' !in p ==> ',' !in p + "+";
  }

  /** A "no SIM" number with a comma that the fixed list does not match in both its spellings. */
  ghost predicate Loses(list: seq<EccEntry>) {
    exists s <- NoSim(list) :: ',' in s && !(AnyMatch(Fixed(list), s) && AnyMatch(Fixed(list), s + "+"))
  }

  /** A refresh withdraws the answer to `n` in this state. */
  ghost predicate Withdraws(network: map<string, int>, sim1: string, sim2: string, list: seq<EccEntry>, n: string) {
    && Decision(network, sim1, sim2, list, n)
    && !Decision(network, Refreshed(sim1, list), Refreshed(sim2, list), list, n)
  }

  lemma LostNumber(network: map<string, int>, sim1: string, sim2: string, list: seq<EccEntry>, n: string)
    requires n != "" && n != "+" && Withdraws(network, sim1, sim2, list, n)
    ensures Loses(list)
  {
    DecisionAfterRefresh(network, sim1, sim2, list, n);
    SimMatchByNumbers(sim1, n);
    SimMatchByNumbers(sim2, n);
    CustomMatchByLists(list, sim1 != "" || sim2 != "", n);
    var s :| s in NoSim(list) && Matches(s, n);
    if ',' !in s {
      FreeInFlat(NoSim(list), s);
    }
  }

  lemma FreeInFlat(xs: seq<string>, s: string)
    requires s in xs && s != "" && ',' !in s
    ensures s in Flat(xs, ',')
  {
    PiecesWithoutSeparator(s, ',');
    FlatMembers(xs, ',', s);
  }

  lemma LosingState(list: seq<EccEntry>, s: string, n: string)
    requires s in NoSim(list) && ',' in s && (n == s || n == s + "+") && !AnyMatch(Fixed(list), n)
    ensures n != "" && n != "+" && Withdraws(map[], "", "", list, n)
  {
    assert ',' in n && Matches(s, n);
    DecisionAfterRefresh(map[], "", "", list, n);
    CustomMatchByLists(list, false, n);
    CommaNumberNotInFlat(Fixed(list), n);
    CommaNumberNotInFlat(NoSim(list), n);
    RefreshedIsEmpty("", list);
    assert Numbers("") == [];
  }

  /** A refresh withdraws the answer to some number other than "" and "+" in some state exactly on
      the lists that lose a number; commas in fixed numbers never do. */
  lemma LosesExactly(list: seq<EccEntry>)
    ensures (exists network, sim1, sim2, n :: n != "" && n != "+" && Withdraws(network, sim1, sim2, list, n)) <==> Loses(list)
  {
    if network, sim1, sim2, n :| n != "" && n != "+" && Withdraws(network, sim1, sim2, list, n) {
      LostNumber(network, sim1, sim2, list, n);
    }
    if Loses(list) {
      var s :| s in NoSim(list) && ',' in s && !(AnyMatch(Fixed(list), s) && AnyMatch(Fixed(list), s + "+"));
      LosingState(list, s, if AnyMatch(Fixed(list), s) then s + "+" else s);
    }
  }

  /** For instance the "no SIM" number "1,2": refreshing makes it two numbers. */
  lemma CommaLosesANumber()
    ensures var list := [EccEntry("1,2", "0", ECC_NO_SIM)];
            Withdraws(map[], "", "", list, "1,2")
  {
    var e := EccEntry("1,2", "0", ECC_NO_SIM);
    var list := [e];
    assert list[1..] == [] && "1,2"[1] == ',';
    assert NoSim(list) == [e.ecc] + NoSim([]);
    LosingState(list, "1,2", "1,2");
  }

  // ----- the two numbers an empty entry matches -----

  /** The list lets "" or "+" match: it holds the empty number, or "+" for "+". */
  predicate MatchesBlank(eccs: seq<string>, n: string) {
    "" in eccs || (n == "+" && "+" in eccs)
  }

  lemma BlankMatch(eccs: seq<string>, n: string)
    requires n == "" || n == "+"
    ensures AnyMatch(eccs, n) <==> MatchesBlank(eccs, n)
  {
    assert Matches("", n) && (n == "+" ==> Matches("+", n));
    assert forall e: string :: |e + "+"| == |e| + 1;
  }

  lemma SimMatchBlank(x: string, n: string)
    requires x != "" && (n == "" || n == "+")
    ensures SimMatch(x, n) <==> HasHole(Pieces(x, ',')) || (n == "+" && "+" in Pieces(x, ','))
  {
    BlankMatch(Split(x, ','), n);
    SplitHole(x, ',');
    NonEmptySplit(x, ',');
    NonEmptyMembers(Split(x, ','));
    NonEmptyMembers(Pieces(x, ','));
  }

  lemma RefreshedMatchBlank(x: string, list: seq<EccEntry>, n: string)
    requires n == "" || n == "+"
    ensures var cut := CutAll(RefreshedList(x, Fixed(list), NoSim(list)), ',');
            SimMatch(Refreshed(x, list), n) <==> HasHole(cut) || (n == "+" && "+" in cut)
  {
    var L := RefreshedList(x, Fixed(list), NoSim(list));
    JoinIsEmpty(L, ',');
    if L == [""] {
      assert L[1..] == [] && Pieces("", ',') == [""];
      assert CutAll(L, ',') == [""];
    } else if L != [] {
      SimMatchBlank(Join(L, ','), n);
      PiecesOfJoin(L, ',');
    }
  }

  lemma {:induction false} CustomMatchBlank(list: seq<EccEntry>, simInserted: bool, n: string)
    requires n == "" || n == "+"
    ensures CustomMatch(list, simInserted, n) <==>
            || MatchesBlank(Fixed(list), n)
            || (!simInserted && exists e <- list :: e.condition == ECC_NO_SIM && MatchesBlank([e.ecc], n))
  {
    if list != [] {
      var e, rest := list[0], list[1..];
      CustomMatchBlank(rest, simInserted, n);
      BlankMatch([e.ecc], n);
      assert e.ecc in [e.ecc];
      assert list == [e] + rest;
      assert Fixed(list) == (if e.condition != ECC_NO_SIM then [e.ecc] else []) + Fixed(rest);
      assert CustomMatch(list, simInserted, n) <==>
             ((simInserted ==> e.condition != ECC_NO_SIM) && Matches(e.ecc, n)) || CustomMatch(rest, simInserted, n);
    }
  }

  /** The answer to "" and "+" after a refresh, for every list: the network's, an empty piece left
      inside a written property (or "+" itself), an empty fixed number, or an empty "no SIM"
      number when both written properties are empty. */
  lemma BlankNumberAfterRefresh(network: map<string, int>, sim1: string, sim2: string, list: seq<EccEntry>, n: string)
    requires n == "" || n == "+"
    ensures var F, S := Fixed(list), NoSim(list);
            var cut1, cut2 := CutAll(RefreshedList(sim1, F, S), ','), CutAll(RefreshedList(sim2, F, S), ',');
            Decision(network, Refreshed(sim1, list), Refreshed(sim2, list), list, n) <==>
            || NetworkMatch(network, n)
            || HasHole(cut1) || HasHole(cut2) || (n == "+" && ("+" in cut1 || "+" in cut2))
            || MatchesBlank(F, n)
            || (Refreshed(sim1, list) == "" && Refreshed(sim2, list) == ""
                && exists e <- list :: e.condition == ECC_NO_SIM && MatchesBlank([e.ecc], n))
  {
    RefreshedMatchBlank(sim1, list, n);
    RefreshedMatchBlank(sim2, list, n);
    CustomMatchBlank(list, Refreshed(sim1, list) != "" || Refreshed(sim2, list) != "", n);
  }

  ghost predicate EmptyNoSim(list: seq<EccEntry>) {
    exists e <- list :: e.condition == ECC_NO_SIM && e.ecc == ""
  }

  /** No fixed number is empty, and the fixed list as it is written has no empty piece before a
      number; or there is an empty "no SIM" number and what is written for an empty property has
      no such piece. */
  ghost predicate LosesBlank(list: seq<EccEntry>) {
    var F, S := Fixed(list), NoSim(list);
    && "" !in F
    && (|| !HasHole(CutAll(F, ','))
        || (EmptyNoSim(list) && !HasHole(CutAll(RemoveAll(F, S) + S, ','))))
  }

  lemma WrittenHole(x: string, list: seq<EccEntry>)
    requires x != "" && HasHole(CutAll(Fixed(list), ','))
    ensures HasHole(CutAll(RefreshedList(x, Fixed(list), NoSim(list)), ','))
  {
    var F := Fixed(list);
    KeptIsFree(x, F);
    CutAllOfConcat(Kept(x, F), F, ',');
    CutAllOfFree(Kept(x, F), ',');
    HoleAfterNonEmpty(Kept(x, F), CutAll(F, ','));
  }

  lemma {:induction false} NoSimMember(list: seq<EccEntry>, e: EccEntry)
    requires e in list && e.condition == ECC_NO_SIM && e.ecc != ""
    ensures e.ecc in NoSim(list)
  {
    if list[0] != e {
      NoSimMember(list[1..], e);
    }
  }

  /** When both properties were empty, the answer to "" or "+" came from an empty "no SIM" number. */
  lemma LostBlankEmpty(list: seq<EccEntry>, n: string)
    requires (n == "" || n == "+") && CustomMatch(list, false, n) && !MatchesBlank(Fixed(list), n)
    requires n == "+" ==> "+" !in CutAll(RemoveAll(Fixed(list), NoSim(list)) + NoSim(list), ',')
    ensures EmptyNoSim(list)
  {
    hide CustomMatch;
    var F, S := Fixed(list), NoSim(list);
    CustomMatchBlank(list, false, n);
    var e :| e in list && e.condition == ECC_NO_SIM && MatchesBlank([e.ecc], n);
    if e.ecc == "+" {
      NoSimMember(list, e);
      CutAllOfConcat(RemoveAll(F, S), S, ',');
      FreeInFlat(S, "+");
      FlatIsNonEmptyCut(S, ',');
      NonEmptyMembers(CutAll(S, ','));
    }
  }

  lemma LostBlank(network: map<string, int>, sim1: string, sim2: string, list: seq<EccEntry>, n: string)
    requires (n == "" || n == "+") && Withdraws(network, sim1, sim2, list, n)
    ensures LosesBlank(list)
  {
    hide Refreshed, RefreshedList, CutAll, CustomMatch, HasHole;
    BlankNumberAfterRefresh(network, sim1, sim2, list, n);
    if sim1 != "" {
      if HasHole(CutAll(Fixed(list), ',')) {
        WrittenHole(sim1, list);
      }
    } else if sim2 != "" {
      if HasHole(CutAll(Fixed(list), ',')) {
        WrittenHole(sim2, list);
      }
    } else {
      ListOfEmpty(Fixed(list), NoSim(list));
      LostBlankEmpty(list, n);
    }
  }

  lemma LosingBlankProperty(list: seq<EccEntry>)
    requires "" !in Fixed(list) && !HasHole(CutAll(Fixed(list), ','))
    ensures Withdraws(map[], ",5", ",5", list, "")
  {
    var F := Fixed(list);
    CommaFive();
    SimMatchBlank(",5", "");
    KeptIsFree(",5", F);
    CutAllOfConcat(Kept(",5", F), F, ',');
    CutAllOfFree(Kept(",5", F), ',');
    HoleAfterNonEmpty(Kept(",5", F), CutAll(F, ','));
    RefreshedIsEmpty(",5", list);
    BlankNumberAfterRefresh(map[], ",5", ",5", list, "");
  }

  lemma CommaFive()
    ensures Pieces(",5", ',') == ["", "5"] && HasHole(Pieces(",5", ',')) && Numbers(",5") == ["5"]
  {
    var parts := ["", "5"];
    assert Join(parts, ',') == ",5" by {
      assert parts[1..] == ["5"];
    }
    PiecesJoin(parts, ',');
    assert parts[0] == "" && parts[1] != "";
    NonEmptySplit(",5", ',');
    NonEmptyOfConcat([""], ["5"]);
    assert [""] + ["5"] == parts;
    NonEmptyIdentity(["5"]);
  }

  lemma LosingBlankState(list: seq<EccEntry>)
    requires LosesBlank(list) && HasHole(CutAll(Fixed(list), ','))
    ensures Withdraws(map[], "", "", list, "")
  {
    var F, S := Fixed(list), NoSim(list);
    ListOfEmpty(F, S);
    CustomMatchBlank(list, false, "");
    RefreshedIsEmpty("", list);
    if Blank(F) {
      CutAllOfFree(F, ',');
    }
    BlankNumberAfterRefresh(map[], "", "", list, "");
  }

  /** A refresh withdraws the answer to "" or "+" in some state exactly on these lists. */
  lemma LosesBlankExactly(list: seq<EccEntry>)
    ensures (exists network, sim1, sim2, n :: (n == "" || n == "+") && Withdraws(network, sim1, sim2, list, n)) <==> LosesBlank(list)
  {
    if network, sim1, sim2, n :| (n == "" || n == "+") && Withdraws(network, sim1, sim2, list, n) {
      LostBlank(network, sim1, sim2, list, n);
    }
    if LosesBlank(list) {
      if HasHole(CutAll(Fixed(list), ',')) {
        LosingBlankState(list);
      } else {
        LosingBlankProperty(list);
      }
    }
  }

  /** On a well-formed list a refresh withdraws no answer but those to "" and "+", which it can. */
  lemma WellFormedLoses(list: seq<EccEntry>)
    requires CommaFree(list) && forall e <- list :: e.ecc != ""
    ensures !Loses(list) && LosesBlank(list)
  {
    FixedAndNoSimAreFree(list);
    FixedAreNonEmpty(list);
    CutAllOfFree(Fixed(list), ',');
  }
}
