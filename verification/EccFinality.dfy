/**
  Many refreshes of both SIM list properties: which of them still change an emergency answer,
  and after how many no further one does.
 */
module EccFinality {
  import opened Text
  import opened EccRules
  import opened EccRefresh
  import opened EccDecision

  // ----- two refreshes -----

  lemma BlankNeverMatches(F: seq<string>, n: string)
    requires Blank(F) && n != "" && n != "+"
    ensures !AnyMatch(F, n) && Flat(F, ',') == []
  {
    BlankIsFlat(F);
  }

  /** The decision after two refreshes, in terms of the state before them, for every number but ""
      and "+". */
  lemma DecisionAfterTwo(network: map<string, int>, sim1: string, sim2: string, list: seq<EccEntry>, n: string)
    requires n != "" && n != "+"
    ensures var q1, q2 := Refreshed(sim1, list), Refreshed(sim2, list);
            Decision(network, Refreshed(q1, list), Refreshed(q2, list), list, n) <==>
            || NetworkMatch(network, n)
            || AnyMatch(Numbers(sim1), n)
            || AnyMatch(Numbers(sim2), n)
            || AnyMatch(Fixed(list), n)
            || AnyMatch(Flat(Fixed(list), ','), n)
            || ((sim1 == "" || sim2 == "" || q1 == "" || q2 == "") && AnyMatch(Flat(NoSim(list), ','), n))
            || (Refreshed(q1, list) == "" && Refreshed(q2, list) == "" && AnyMatch(NoSim(list), n))
  {
    var q1, q2 := Refreshed(sim1, list), Refreshed(sim2, list);
    DecisionAfterRefresh(network, q1, q2, list, n);
    RefreshedMatch(sim1, list, n);
    RefreshedMatch(sim2, list, n);
    SimMatchByNumbers(q1, n);
    SimMatchByNumbers(q2, n);
    assert Numbers("") == [];
  }

  /** A second refresh changes the answer to a number other than "" and "+" exactly when nothing is
      fixed, neither the network nor a property number matches, and: both properties are empty and
      the list flickers on the number; or exactly one of two non-empty properties holds no number and a piece of a
      "no SIM" number matches; or neither holds one and the "no SIM" numbers and their pieces
      disagree. On comma-free lists only the second case is left, and the answer is then added. */
  lemma SecondRefreshChanges(network: map<string, int>, sim1: string, sim2: string, list: seq<EccEntry>, n: string)
    requires n != "" && n != "+"
    ensures var q1, q2 := Refreshed(sim1, list), Refreshed(sim2, list);
            var whole, pieces := AnyMatch(NoSim(list), n), AnyMatch(Flat(NoSim(list), ','), n);
            Decision(network, Refreshed(q1, list), Refreshed(q2, list), list, n) != Decision(network, q1, q2, list, n) <==>
            && Blank(Fixed(list)) && !NetworkMatch(network, n)
            && !AnyMatch(Numbers(sim1), n) && !AnyMatch(Numbers(sim2), n)
            && (|| (sim1 == "" == sim2 && Flickers(list) && whole)
                || (sim1 != "" && sim2 != "" && (Numbers(sim1) == []) != (Numbers(sim2) == []) && pieces)
                || (sim1 != "" && sim2 != "" && Numbers(sim1) == [] == Numbers(sim2) && whole != pieces))
    ensures var q1, q2 := Refreshed(sim1, list), Refreshed(sim2, list);
            CommaFree(list) ==>
              (!Decision(network, q1, q2, list, n) && Decision(network, Refreshed(q1, list), Refreshed(q2, list), list, n) <==>
               && Blank(Fixed(list)) && AnyMatch(NoSim(list), n) && !NetworkMatch(network, n)
               && !AnyMatch(Numbers(sim1), n) && !AnyMatch(Numbers(sim2), n)
               && sim1 != "" && sim2 != "" && (Numbers(sim1) == []) != (Numbers(sim2) == []))
  {
    var q1, q2 := Refreshed(sim1, list), Refreshed(sim2, list);
    DecisionAfterRefresh(network, sim1, sim2, list, n);
    DecisionAfterTwo(network, sim1, sim2, list, n);
    RefreshedIsEmpty(sim1, list);
    RefreshedIsEmpty(sim2, list);
    TwiceRefreshedIsEmpty(sim1, list);
    TwiceRefreshedIsEmpty(sim2, list);
    if Blank(Fixed(list)) {
      BlankNeverMatches(Fixed(list), n);
    }
    if CommaFree(list) {
      FixedAndNoSimAreFree(list);
      FlatMatch(NoSim(list), n);
    }
  }

  /** One refresh is not enough: with a comma-only property beside a real one, the "no SIM"
      number is added by the second refresh only. */
  lemma OneRefreshIsNotFinal()
    ensures var list := [EccEntry("7", "0", ECC_NO_SIM)];
            && !Decision(map[], Refreshed(",", list), Refreshed("5", list), list, "7")
            && Decision(map[], Refreshed(Refreshed(",", list), list), Refreshed(Refreshed("5", list), list), list, "7")
  {
    var list := [EccEntry("7", "0", ECC_NO_SIM)];
    assert Fixed(list) == [] && NoSim(list) == ["7"] by {
      assert list[1..] == [];
      assert NoSim(list) == ["7"] + NoSim([]);
    }
    CommaAndFive();
    SecondRefreshChanges(map[], ",", "5", list, "7");
  }

  lemma CommaAndFive()
    ensures Numbers(",") == [] && Numbers("5") == ["5"]
    ensures AnyMatch(["7"], "7") && !AnyMatch([], "7") && !AnyMatch(["5"], "7") && Flat(["7"], ',') == ["7"]
  {
    CommaOnly();
    assert Split("5", ',') == ["5"];
    NonEmptyIdentity(["5"]);
    assert "7" in ["7"] && Matches("7", "7") && |"5" + "+"| == 2;
    FlatOfFree(["7"], ',');
    NonEmptyIdentity(["7"]);
  }

  // ----- many refreshes, every number -----

  /** `j` refreshes of both properties answer `n` as `k` do. */
  predicate SameAnswer(j: nat, k: nat, network: map<string, int>, sim1: string, sim2: string, list: seq<EccEntry>, n: string) {
    Decision(network, RefreshedTimes(j, sim1, list), RefreshedTimes(j, sim2, list), list, n) ==
    Decision(network, RefreshedTimes(k, sim1, list), RefreshedTimes(k, sim2, list), list, n)
  }

  /** The decision about `n` sees no difference between the two texts of a property. */
  predicate SameReading(x: string, y: string, n: string) {
    (x == "") == (y == "") && SimMatch(x, n) == SimMatch(y, n)
  }

  lemma SameDecision(network: map<string, int>, x1: string, y1: string, x2: string, y2: string, list: seq<EccEntry>, n: string)
    requires SameReading(x1, y1, n) && SameReading(x2, y2, n)
    ensures Decision(network, x1, x2, list, n) == Decision(network, y1, y2, list, n)
  {}

  /** What a fixed list lets match wherever it is written at the end of a property. */
  ghost predicate FixedReading(F: seq<string>, n: string) {
    if n == "" || n == "+" then HasHole(CutAll(F, ',')) || (n == "+" && "+" in CutAll(F, ','))
    else AnyMatch(Flat(F, ','), n)
  }

  lemma ReadingOfWritten(A: seq<string>, F: seq<string>, n: string)
    requires Free(A, ',') && "" !in A && Join(A + F, ',') != ""
    ensures SimMatch(Join(A + F, ','), n) <==> AnyMatch(A, n) || FixedReading(F, n)
  {
    if n == "" || n == "+" {
      SimMatchBlank(Join(A + F, ','), n);
      PiecesOfJoin(A + F, ',');
      CutAllOfConcat(A, F, ',');
      CutAllOfFree(A, ',');
      HoleAfterNonEmpty(A, CutAll(F, ','));
      BlankMatch(A, n);
    } else {
      SimMatchByNumbers(Join(A + F, ','), n);
      NumbersOfJoin(A + F);
      FlatOfConcat(A, F, ',');
      FlatOfFree(A, ',');
      NonEmptyIdentity(A);
      AnyMatchOfConcat(A, Flat(F, ','), n);
    }
  }

  lemma LooseReading(F: seq<string>, n: string)
    ensures Free(Loose(F), ',') && "" !in Loose(F)
    ensures AnyMatch(Loose(F), n) ==> FixedReading(F, n)
  {
    RemoveAllMembers(Flat(F, ','), F);
    FlatIsFree(F, ',');
    if AnyMatch(Loose(F), n) {
      var e :| e in Loose(F) && Matches(e, n);
      assert e in Flat(F, ',');
      if n == "" || n == "+" {
        BlankMatch(Loose(F), n);
        FlatIsNonEmptyCut(F, ',');
        NonEmptyMembers(CutAll(F, ','));
      }
    }
  }

  /** No number sees a second refresh of a property that is neither empty nor emptied, even
      where the refresh makes the property longer. */
  lemma StableReading(x: string, list: seq<EccEntry>, n: string)
    requires Running(x, list)
    ensures SameReading(Refreshed(Refreshed(x, list), list), Refreshed(x, list), n)
  {
    var F := Fixed(list);
    var A, G := Kept(x, F), Loose(F);
    StaysRunning(x, list);
    WrittenTwice(x, list);
    KeptIsFree(x, F);
    LooseReading(F, n);
    ReadingOfWritten(A, F, n);
    ReadingOfWritten(A + G, F, n);
    AnyMatchOfConcat(A, G, n);
  }

  lemma {:induction false} ReadingForever(k: nat, x: string, y: string, list: seq<EccEntry>, n: string)
    requires Running(x, list) && y == Refreshed(x, list)
    ensures SameReading(RefreshedTimes(k, y, list), y, n)
    decreases k
  {
    if k > 0 {
      var z := Refreshed(y, list);
      StaysRunning(x, list);
      StableReading(x, list, n);
      ReadingForever(k - 1, y, z, list, n);
      Peel(k - 1, y, z, list);
    }
  }

  lemma ReadingFinal(k: nat, x: string, list: seq<EccEntry>, n: string)
    requires !Flickers(list) && k >= 3
    ensures SameReading(RefreshedTimes(k, x, list), RefreshedTimes(3, x, list), n)
  {
    hide Refreshed, Flickers, SimMatch;
    var z := Refreshed(Refreshed(x, list), list);
    var w := Refreshed(z, list);
    Unfold(x, list);
    SkipTwo(k, x, list);
    Peel(k - 3, z, w, list);
    RunningAfterTwo(x, list);
    if z == "" {
      FixedPoint(k - 3, w, list);
    } else {
      ReadingForever(k - 3, z, w, list, n);
    }
  }

  lemma ThirdReading(x: string, list: seq<EccEntry>, n: string)
    requires !Flickers(list)
    requires (n != "" && n != "+") || x == "" || Refreshed(x, list) != ""
    ensures SameReading(RefreshedTimes(3, x, list), RefreshedTimes(2, x, list), n)
  {
    var y := Refreshed(x, list);
    var z := Refreshed(y, list);
    Unfold(x, list);
    RunningAfterTwo(x, list);
    if y != "" && z != "" {
      StableReading(y, list, n);
    } else if z != "" {
      RefreshedIsEmpty(x, list);
      NumbersWithoutFixed(z, list);
      SimMatchByNumbers(z, n);
      SimMatchByNumbers(Refreshed(z, list), n);
    }
  }

  /** On a list that does not flicker the answer to every number but "" and "+" is final after two
      refreshes of both properties: no further refresh, in any quantity, gives or takes it. */
  lemma DecisionFinalAfterTwo(k: nat, network: map<string, int>, sim1: string, sim2: string, list: seq<EccEntry>, n: string)
    requires !Flickers(list) && n != "" && n != "+" && k >= 2
    ensures SameAnswer(k, 2, network, sim1, sim2, list, n)
  {
    hide Decision, RefreshedTimes, SimMatch, Flickers;
    if k > 2 {
      ReadingFinal(k, sim1, list, n);
      ReadingFinal(k, sim2, list, n);
      ThirdReading(sim1, list, n);
      ThirdReading(sim2, list, n);
      SameDecision(network, RefreshedTimes(k, sim1, list), RefreshedTimes(2, sim1, list),
                   RefreshedTimes(k, sim2, list), RefreshedTimes(2, sim2, list), list, n);
    }
  }

  /** On these lists the answer to every number, "" and "+" included, is final after three. */
  lemma DecisionFinalAfterThree(k: nat, network: map<string, int>, sim1: string, sim2: string, list: seq<EccEntry>, n: string)
    requires !Flickers(list) && k >= 3
    ensures SameAnswer(k, 3, network, sim1, sim2, list, n)
  {
    hide Decision, RefreshedTimes, SimMatch, Flickers;
    ReadingFinal(k, sim1, list, n);
    ReadingFinal(k, sim2, list, n);
    SameDecision(network, RefreshedTimes(k, sim1, list), RefreshedTimes(3, sim1, list),
                 RefreshedTimes(k, sim2, list), RefreshedTimes(3, sim2, list), list, n);
  }

  lemma FlickeringNumber(list: seq<EccEntry>)
    requires Flickers(list)
    ensures var n := NoSim(list)[0];
            n != "" && n != "+" && Decision(map[], "", "", list, n)
            && !Decision(map[], Refreshed("", list), Refreshed("", list), list, n)
    ensures Refreshed(Refreshed("", list), list) == ""
  {
    var S := NoSim(list);
    var n := S[0];
    assert n in S;
    if n == "+" {
      FreeInFlat(S, n);
    }
    assert Matches(n, n);
    CustomMatchByLists(list, false, n);
    DecisionAfterRefresh(map[], "", "", list, n);
    BlankNeverMatches(Fixed(list), n);
    RefreshedIsEmpty("", list);
    TwiceRefreshedIsEmpty("", list);
    assert Numbers("") == [];
  }

  /** On a flickering list, with both properties empty and no network list, the first "no SIM"
      number is an emergency number after every even number of refreshes and after no odd one. */
  lemma FlickersForever(k: nat, list: seq<EccEntry>)
    requires Flickers(list)
    ensures Decision(map[], RefreshedTimes(k, "", list), RefreshedTimes(k, "", list), list, NoSim(list)[0]) <==> k % 2 == 0
  {
    FlickeringNumber(list);
    Alternates(k, Refreshed("", list), list);
  }

  /** No refresh beyond the `m`-th changes the answer to any number, in any network and SIM state. */
  ghost predicate FinalAfter(m: nat, list: seq<EccEntry>) {
    forall k: nat, network, sim1, sim2, n :: k >= m ==> SameAnswer(k, m, network, sim1, sim2, list, n)
  }

  /** The same for the numbers other than "" and "+". */
  ghost predicate OrdinaryFinalAfter(m: nat, list: seq<EccEntry>) {
    forall k: nat, network, sim1, sim2, n :: k >= m && n != "" && n != "+" ==> SameAnswer(k, m, network, sim1, sim2, list, n)
  }

  lemma OddAndEvenDiffer(j: nat, k: nat, list: seq<EccEntry>)
    requires Flickers(list) && j % 2 != k % 2
    ensures var n := NoSim(list)[0];
            n != "" && n != "+" && !SameAnswer(j, k, map[], "", "", list, n)
  {
    FlickersForever(j, list);
    FlickersForever(k, list);
    FlickeringNumber(list);
  }

  /** Two refreshes settle the answer to every number but "" and "+", and three the answer to every
      number, exactly on the lists that do not flicker; on the others no number of refreshes
      settles the answers. */
  lemma FinalExactly(list: seq<EccEntry>)
    ensures OrdinaryFinalAfter(2, list) <==> !Flickers(list)
    ensures FinalAfter(3, list) <==> !Flickers(list)
    ensures Flickers(list) ==> forall m: nat :: !OrdinaryFinalAfter(m, list)
  {
    if Flickers(list) {
      forall m: nat
        ensures !OrdinaryFinalAfter(m, list) && !FinalAfter(m, list)
      {
        OddAndEvenDiffer(m + 1, m, list);
      }
    } else {
      forall k: nat, network, sim1, sim2, n | k >= 2 && n != "" && n != "+"
        ensures SameAnswer(k, 2, network, sim1, sim2, list, n)
      {
        DecisionFinalAfterTwo(k, network, sim1, sim2, list, n);
      }
      forall k: nat, network, sim1, sim2, n | k >= 3
        ensures SameAnswer(k, 3, network, sim1, sim2, list, n)
      {
        DecisionFinalAfterThree(k, network, sim1, sim2, list, n);
      }
    }
  }

  // ----- when two refreshes are enough for "" and "+" too -----

  /** Nothing is fixed and the "no SIM" numbers, written one after the other, have an empty piece
      before a number: it is read until the next refresh drops it. */
  ghost predicate LateHole(list: seq<EccEntry>) {
    Fixed(list) == [] && HasHole(CutAll(NoSim(list), ','))
  }

  /** The texts the second and the third refresh make of a comma-only property when nothing is fixed. */
  lemma LateTexts(x: string, list: seq<EccEntry>)
    requires x != "" && Numbers(x) == [] && Fixed(list) == [] && NoSim(list) != [] && Flat(NoSim(list), ',') != []
    ensures RefreshedTimes(2, x, list) == Join(NoSim(list), ',') != ""
    ensures RefreshedTimes(3, x, list) == Join(Flat(NoSim(list), ','), ',') != ""
  {
    var F, S := Fixed(list), NoSim(list);
    Unfold(x, list);
    RefreshedIsEmpty(x, list);
    NoSimOnly(list);
    assert F + S == S && Flat(S, ',') + F == Flat(S, ',');
    FlatIsFree(S, ',');
    JoinIsEmpty(Flat(S, ','), ',');
  }

  lemma LateReadings(S: seq<string>, n: string)
    requires n == "" || n == "+"
    requires Join(S, ',') != "" && Join(Flat(S, ','), ',') != ""
    ensures SimMatch(Join(S, ','), n) <==> HasHole(CutAll(S, ',')) || (n == "+" && "+" in Flat(S, ','))
    ensures SimMatch(Join(Flat(S, ','), ','), n) <==> n == "+" && "+" in Flat(S, ',')
  {
    var T := Flat(S, ',');
    SimMatchBlank(Join(S, ','), n);
    PiecesOfJoin(S, ',');
    FlatIsNonEmptyCut(S, ',');
    NonEmptyMembers(CutAll(S, ','));
    FlatIsFree(S, ',');
    assert T + [] == T;
    ReadingOfWritten(T, [], n);
    BlankMatch(T, n);
  }

  lemma ThirdBlankReading(x: string, list: seq<EccEntry>, n: string)
    requires !Flickers(list) && !LateHole(list) && "" !in Fixed(list) && (n == "" || n == "+")
    ensures SameReading(RefreshedTimes(3, x, list), RefreshedTimes(2, x, list), n)
  {
    RefreshedIsEmpty(x, list);
    if x == "" || Refreshed(x, list) != "" {
      ThirdReading(x, list, n);
    } else if NoSim(list) == [] {
      Unfold(x, list);
      RefreshedIsEmpty("", list);
    } else {
      LateTexts(x, list);
      LateReadings(NoSim(list), n);
    }
  }

  lemma BlankFixed(network: map<string, int>, sim1: string, sim2: string, list: seq<EccEntry>, n: string)
    requires "" in Fixed(list) && (n == "" || n == "+")
    ensures Decision(network, sim1, sim2, list, n)
  {
    CustomMatchBlank(list, sim1 != "" || sim2 != "", n);
  }

  lemma BlankFinalAfterTwo(k: nat, network: map<string, int>, sim1: string, sim2: string, list: seq<EccEntry>, n: string)
    requires !Flickers(list) && !LateHole(list) && (n == "" || n == "+") && k >= 2
    ensures SameAnswer(k, 2, network, sim1, sim2, list, n)
  {
    hide Decision, RefreshedTimes, SimMatch, Flickers, LateHole;
    if "" in Fixed(list) {
      BlankFixed(network, RefreshedTimes(k, sim1, list), RefreshedTimes(k, sim2, list), list, n);
      BlankFixed(network, RefreshedTimes(2, sim1, list), RefreshedTimes(2, sim2, list), list, n);
    } else if k > 2 {
      ReadingFinal(k, sim1, list, n);
      ReadingFinal(k, sim2, list, n);
      ThirdBlankReading(sim1, list, n);
      ThirdBlankReading(sim2, list, n);
      SameDecision(network, RefreshedTimes(k, sim1, list), RefreshedTimes(2, sim1, list),
                   RefreshedTimes(k, sim2, list), RefreshedTimes(2, sim2, list), list, n);
    }
  }

  /** With a late hole the third refresh withdraws the answer to the empty number. */
  lemma LateHoleChanges(list: seq<EccEntry>)
    requires LateHole(list) && !Flickers(list)
    ensures !SameAnswer(3, 2, map[], ",", ",", list, "")
  {
    var S := NoSim(list);
    CommaOnly();
    LateTexts(",", list);
    LateReadings(S, "");
    CustomMatchBlank(list, true, "");
  }

  /** Two refreshes settle the answer to every number, "" and "+" included, exactly on the lists that
      neither flicker nor have a late hole. */
  lemma FinalAfterTwoExactly(list: seq<EccEntry>)
    ensures FinalAfter(2, list) <==> !Flickers(list) && !LateHole(list)
  {
    if Flickers(list) {
      OddAndEvenDiffer(3, 2, list);
    } else if LateHole(list) {
      LateHoleChanges(list);
    } else {
      forall k: nat, network, sim1, sim2, n | k >= 2
        ensures SameAnswer(k, 2, network, sim1, sim2, list, n)
      {
        if n == "" || n == "+" {
          BlankFinalAfterTwo(k, network, sim1, sim2, list, n);
        } else {
          DecisionFinalAfterTwo(k, network, sim1, sim2, list, n);
        }
      }
    }
  }

  /** With something fixed to write one refresh settles the answer to every number but "" and "+",
      and two the answer to every number. */
  lemma FixedSettles(k: nat, network: map<string, int>, sim1: string, sim2: string, list: seq<EccEntry>, n: string)
    requires !Blank(Fixed(list)) && k >= if n == "" || n == "+" then 2 else 1
    ensures SameAnswer(k, if n == "" || n == "+" then 2 else 1, network, sim1, sim2, list, n)
  {
    hide Decision, RefreshedTimes, SimMatch;
    if n == "" || n == "+" {
      BlankFinalAfterTwo(k, network, sim1, sim2, list, n);
    } else if k > 1 {
      DecisionFinalAfterTwo(k, network, sim1, sim2, list, n);
      SecondAsFirst(network, sim1, sim2, list, n);
    }
  }

  lemma SecondAsFirst(network: map<string, int>, sim1: string, sim2: string, list: seq<EccEntry>, n: string)
    requires !Blank(Fixed(list)) && n != "" && n != "+"
    ensures SameAnswer(2, 1, network, sim1, sim2, list, n)
  {
    hide Decision, Refreshed, RefreshedTimes;
    SecondRefreshChanges(network, sim1, sim2, list, n);
    Unfold(sim1, list);
    Unfold(sim2, list);
  }

  /** For instance the single "no SIM" number "a,,b". */
  lemma LateHoleExample()
    ensures var list := [EccEntry("a,,b", "", ECC_NO_SIM)];
            LateHole(list) && !Flickers(list)
  {
    var list := [EccEntry("a,,b", "", ECC_NO_SIM)];
    assert list[1..] == [];
    assert NoSim(list) == ["a,,b"] + NoSim([]) == ["a,,b"];
    var parts := ["a", "", "b"];
    assert Join(parts, ',') == "a,,b" by {
      assert parts[1..] == ["", "b"] && parts[1..][1..] == ["b"];
    }
    PiecesJoin(parts, ',');
    assert ["a,,b"][1..] == [];
    assert CutAll(["a,,b"], ',') == parts + CutAll([], ',') == parts;
    assert parts[1] == "" && parts[2] != "";
    FlatIsNonEmptyCut(["a,,b"], ',');
    NonEmptyMembers(parts);
    assert "a" in parts;
  }
}
