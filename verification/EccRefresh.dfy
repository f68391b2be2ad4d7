/**
  What rewriting a SIM list property does to the property and to later rewrites.
  No assumption is made on the customised list except where a lemma says so: entries may
  be empty, repeated or hold commas of their own.
 */
module EccRefresh {
  import opened Text
  import opened EccRules

  /** Every number a reader finds inside a fixed entry is itself a fixed entry. */
  ghost predicate Closed(fixed: seq<string>) {
    forall p <- Flat(fixed, ',') :: p in fixed
  }

  predicate Blank(fixed: seq<string>) {
    fixed == [] || fixed == [""]
  }

  // ----- reading back what was written -----

  lemma NumbersOfJoin(xs: seq<string>)
    ensures Numbers(Join(xs, ',')) == Flat(xs, ',')
  {
    NonEmptySplit(Join(xs, ','), ',');
    NonEmptyJoin(xs, ',');
  }

  lemma NumbersAreFlat(x: string)
    ensures Free(Numbers(x), ',') && "" !in Numbers(x)
    ensures Flat(Numbers(x), ',') == Numbers(x)
  {
    NonEmptySplit(x, ',');
    NonEmptyMembers(Pieces(x, ','));
    PiecesAreFree(x, ',');
    FlatOfFree(Numbers(x), ',');
    NonEmptyIdentity(Numbers(x));
  }

  /** The numbers of a non-empty property that survive next to the fixed list. */
  function Kept(x: string, fixed: seq<string>): seq<string> {
    RemoveAll(Numbers(x), fixed)
  }

  lemma KeptIsFree(x: string, fixed: seq<string>)
    ensures Free(Kept(x, fixed), ',') && "" !in Kept(x, fixed)
  {
    NumbersAreFlat(x);
    RemoveAllMembers(Numbers(x), fixed);
  }

  lemma FlatOfKept(x: string, fixed: seq<string>)
    ensures Flat(Kept(x, fixed), ',') == Kept(x, fixed)
  {
    KeptIsFree(x, fixed);
    FlatOfFree(Kept(x, fixed), ',');
    NonEmptyIdentity(Kept(x, fixed));
  }

  lemma ListOfEmpty(F: seq<string>, S: seq<string>)
    ensures RefreshedList("", F, S) == RemoveAll(F, S) + S
  {
    assert Numbers("") == [];
    assert RemoveAll([], F) + F == F;
  }

  lemma RefreshOfEmpty(list: seq<EccEntry>)
    ensures Refreshed("", list) == Join(RemoveAll(Fixed(list), NoSim(list)) + NoSim(list), ',')
  {
    ListOfEmpty(Fixed(list), NoSim(list));
  }

  lemma EmptyOnlyIfBlank(F: seq<string>, S: seq<string>)
    requires "" !in S
    ensures RemoveAll(F, S) + S == [] || RemoveAll(F, S) + S == [""] <==> Blank(F) && S == []
  {
    if S == [] {
      RemoveAllIdentity(F, S);
    } else {
      assert (RemoveAll(F, S) + S)[|RemoveAll(F, S)|] == S[0] && S[0] in S;
    }
  }

  lemma NothingKept(x: string, F: seq<string>)
    ensures Kept(x, F) + F == [] || Kept(x, F) + F == [""] <==> Blank(F) && Numbers(x) == []
  {
    var A := Kept(x, F);
    NumbersAreFlat(x);
    RemoveAllMembers(Numbers(x), F);
    if Blank(F) {
      RemoveAllIdentity(Numbers(x), F);
    }
    assert A != [] ==> A[0] == (A + F)[0] && A[0] in A;
  }

  /** When a refresh writes the empty string. */
  lemma RefreshedIsEmpty(x: string, list: seq<EccEntry>)
    ensures Refreshed(x, list) == "" <==>
            Blank(Fixed(list)) && (if x == "" then NoSim(list) == [] else Numbers(x) == [])
  {
    var F, S := Fixed(list), NoSim(list);
    if x == "" {
      RefreshOfEmpty(list);
      JoinIsEmpty(RemoveAll(F, S) + S, ',');
      EmptyOnlyIfBlank(F, S);
    } else {
      JoinIsEmpty(Kept(x, F) + F, ',');
      NothingKept(x, F);
    }
  }

  // ----- one more refresh of a non-empty property -----

  /** Pieces of the fixed numbers that are not fixed numbers themselves. */
  function Loose(fixed: seq<string>): seq<string> {
    RemoveAll(Flat(fixed, ','), fixed)
  }

  lemma KeptTwice(x: string, fixed: seq<string>)
    ensures Kept(Join(Kept(x, fixed) + fixed, ','), fixed) == Kept(x, fixed) + Loose(fixed)
  {
    var A := Kept(x, fixed);
    NumbersOfJoin(A + fixed);
    FlatOfConcat(A, fixed, ',');
    FlatOfKept(x, fixed);
    RemoveAllOfConcat(A, Flat(fixed, ','), fixed);
    RemoveAllMembers(Numbers(x), fixed);
    RemoveAllIdentity(A, fixed);
  }

  /** What one and two refreshes of a property that is neither empty nor emptied write. */
  lemma WrittenTwice(x: string, list: seq<EccEntry>)
    requires x != "" && Refreshed(x, list) != ""
    ensures var F := Fixed(list);
            && Refreshed(x, list) == Join(Kept(x, F) + F, ',')
            && Refreshed(Refreshed(x, list), list) == Join(Kept(x, F) + Loose(F) + F, ',')
  {
    KeptTwice(x, Fixed(list));
  }

  /** A property that was not empty and was not emptied is left alone by a second refresh
      exactly when the fixed list is closed; otherwise the property grows. */
  lemma SecondRefresh(x: string, list: seq<EccEntry>)
    requires x != "" && Refreshed(x, list) != ""
    ensures Closed(Fixed(list)) ==> Refreshed(Refreshed(x, list), list) == Refreshed(x, list)
    ensures !Closed(Fixed(list)) ==> |Refreshed(Refreshed(x, list), list)| > |Refreshed(x, list)|
  {
    var F := Fixed(list);
    WrittenTwice(x, list);
    RemoveAllIsEmpty(Flat(F, ','), F);
    if Loose(F) == [] {
      assert Kept(x, F) + Loose(F) == Kept(x, F);
    } else {
      LongerJoin(Kept(x, F), Loose(F), F);
    }
  }

  lemma LongerJoin(xs: seq<string>, more: seq<string>, ys: seq<string>)
    requires more != [] && xs + ys != []
    ensures |Join(xs + more + ys, ',')| > |Join(xs + ys, ',')|
  {
    JoinLength(xs + ys, ',');
    JoinLength(xs + more + ys, ',');
    WeightOfConcat(xs + more, ys);
    WeightOfConcat(xs, more);
    WeightOfConcat(xs, ys);
  }

  /** A non-empty property settles after one refresh: the exact condition. */
  lemma SettlesAfterOne(x: string, list: seq<EccEntry>)
    requires x != ""
    ensures Refreshed(Refreshed(x, list), list) == Refreshed(x, list) <==>
            if Blank(Fixed(list)) && Numbers(x) == [] then NoSim(list) == [] else Closed(Fixed(list))
  {
    RefreshedIsEmpty(x, list);
    if Refreshed(x, list) == "" {
      RefreshedIsEmpty("", list);
    } else {
      SecondRefresh(x, list);
    }
  }

  // ----- three refreshes against two -----

  /** The list on which every property has settled after two refreshes. */
  ghost predicate Settling(list: seq<EccEntry>) {
    var F, S := Fixed(list), NoSim(list);
    && Closed(F)
    && (S != [] ==> F != [""])
    && (S != [] && F == [] ==> forall s <- S :: "" !in Pieces(s, ','))
  }

  lemma NoSimOnly(list: seq<EccEntry>)
    requires Blank(Fixed(list)) && NoSim(list) != []
    ensures Refreshed("", list) == Join(Fixed(list) + NoSim(list), ',') != ""
    ensures Refreshed(Refreshed("", list), list) == Join(Flat(NoSim(list), ',') + Fixed(list), ',')
  {
    var F, S := Fixed(list), NoSim(list);
    RefreshOfEmpty(list);
    RemoveAllIdentity(F, S);
    RefreshedIsEmpty("", list);
    NumbersOfJoin(F + S);
    FlatOfConcat(F, S, ',');
    assert Flat(F, ',') == [] by {
      FlatOfFree(F, ',');
      NonEmptyMembers(F);
    }
    assert Flat(F, ',') + Flat(S, ',') == Flat(S, ',');
    FlatIsFree(S, ',');
    RemoveAllIdentity(Flat(S, ','), F);
  }

  lemma {:induction false} FlatWithoutEmptyPieces(S: seq<string>)
    requires S != [] && forall s <- S :: "" !in Pieces(s, ',')
    ensures Flat(S, ',') != [] && Join(Flat(S, ','), ',') == Join(S, ',')
  {
    AllPieces(S);
    NonEmptyJoin(S, ',');
    NonEmptyIdentity(Pieces(Join(S, ','), ','));
    JoinPieces(Join(S, ','), ',');
  }

  lemma {:induction false} AllPieces(S: seq<string>)
    requires S != []
    ensures forall p :: p in Pieces(Join(S, ','), ',') <==> exists s :: s in S && p in Pieces(s, ',')
  {
    if |S| == 1 {
      assert forall s :: s in S <==> s == S[0];
    } else {
      var tail := Join(S[1..], ',');
      AllPieces(S[1..]);
      PiecesOfConcat(S[0], tail, ',');
      forall p
        ensures p in Pieces(Join(S, ','), ',') <==> exists s :: s in S && p in Pieces(s, ',')
      {
        if s :| s in S && p in Pieces(s, ',') {
          assert s == S[0] || s in S[1..];
        }
      }
    }
  }

  lemma Unfold(x: string, list: seq<EccEntry>)
    ensures RefreshedTimes(1, x, list) == Refreshed(x, list)
    ensures RefreshedTimes(2, x, list) == Refreshed(Refreshed(x, list), list)
    ensures RefreshedTimes(3, x, list) == Refreshed(Refreshed(Refreshed(x, list), list), list)
  {
    var y, z := Refreshed(x, list), Refreshed(Refreshed(x, list), list);
    assert RefreshedTimes(1, z, list) == RefreshedTimes(0, Refreshed(z, list), list);
    assert RefreshedTimes(1, y, list) == RefreshedTimes(0, z, list);
    assert RefreshedTimes(2, y, list) == RefreshedTimes(1, z, list);
  }

  lemma SettlesAfterTwo(x: string, list: seq<EccEntry>)
    requires Settling(list)
    ensures RefreshedTimes(3, x, list) == RefreshedTimes(2, x, list)
  {
    var y := Refreshed(x, list);
    var z := Refreshed(y, list);
    Unfold(x, list);
    RefreshedIsEmpty(x, list);
    RefreshedIsEmpty(y, list);
    if y != "" && x != "" {
      SecondRefresh(x, list);
    } else if NoSim(list) == [] && Blank(Fixed(list)) {
      if y == "" {
        RefreshedIsEmpty("", list);
      }
    } else if y != "" && !Blank(Fixed(list)) {
      SecondRefresh(y, list);
    } else {
      NoSimOnly(list);
      FlatWithoutEmptyPieces(NoSim(list));
      assert Fixed(list) + NoSim(list) == NoSim(list);
      assert Flat(NoSim(list), ',') + Fixed(list) == Flat(NoSim(list), ',');
    }
  }

  /** On a list that is not settling the third refresh still changes the one-comma property. */
  lemma ThirdRefreshMoves(list: seq<EccEntry>)
    requires !Settling(list)
    ensures RefreshedTimes(3, ",", list) != RefreshedTimes(2, ",", list)
  {
    var F, S := Fixed(list), NoSim(list);
    var y := Refreshed(",", list);
    var z := Refreshed(y, list);
    Unfold(",", list);
    CommaOnly();
    RefreshedIsEmpty(",", list);
    if !Blank(F) {
      SecondRefresh(",", list);
      SecondRefresh(y, list);
    } else {
      BlankIsClosed(F);
      NoSimOnly(list);
      var T := Flat(S, ',');
      if F == [""] {
        CommaFirst(S);
        FlatIsFree(S, ',');
        if T == [] {
          assert T + F == [""];
        } else {
          assert T[0] in T;
          FirstOfJoin(T + F);
        }
      } else {
        assert F + S == S && T + F == T;
        NotEmptyFree(S);
      }
    }
  }

  lemma CommaOnly()
    ensures Numbers(",") == []
  {}

  lemma BlankIsFlat(F: seq<string>)
    requires Blank(F)
    ensures Flat(F, ',') == []
  {
    FlatOfFree(F, ',');
    NonEmptyMembers(F);
  }

  lemma BlankIsClosed(F: seq<string>)
    requires Blank(F)
    ensures Closed(F)
  {
    BlankIsFlat(F);
  }

  lemma CommaFirst(S: seq<string>)
    requires S != []
    ensures Join([""] + S, ',') != "" && Join([""] + S, ',')[0] == ','
  {}

  lemma FirstOfJoin(T: seq<string>)
    requires T != [] && T[0] != ""
    ensures Join(T, ',') != "" && Join(T, ',')[0] == T[0][0]
  {}

  lemma NotEmptyFree(S: seq<string>)
    requires S != [] && "" !in S && exists s <- S :: "" in Pieces(s, ',')
    ensures Join(Flat(S, ','), ',') != Join(S, ',')
  {
    var T := Flat(S, ',');
    FlatIsFree(S, ',');
    AllPieces(S);
    JoinIsEmpty(S, ',');
    assert S[0] in S;
    if T != [] {
      PiecesJoin(T, ',');
    }
  }

  /** Three refreshes equal two, for every property text, on exactly the settling lists. */
  lemma StabilisesExactly(list: seq<EccEntry>)
    ensures (forall x :: RefreshedTimes(3, x, list) == RefreshedTimes(2, x, list)) <==> Settling(list)
  {
    if Settling(list) {
      forall x
        ensures RefreshedTimes(3, x, list) == RefreshedTimes(2, x, list)
      {
        SettlesAfterTwo(x, list);
      }
    } else {
      ThirdRefreshMoves(list);
    }
  }

  lemma {:induction false} FixedPoint(k: nat, z: string, list: seq<EccEntry>)
    requires Refreshed(z, list) == z
    ensures RefreshedTimes(k, z, list) == z
  {
    hide Refreshed;
    if k > 0 {
      FixedPoint(k - 1, z, list);
    }
  }

  lemma SkipTwo(k: nat, x: string, list: seq<EccEntry>)
    requires k >= 2
    ensures RefreshedTimes(k, x, list) == RefreshedTimes(k - 2, Refreshed(Refreshed(x, list), list), list)
  {
    assert RefreshedTimes(k, x, list) == RefreshedTimes(k - 1, Refreshed(x, list), list);
  }

  /** Once settled, always settled: no later refresh, in any quantity, changes the property. */
  lemma SettledForever(k: nat, x: string, list: seq<EccEntry>)
    requires Settling(list) && k >= 2
    ensures RefreshedTimes(k, x, list) == RefreshedTimes(2, x, list)
  {
    SettlesAfterTwo(x, list);
    SettledFrom(k, x, Refreshed(Refreshed(x, list), list), list);
  }

  lemma SettledFrom(k: nat, x: string, z: string, list: seq<EccEntry>)
    requires k >= 2 && z == Refreshed(Refreshed(x, list), list)
    requires RefreshedTimes(3, x, list) == RefreshedTimes(2, x, list)
    ensures RefreshedTimes(k, x, list) == RefreshedTimes(2, x, list)
  {
    Unfold(x, list);
    SkipTwo(k, x, list);
    FixedPoint(k - 2, z, list);
  }

  // ----- whether the rewrite ever stops -----

  /** Nothing fixed to write, and "no SIM" numbers in which a reader finds no number. */
  predicate Flickers(list: seq<EccEntry>) {
    Blank(Fixed(list)) && NoSim(list) != [] && Flat(NoSim(list), ',') == []
  }

  /** With nothing fixed a refresh keeps the numbers of a property, and gives an empty one the
      pieces of the "no SIM" numbers. */
  lemma NumbersWithoutFixed(x: string, list: seq<EccEntry>)
    requires Blank(Fixed(list))
    ensures Numbers(Refreshed(x, list)) == if x == "" then Flat(NoSim(list), ',') else Numbers(x)
  {
    var F, S := Fixed(list), NoSim(list);
    BlankIsFlat(F);
    if x == "" {
      RefreshOfEmpty(list);
      RemoveAllIdentity(F, S);
      NumbersOfJoin(F + S);
      FlatOfConcat(F, S, ',');
    } else {
      NumbersAreFlat(x);
      RemoveAllIdentity(Numbers(x), F);
      NumbersOfJoin(Numbers(x) + F);
      FlatOfConcat(Numbers(x), F, ',');
    }
  }

  /** When two refreshes leave a property empty. */
  lemma TwiceRefreshedIsEmpty(x: string, list: seq<EccEntry>)
    ensures Refreshed(Refreshed(x, list), list) == "" <==>
            Blank(Fixed(list)) && if NoSim(list) == [] then Numbers(x) == [] else x == "" && Flat(NoSim(list), ',') == []
  {
    RefreshedIsEmpty(x, list);
    RefreshedIsEmpty(Refreshed(x, list), list);
    if Blank(Fixed(list)) {
      NumbersWithoutFixed(x, list);
    }
    assert Numbers("") == [];
  }

  /** A property that is neither empty nor emptied by a refresh. */
  predicate Running(x: string, list: seq<EccEntry>) {
    x != "" && Refreshed(x, list) != ""
  }

  lemma StaysRunning(x: string, list: seq<EccEntry>)
    requires Running(x, list)
    ensures Running(Refreshed(x, list), list)
  {
    RefreshedIsEmpty(x, list);
    TwiceRefreshedIsEmpty(x, list);
  }

  /** On a list that does not flicker two refreshes make every property run or stay empty. */
  lemma RunningAfterTwo(x: string, list: seq<EccEntry>)
    requires !Flickers(list)
    ensures var z := Refreshed(Refreshed(x, list), list);
            (z == "" && Refreshed(z, list) == z) || Running(z, list)
  {
    var y := Refreshed(x, list);
    TwiceRefreshedIsEmpty(x, list);
    TwiceRefreshedIsEmpty(y, list);
    RefreshedIsEmpty("", list);
    if Blank(Fixed(list)) {
      NumbersWithoutFixed(x, list);
      RefreshedIsEmpty(x, list);
    }
  }

  /** From the `m`-th refresh on the property never changes again. */
  ghost predicate AtRest(m: nat, x: string, list: seq<EccEntry>) {
    forall k: nat :: k >= m ==> RefreshedTimes(k, x, list) == RefreshedTimes(m, x, list)
  }

  ghost predicate ComesToRest(x: string, list: seq<EccEntry>) {
    exists m: nat :: AtRest(m, x, list)
  }

  lemma Peel(k: nat, x: string, y: string, list: seq<EccEntry>)
    requires y == Refreshed(x, list)
    ensures RefreshedTimes(k + 1, x, list) == RefreshedTimes(k, y, list)
  {}

  lemma {:induction false} Later(j: nat, k: nat, x: string, z: string, list: seq<EccEntry>)
    requires z == RefreshedTimes(j, x, list)
    ensures RefreshedTimes(j + k, x, list) == RefreshedTimes(k, z, list)
    decreases j
  {
    hide Refreshed;
    if j > 0 {
      var y := Refreshed(x, list);
      Peel(j - 1 + k, x, y, list);
      Peel(j - 1, x, y, list);
      Later(j - 1, k, y, z, list);
    }
  }

  lemma OneMore(k: nat, x: string, list: seq<EccEntry>)
    ensures RefreshedTimes(k + 1, x, list) == Refreshed(RefreshedTimes(k, x, list), list)
  {
    hide Refreshed, RefreshedTimes;
    var z := RefreshedTimes(k, x, list);
    Later(k, 1, x, z, list);
    Unfold(z, list);
  }

  lemma RestsFrom(m: nat, x: string, list: seq<EccEntry>)
    requires var z := RefreshedTimes(m, x, list); Refreshed(z, list) == z
    ensures AtRest(m, x, list)
  {
    var z := RefreshedTimes(m, x, list);
    forall k: nat | k >= m
      ensures RefreshedTimes(k, x, list) == z
    {
      Later(m, k - m, x, z, list);
      FixedPoint(k - m, z, list);
    }
  }

  lemma RestsAtThird(x: string, list: seq<EccEntry>)
    requires Closed(Fixed(list)) && (Flickers(list) ==> Numbers(x) != [])
    ensures AtRest(3, x, list)
  {
    var y := Refreshed(x, list);
    var z := Refreshed(y, list);
    Unfold(x, list);
    if Flickers(list) {
      assert Numbers("") == [];
      RefreshedIsEmpty(x, list);
      SecondRefresh(x, list);
    } else {
      RunningAfterTwo(x, list);
      if z != "" {
        SecondRefresh(z, list);
      }
    }
    RestsFrom(3, x, list);
  }

  lemma {:induction false} RunsForever(k: nat, x: string, list: seq<EccEntry>)
    requires Running(x, list)
    ensures Running(RefreshedTimes(k, x, list), list)
    decreases k
  {
    if k > 0 {
      StaysRunning(x, list);
      RunsForever(k - 1, Refreshed(x, list), list);
    }
  }

  /** When the fixed list is not closed, every refresh from the third on makes every property longer. */
  lemma GrowsForever(k: nat, x: string, list: seq<EccEntry>)
    requires !Closed(Fixed(list)) && k >= 2
    ensures |RefreshedTimes(k + 1, x, list)| > |RefreshedTimes(k, x, list)|
  {
    var y := Refreshed(x, list);
    if Blank(Fixed(list)) {
      BlankIsClosed(Fixed(list));
    }
    RefreshedIsEmpty(x, list);
    RefreshedIsEmpty(y, list);
    hide Refreshed, RefreshedTimes, Closed;
    RunsForever(k - 2, y, list);
    SecondRefresh(RefreshedTimes(k - 2, y, list), list);
    OneMore(k - 2, y, list);
    OneMore(k - 1, y, list);
    Peel(k - 1, x, y, list);
    Peel(k, x, y, list);
  }

  lemma {:induction false} Alternates(k: nat, z: string, list: seq<EccEntry>)
    requires z == Refreshed("", list) && Refreshed(z, list) == ""
    ensures RefreshedTimes(k, "", list) == if k % 2 == 0 then "" else z
    ensures RefreshedTimes(k, z, list) == if k % 2 == 0 then z else ""
  {
    hide Refreshed;
    if k > 0 {
      Alternates(k - 1, z, list);
    }
  }

  lemma FlickerTexts(x: string, z: string, list: seq<EccEntry>)
    requires Flickers(list) && Numbers(x) == [] && z == Refreshed("", list)
    ensures z != "" && Refreshed(z, list) == "" && Refreshed(x, list) == if x == "" then z else ""
  {
    RefreshedIsEmpty(x, list);
    RefreshedIsEmpty("", list);
    TwiceRefreshedIsEmpty("", list);
  }

  /** On a flickering list a property without numbers alternates from the first refresh on. */
  lemma NeverTheSame(k: nat, x: string, list: seq<EccEntry>)
    requires Flickers(list) && Numbers(x) == [] && k >= 1
    ensures RefreshedTimes(k + 1, x, list) != RefreshedTimes(k, x, list)
  {
    hide Refreshed, RefreshedTimes, Numbers, Flickers;
    var z := Refreshed("", list);
    FlickerTexts(x, z, list);
    Alternates(k - 1, z, list);
    Alternates(k, z, list);
    Peel(k - 1, x, Refreshed(x, list), list);
    Peel(k, x, Refreshed(x, list), list);
  }

  lemma StillMoving(m: nat, k: nat, x: string, list: seq<EccEntry>)
    requires m <= k && RefreshedTimes(k + 1, x, list) != RefreshedTimes(k, x, list)
    ensures !AtRest(m, x, list)
  {}

  /** The rewrite of a property ever stops if and only if the fixed list is closed and, where the
      list flickers, the property holds a number; it has then stopped by the third refresh. */
  lemma RestsExactly(x: string, list: seq<EccEntry>)
    ensures ComesToRest(x, list) <==> Closed(Fixed(list)) && (Flickers(list) ==> Numbers(x) != [])
    ensures ComesToRest(x, list) ==> AtRest(3, x, list)
  {
    if Closed(Fixed(list)) && (Flickers(list) ==> Numbers(x) != []) {
      RestsAtThird(x, list);
    } else {
      forall m: nat
        ensures !AtRest(m, x, list)
      {
        var k := m + 2;
        if !Closed(Fixed(list)) {
          GrowsForever(k, x, list);
        } else {
          NeverTheSame(k, x, list);
        }
        StillMoving(m, k, x, list);
      }
    }
  }

  /** The single "no SIM" number "," makes a list that flickers and does not settle. */
  lemma CommaFlickers()
    ensures var list := [EccEntry(",", "0", ECC_NO_SIM)];
            Flickers(list) && !Settling(list)
  {
    var list := [EccEntry(",", "0", ECC_NO_SIM)];
    assert list[1..] == [];
    assert NoSim(list) == [","] + NoSim([]) == [","];
    CommaOnly();
    NonEmptySplit(",", ',');
    assert [","][1..] == [];
    assert Flat([","], ',') == NonEmpty(Pieces(",", ',')) + Flat([], ',');
    assert "," in NoSim(list) && Pieces(",", ',')[0] == "";
  }

  /** A list can fail to settle by the second refresh and still come to rest at the third. */
  lemma RestsOnlyAtThird()
    ensures var list := [EccEntry("", "", "1"), EccEntry("a", "", ECC_NO_SIM)];
            !Settling(list) && forall x :: AtRest(3, x, list)
  {
    var first, second := EccEntry("", "", "1"), EccEntry("a", "", ECC_NO_SIM);
    var list := [first, second];
    assert list[1..] == [second] && [second][1..] == [];
    assert NoSim([second]) == ["a"] + NoSim([]) && Fixed([second]) == [] + Fixed([]);
    assert NoSim(list) == [] + NoSim([second]) == ["a"];
    assert Fixed(list) == [""] + Fixed([second]) == [""];
    BlankIsClosed([""]);
    FlatOfFree(["a"], ',');
    NonEmptyIdentity(["a"]);
    forall x
      ensures AtRest(3, x, list)
    {
      RestsAtThird(x, list);
    }
  }

  /** A well-formed list, with comma-free and non-empty numbers, is settling and does not flicker. */
  lemma WellFormedSettles(list: seq<EccEntry>)
    requires CommaFree(list) && forall e <- list :: e.ecc != ""
    ensures Settling(list) && !Flickers(list)
  {
    var F, S := Fixed(list), NoSim(list);
    FixedAndNoSimAreFree(list);
    FlatOfFree(F, ',');
    NonEmptyMembers(F);
    FlatOfFree(S, ',');
    NonEmptyIdentity(S);
    forall s | s in S
      ensures "" !in Pieces(s, ',')
    {
      PiecesWithoutSeparator(s, ',');
    }
    FixedAreNonEmpty(list);
  }

  lemma FixedAreNonEmpty(list: seq<EccEntry>)
    requires forall e <- list :: e.ecc != ""
    ensures "" !in Fixed(list)
  {}

  // ----- exact contents -----

  lemma FixedAndNoSimAreFree(list: seq<EccEntry>)
    requires CommaFree(list)
    ensures Free(Fixed(list), ',') && Free(NoSim(list), ',')
  {}

  /** What a refresh is to write: the old non-empty numbers that are not fixed, in order, then the
      fixed list; or, for an empty property, the fixed numbers that are not "no SIM" numbers, then
      the "no SIM" numbers. */
  function Written(x: string, list: seq<EccEntry>): seq<string> {
    if x == "" then RemoveAll(Fixed(list), NoSim(list)) + NoSim(list)
    else RemoveAll(Numbers(x), Fixed(list)) + Fixed(list)
  }

  lemma RefreshWrites(x: string, list: seq<EccEntry>)
    ensures Refreshed(x, list) == Join(Written(x, list), ',')
  {
    RefreshOfEmpty(list);
  }

  lemma WrittenIsFree(x: string, list: seq<EccEntry>)
    requires CommaFree(list)
    ensures Free(Written(x, list), ',')
  {
    FixedAndNoSimAreFree(list);
    NumbersAreFlat(x);
    RemoveAllMembers(Numbers(x), Fixed(list));
    RemoveAllMembers(Fixed(list), NoSim(list));
  }

  lemma JoinedContents(xs: seq<string>)
    ensures xs != [] ==> Pieces(Join(xs, ','), ',') == CutAll(xs, ',')
    ensures Numbers(Join(xs, ',')) == Flat(xs, ',')
    ensures Free(xs, ',') && xs != [] ==> (Split(Join(xs, ','), ',') == xs <==> xs[|xs| - 1] != "" || |xs| == 1)
  {
    NumbersOfJoin(xs);
    if xs != [] {
      PiecesOfJoin(xs, ',');
      if Free(xs, ',') {
        SplitJoin(xs, ',');
      }
    }
  }

  /** On every list the written text cuts into the pieces of what is to be written; when no list
      number holds a comma, Java's split gives that list itself back exactly when its last number
      is not empty or it has only one. */
  lemma WrittenContents(x: string, list: seq<EccEntry>)
    ensures var w, text := Written(x, list), Refreshed(x, list);
            && (w != [] ==> Pieces(text, ',') == CutAll(w, ','))
            && Numbers(text) == Flat(w, ',')
            && (CommaFree(list) && w != [] ==> (Split(text, ',') == w <==> w[|w| - 1] != "" || |w| == 1))
  {
    RefreshWrites(x, list);
    JoinedContents(Written(x, list));
    if CommaFree(list) {
      WrittenIsFree(x, list);
    }
  }

  lemma NoDuplicatesOfConcat(xs: seq<string>, ys: seq<string>)
    requires forall x <- xs :: x !in ys
    ensures NoDuplicates(xs + ys) <==> NoDuplicates(xs) && NoDuplicates(ys)
  {
    var both := xs + ys;
    assert forall i :: 0 <= i < |xs| ==> both[i] == xs[i];
    assert forall i :: 0 <= i < |ys| ==> both[|xs| + i] == ys[i];
    if NoDuplicates(xs) && NoDuplicates(ys) {
      forall i, j | 0 <= i < j < |both|
        ensures both[i] != both[j]
      {
        if i < |xs| <= j {
          assert xs[i] in xs && ys[j - |xs|] in ys;
        } else if |xs| <= i {
          assert both[i] == ys[i - |xs|] && both[j] == ys[j - |xs|];
        }
      }
    }
  }

  /** The merge removes duplicates between the property and the lists, and no others: the
      written list repeats nothing exactly when neither part repeats anything by itself. */
  lemma WrittenWithoutDuplicates(x: string, list: seq<EccEntry>)
    ensures var F, S := Fixed(list), NoSim(list);
            NoDuplicates(RefreshedList(x, F, S)) <==>
            if x == "" then NoDuplicates(RemoveAll(F, S)) && NoDuplicates(S)
            else NoDuplicates(RemoveAll(Numbers(x), F)) && NoDuplicates(F)
    ensures NoDuplicates(Numbers(x)) && NoDuplicates(Fixed(list)) && NoDuplicates(NoSim(list)) ==>
              NoDuplicates(RefreshedList(x, Fixed(list), NoSim(list)))
  {
    var F, S := Fixed(list), NoSim(list);
    if x == "" {
      assert RemoveAll([], F) + F == F;
      assert Numbers(x) == [];
      RemoveAllMembers(F, S);
      NoDuplicatesOfConcat(RemoveAll(F, S), S);
      if NoDuplicates(F) {
        RemoveAllKeepsNoDuplicates(F, S);
      }
    } else {
      RemoveAllMembers(Numbers(x), F);
      NoDuplicatesOfConcat(RemoveAll(Numbers(x), F), F);
      if NoDuplicates(Numbers(x)) {
        RemoveAllKeepsNoDuplicates(Numbers(x), F);
      }
    }
  }

  /** A number repeated inside the property, such as "5,5", stays repeated. */
  lemma RepeatedNumberStays()
    ensures Refreshed("5,5", []) == "5,5" && !NoDuplicates(RefreshedList("5,5", Fixed([]), NoSim([])))
  {
    var fives := ["5", "5"];
    hide Split, Refreshed, Pieces;
    assert Numbers("5,5") == fives by {
      assert "5,5" == "5" + [','] + "5";
      SplitTwo("5", "5", ',');
      NonEmptyIdentity(fives);
    }
    hide Numbers;
    RemoveAllIdentity(fives, []);
    assert fives + [] == fives;
    assert Join(fives, ',') == "5,5" by {
      assert fives[1..] == ["5"];
    }
    RefreshWrites("5,5", []);
    assert fives[0] == fives[1];
  }
}
