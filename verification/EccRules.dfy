/**
  The emergency-number rules of MtkEccList as functions of the customised list, the
  network's category list and the two SIM list properties.
 */
module EccRules {
  import opened Text
  import opened Numerals

  datatype EccEntry = EccEntry(ecc: string, category: string, condition: string)

  const ECC_NO_SIM := "0"
  const ECC_FOR_MMI := "2"

  // ----- the customised list -----

  /** Numbers of the entries whose condition is not "no SIM". */
  function Fixed(list: seq<EccEntry>): seq<string> {
    if list == [] then []
    else (if list[0].condition != ECC_NO_SIM then [list[0].ecc] else []) + Fixed(list[1..])
  }

  /** Non-empty numbers of the "no SIM" entries. */
  function NoSim(list: seq<EccEntry>): (ns: seq<string>)
    ensures "" !in ns
  {
    if list == [] then []
    else
      (if list[0].condition == ECC_NO_SIM && list[0].ecc != "" then [list[0].ecc] else []) + NoSim(list[1..])
  }

  ghost predicate CommaFree(list: seq<EccEntry>) {
    forall e <- list :: ',' !in e.ecc
  }

  // ----- the periodic rewrite of one SIM list property -----

  /** The non-empty numbers of a comma-separated property. */
  function Numbers(x: string): seq<string> {
    NonEmpty(Split(x, ','))
  }

  function RefreshedList(x: string, fixed: seq<string>, noSim: seq<string>): seq<string> {
    var merged := RemoveAll(Numbers(x), fixed) + fixed;
    if x == "" then RemoveAll(merged, noSim) + noSim else merged
  }

  function Refreshed(x: string, list: seq<EccEntry>): string {
    Join(RefreshedList(x, Fixed(list), NoSim(list)), ',')
  }

  function RefreshedTimes(k: nat, x: string, list: seq<EccEntry>): string {
    if k == 0 then x else RefreshedTimes(k - 1, Refreshed(x, list), list)
  }

  // ----- the decision -----

  /** A dialled number meets a listed one with or without a trailing plus sign. */
  predicate Matches(ecc: string, number: string) {
    ecc == number || ecc + "+" == number
  }

  predicate AnyMatch(eccs: seq<string>, number: string) {
    exists e <- eccs :: Matches(e, number)
  }

  predicate SimMatch(x: string, number: string) {
    x != "" && AnyMatch(Split(x, ','), number)
  }

  /** An inserted SIM (told by a non-empty property) hides the "no SIM" entries. */
  predicate CustomMatch(list: seq<EccEntry>, simInserted: bool, number: string) {
    exists e <- list :: (simInserted ==> e.condition != ECC_NO_SIM) && Matches(e.ecc, number)
  }

  predicate NetworkMatch(network: map<string, int>, number: string) {
    exists k <- network :: Matches(k, number)
  }

  predicate Decision(network: map<string, int>, sim1: string, sim2: string, list: seq<EccEntry>, number: string) {
    || NetworkMatch(network, number)
    || SimMatch(sim1, number)
    || SimMatch(sim2, number)
    || CustomMatch(list, sim1 != "" || sim2 != "", number)
  }

  // ----- the network's category list -----

  /** Loading the table stops at the first malformed category, keeping what was loaded. */
  datatype NetworkLoad = Loaded(table: map<string, int>) | Threw(table: map<string, int>)

  function LoadPairs(pieces: seq<string>, table: map<string, int>): NetworkLoad {
    if pieces == [] then Loaded(table)
    else
      var fields := Split(pieces[0], ',');
      if pieces[0] == "" || |fields| != 2 then LoadPairs(pieces[1..], table)
      else
        match ParseInt(fields[1])
        case None => Threw(table)
        case Some(category) => LoadPairs(pieces[1..], table[fields[0] := category])
  }

  function LoadNetwork(property: string): NetworkLoad {
    if property == "" then Loaded(map[]) else LoadPairs(Split(property, ';'), map[])
  }

  /** The (number, category) fields of the network's list, in order. */
  function Pairs(pieces: seq<string>): seq<(string, string)> {
    if pieces == [] then []
    else
      var fields := Split(pieces[0], ',');
      (if pieces[0] != "" && |fields| == 2 then [(fields[0], fields[1])] else []) + Pairs(pieces[1..])
  }

  // ----- the category -----

  /** Category of the first customised entry that matches, 0 when none does. */
  function CustomCategory(list: seq<EccEntry>, number: string): Option<int> {
    if list == [] then Some(0)
    else if Matches(list[0].ecc, number) then ParseInt(list[0].category)
    else CustomCategory(list[1..], number)
  }

  /** The network table is walked in hash order, so any matching key may answer. */
  ghost predicate CategoryAnswer(network: map<string, int>, list: seq<EccEntry>, number: string, c: Option<int>) {
    if NetworkMatch(network, number) then
      exists k <- network :: Matches(k, number) && c == Some(network[k])
    else
      c == CustomCategory(list, number)
  }
}
