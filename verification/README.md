# Verified model of the device logic

This project models, in Dafny, the four parts of the device tree that carry real logic, and proves
what they keep and what they compute:

* the emergency-number engine (`MtkEccList`): the customised list built from `ecc_list.xml` with the
  CTA overlay, the emergency decision, the service category, and the periodic rewrite of the two SIM
  list properties, whose result feeds back into the decision;
* the radio wrapper (`MT6735`): the data-call table, the airplane-mode and modem-power machine, the
  dispatch of solicited replies and the emergency dial;
* the ramdump status block (`mrdump_status.c`): the destructive line tokenizer and the
  read-modify-write of a block inside a partition;
* the Wi-Fi private command library: the two bounded report writers and the single-channel /
  multi-channel machine with its frequency table.

Code that changes things in place is a class or a method with loops, proved against a specification
function; the properties are then proved about those functions, over every input, every run or every
interleaving. `Text.Pieces` (cutting a text at a separator) is shared by the Java `split`, the status
tokenizer and the report framing.

`dafny verify dfyconfig.toml` checks the whole project.

## What turned out not to hold

* Refreshing a property is not always stable. Three refreshes equal two for every property text
  exactly on the lists described by `EccRefresh.Settling` (`StabilisesExactly`): the fixed list must
  be closed under the pieces a reader finds in it, and if there are "no SIM" numbers the fixed list
  must not be a single empty number, nor may it be empty while a "no SIM" number has an empty piece.
  On every other list the third refresh still changes the one-comma property (`ThirdRefreshMoves`);
  the single "no SIM" number "," makes such a list (`CommaFlickers`).
* The rewrite of a property need not ever stop. It stops if and only if the fixed list is closed and,
  where the list flickers, the property holds a number (`RestsExactly`); it has then stopped by the
  third refresh, also on some lists that are not settling (`RestsOnlyAtThird`). Without a closed fixed
  list every refresh from the third on makes the property longer (`GrowsForever`). A list flickers when
  there is nothing fixed to write and its "no SIM" numbers are there but hold no piece a reader finds.
  Well-formed lists, with comma-free and non-empty numbers, settle (`WellFormedSettles`).
* The source calls the merge a "dedupe", but a number repeated inside the property, such as "5,5",
  stays repeated (`RepeatedNumberStays`); `WrittenWithoutDuplicates` gives the exact condition.
* One refresh does not settle the decision (`OneRefreshIsNotFinal`); `SecondRefreshChanges` says exactly
  when the second still changes the answer to a number other than "" and "+". Two refreshes settle the
  answer to every number but these two, and three the answer to every number, exactly on the lists that
  do not flicker (`FinalExactly`); on the others an answer alternates for ever (`FlickersForever`). Two
  are enough for "" and "+" as well exactly when, besides, the list has no late hole
  (`FinalAfterTwoExactly`): nothing fixed, and "no SIM" numbers that, written one after the other,
  have an empty piece before a number, as the single number "a,,b" does (`LateHoleExample`).
* A refresh can withdraw an answer (`CommaLosesANumber`). To a number other than "" and "+" it can
  exactly on the lists of `LosesExactly`, to "" or "+" exactly on those of `LosesBlankExactly`; a
  well-formed list is one of the second kind only (`WellFormedLoses`).
* An entry element inside another entry element replaces it (`NestedEntryLosesOuter`); the document
  is read as written exactly when there is none (`ParsesExactly`).
* The check of a CTA number throws on a malformed network list, and only then (`CtaCheck`), for
  instance on "911,x" (`CtaCheckThrows`).
* The category of a number ending in `+` may depend on hash order (`CategoryDetermined`), for instance
  that of "1+" beside the network list "1,0;1+,1" (`AmbiguousExample`).
* The check normalises the dialled address and the category look-up does not: the category asked for is
  that of the number the check matched, in every state, only for an address in network form
  (`LookUpAgrees`).
* Two setups in flight are announced under the same interface id (`TwoOutstandingDisagree`);
  `LandsExactly` and `LandsOnCalls` say when a reply lands where its request announced.
* Leaving airplane mode by an off-call loses track of a powered-off modem (`ModemLeftOff`); the exact
  condition is `ModemOffExactly`.
* A request can be answered twice (`ThrowingRefreshAnswersTwice`), exactly when a refresh throws on it
  and a later reply finds it still pending (`AnsweredTwiceExactly`).
* The comment on operating class 125 names channels from 149 on; the table only yields 165 to 169 for it,
  and the extra 5 GHz branches accept frequencies off the 5 MHz raster (`PairNamesFrequency`), such as
  5261 MHz (`OffRaster`).
* MIRACAST reads an unknown station frequency (-1) as a huge unsigned one and configures
  uninitialised values (`UnknownFrequency`); p2p_use_mcc does not.

## Model

| member | source | states |
|---|---|---|
| `Text.JoinPieces` | ril/telephony/java/com/android/internal/telephony/MtkEccList.java:354-365 | joining the pieces of any text gives the text back |
| `Text.PiecesJoin` | ril/telephony/java/com/android/internal/telephony/MtkEccList.java:354-365 | cutting a joined list gives the list back, for every non-empty list of separator-free texts |
| `Text.SplitJoin` | ril/telephony/java/com/android/internal/telephony/MtkEccList.java:354-365 | for separator-free texts Java split gives back what TextUtils.join joined exactly when the last text is not empty or there is only one |
| `Text.NonEmptySplit` | ril/telephony/java/com/android/internal/telephony/MtkEccList.java:354-357 | the trailing empty pieces Java's split drops never matter to a loop that skips empty pieces |
| `Text.NonEmptyJoin` | ril/telephony/java/com/android/internal/telephony/MtkEccList.java:354-365 | reading back any joined list, commas and empties included, yields its flattened non-empty pieces |
| `Numerals.ParseIntOfPrinted` | ril/telephony/java/com/android/internal/telephony/MtkEccList.java:208-209 | parseInt of a printed number is that number inside 32 bits and an exception outside |
| `Numerals.ParseIntExactly` | ril/telephony/java/com/android/internal/telephony/MtkEccList.java:208-209 | the texts parseInt accepts and their values: at least one digit after an optional sign, within 32 bits |
| `Numerals.ValueOfDecimal` | lib_driver_cmd_mt66xx/mediatek_driver_cmd_nl80211.c:1040-1079 | reading the digits of a printed counter gives the counter back |
| `Numerals.ValueOfHex` | lib_driver_cmd_mt66xx/mediatek_driver_cmd_nl80211.c:904-924 | reading a printed hexadecimal number gives it back, and its letters are of the case the format asks for |
| `EccRefresh.RefreshedIsEmpty` | ril/telephony/java/com/android/internal/telephony/MtkEccList.java:335-382 | exactly when a refresh writes the empty string, which later reads as "no SIM" |
| `EccRefresh.SecondRefresh` | ril/telephony/java/com/android/internal/telephony/MtkEccList.java:352-365 | a second refresh of a property that is not empty changes nothing on a closed fixed list, and makes it strictly longer on any other |
| `EccRefresh.SettlesAfterOne` | ril/telephony/java/com/android/internal/telephony/MtkEccList.java:352-365 | for every non-empty property and every list, the exact condition under which two refreshes equal one |
| `EccRefresh.StabilisesExactly` | ril/telephony/java/com/android/internal/telephony/MtkEccList.java:335-382 | three refreshes equal two for every property text if and only if the list is settling |
| `EccRefresh.ThirdRefreshMoves` | ril/telephony/java/com/android/internal/telephony/MtkEccList.java:335-382 | on every list that is not settling the property "," is still changed by the third refresh |
| `EccRefresh.SettledForever` | ril/telephony/java/com/android/internal/telephony/MtkEccList.java:335-382 | on a settling list every number of refreshes from two on gives the same property |
| `EccRefresh.RestsExactly` | ril/telephony/java/com/android/internal/telephony/MtkEccList.java:335-382 | for every property text and every list, the rewrite ever stops if and only if the fixed list is closed and, on a flickering list, the property holds a number; it has then stopped by the third refresh |
| `EccRefresh.GrowsForever` | ril/telephony/java/com/android/internal/telephony/MtkEccList.java:352-365 | when the fixed list is not closed every refresh from the third on makes every property strictly longer |
| `EccRefresh.CommaFlickers` | ril/telephony/java/com/android/internal/telephony/MtkEccList.java:341-365 | the single no-SIM number "," makes a list that flickers and is not settling |
| `EccRefresh.RestsOnlyAtThird` | ril/telephony/java/com/android/internal/telephony/MtkEccList.java:335-382 | a list that is not settling on which every property is at rest from the third refresh on |
| `EccRefresh.WellFormedSettles` | ril/telephony/java/com/android/internal/telephony/MtkEccList.java:335-382 | a list of comma-free, non-empty numbers is settling and does not flicker |
| `EccRefresh.WrittenContents` | ril/telephony/java/com/android/internal/telephony/MtkEccList.java:341-365 | for every list, the pieces of the written property are those of: old numbers not fixed, in order, then the fixed list; or fixed minus no-SIM, then no-SIM, for an empty property; and exactly when split gives that list itself back |
| `EccRefresh.WrittenWithoutDuplicates` | ril/telephony/java/com/android/internal/telephony/MtkEccList.java:358-364 | the written list repeats nothing exactly when neither of its two parts does; in particular when no source list does |
| `EccRefresh.RepeatedNumberStays` | ril/telephony/java/com/android/internal/telephony/MtkEccList.java:358-364 | the property "5,5" is written back as it is when nothing is listed |
| `EccDecision.DecisionAfterRefresh` | ril/telephony/java/com/android/internal/telephony/MtkEccList.java:188-289 | the decision after a refresh, in terms of the state before it, for every list, every pair of properties and every number other than "" and "+" |
| `EccDecision.RefreshEffect` | ril/telephony/java/com/android/internal/telephony/MtkEccList.java:335-382 | on comma-free lists, for every number other than "" and "+", the decision after a refresh is the one before it, plus the no-SIM numbers exactly when one property was empty and the other not, or neither held a number and nothing is fixed |
| `EccDecision.BlankNumberAfterRefresh` | ril/telephony/java/com/android/internal/telephony/MtkEccList.java:188-289 | for every list, the exact answer after a refresh for "" and "+", the numbers an empty entry or property piece matches |
| `EccDecision.LosesExactly` | ril/telephony/java/com/android/internal/telephony/MtkEccList.java:335-382 | a refresh withdraws the answer to some number other than "" and "+" in some state if and only if a no-SIM number holds a comma and the fixed list does not match both its spellings |
| `EccDecision.LosesBlankExactly` | ril/telephony/java/com/android/internal/telephony/MtkEccList.java:335-382 | a refresh withdraws the answer to "" or "+" in some state if and only if no fixed number is empty and either the fixed list as written has no empty piece before a number, or there is an empty no-SIM number and what is written for an empty property has no such piece |
| `EccDecision.WellFormedLoses` | ril/telephony/java/com/android/internal/telephony/MtkEccList.java:335-382 | on a list of comma-free, non-empty numbers a refresh withdraws no answer but those to "" and "+", which it can |
| `EccDecision.CommaLosesANumber` | ril/telephony/java/com/android/internal/telephony/MtkEccList.java:341-365 | the no-SIM number "1,2" is an emergency number before a refresh and not after |
| `EccFinality.DecisionAfterTwo` | ril/telephony/java/com/android/internal/telephony/MtkEccList.java:335-382 | the decision after two refreshes in terms of the state before them, for every list and every number other than "" and "+" |
| `EccFinality.SecondRefreshChanges` | ril/telephony/java/com/android/internal/telephony/MtkEccList.java:335-382 | exactly when the second refresh changes the answer to a number other than "" and "+", for every list and state; on comma-free lists it then adds it |
| `EccFinality.OneRefreshIsNotFinal` | ril/telephony/java/com/android/internal/telephony/MtkEccList.java:335-382 | an answer that only the second refresh adds |
| `EccFinality.StableReading` | ril/telephony/java/com/android/internal/telephony/MtkEccList.java:335-382 | the second refresh of a property that is neither empty nor emptied is invisible to the decision about every number, "" and "+" included, even where it makes the property longer |
| `EccFinality.DecisionFinalAfterTwo` | ril/telephony/java/com/android/internal/telephony/MtkEccList.java:335-382 | on a list that does not flicker no number of refreshes beyond two gives or takes the answer to a number other than "" and "+" |
| `EccFinality.DecisionFinalAfterThree` | ril/telephony/java/com/android/internal/telephony/MtkEccList.java:335-382 | on such a list no number of refreshes beyond three gives or takes the answer to any number |
| `EccFinality.FinalExactly` | ril/telephony/java/com/android/internal/telephony/MtkEccList.java:335-382 | in every network and SIM state two refreshes settle the answer to every number but "" and "+", and three the answer to every number, if and only if the list does not flicker; on a flickering list no number of refreshes does |
| `EccFinality.FinalAfterTwoExactly` | ril/telephony/java/com/android/internal/telephony/MtkEccList.java:335-382 | two refreshes settle the answer to every number, "" and "+" included, if and only if the list neither flickers nor has a late hole |
| `EccFinality.LateHoleExample` | ril/telephony/java/com/android/internal/telephony/MtkEccList.java:335-382 | the single no-SIM number "a,,b" has a late hole and does not flicker |
| `EccFinality.FlickersForever` | ril/telephony/java/com/android/internal/telephony/MtkEccList.java:335-382 | on every flickering list an answer alternates for ever with the number of refreshes |
| `EccFinality.FixedSettles` | ril/telephony/java/com/android/internal/telephony/MtkEccList.java:352-365 | with something fixed to write, one refresh settles the answer to every number but "" and "+", and two the answer to every number |
| `EccNetwork.LastPairWins` | ril/telephony/java/com/android/internal/telephony/MtkEccList.java:200-213 | the loaded table lists exactly the numbers that have a pair, with the category of their last pair; the load throws exactly when some category is no number |
| `EccNetwork.TableLeft` | ril/telephony/java/com/android/internal/telephony/MtkEccList.java:200-213 | also when the load throws, the table left behind holds the numbers of the pairs before the first malformed one, each with the category of its last such pair |
| `EccNetwork.CategoryDetermined` | ril/telephony/java/com/android/internal/telephony/MtkEccList.java:297-312 | the category is independent of the hash order exactly when the number is not ambiguous |
| `EccNetwork.AmbiguousExample` | ril/telephony/java/com/android/internal/telephony/MtkEccList.java:200-213 | the network list "1,0;1+,1" loads a table on which "1+" is ambiguous |
| `EccNetwork.MalformedExample` | ril/telephony/java/com/android/internal/telephony/MtkEccList.java:200-213 | the network list "911,x" is malformed |
| `EccNetwork.PlainNumber` | ril/telephony/java/com/android/internal/telephony/MtkEccList.java:297-333 | a number without trailing plus gets its own key's category, else the first matching customised entry's |
| `EccNetwork.LookUpAgrees` | ril/telephony/java/com/android/internal/telephony/MT6735.java:317-352 | for an address the check reads as some number, the look-up of the address answers as that of the number in every state in which the check says yes, if and only if the address is that number |
| `EccParse.AttributesExactly` | ril/telephony/java/com/android/internal/telephony/MtkEccList.java:127-142 | for every attribute list the number, category and condition of the record are the values of the last attributes named "Ecc", "Category" and "Condition", and empty without one |
| `EccParse.ParsesExactly` | ril/telephony/java/com/android/internal/telephony/MtkEccList.java:125-149 | for every document tree the event loop appends exactly its entries, each field by the name of its attribute, in document order, if and only if no entry contains another |
| `EccParse.StartsWithEntries` | ril/telephony/java/com/android/internal/telephony/MtkEccList.java:109-178 | for a document without nested entries the list at start-up is its entries, overlaid with the four CTA numbers exactly when the parse completes on a CTA device |
| `EccParse.NestedEntryLosesOuter` | ril/telephony/java/com/android/internal/telephony/MtkEccList.java:125-149 | with nested entries the outer attributes are lost |
| `EccParse.OverlayExactly` | ril/telephony/java/com/android/internal/telephony/MtkEccList.java:152-178 | first entries of listed numbers are overwritten in place, all other entries keep position and value, missing numbers are appended in order, and the length grows by their number |
| `EccParse.Listed` | ril/telephony/java/com/android/internal/telephony/MtkEccList.java:152-178 | after the overlay every overlaid number is listed and its first entry is (category "0", condition "2") |
| `EccParse.CtaOverlayTwice` | ril/telephony/java/com/android/internal/telephony/MtkEccList.java:152-178 | overlaying again changes nothing |
| `EccParse.FirstMatchDecides` | ril/telephony/java/com/android/internal/telephony/MtkEccList.java:317-332 | the customised category is that of the first matching entry, and 0 when none matches |
| `EccEngine.EccList.constructor` | ril/telephony/java/com/android/internal/telephony/MtkEccList.java:46-51 | start-up state: parsed list, empty network table |
| `EccEngine.EccList.Parse` | ril/telephony/java/com/android/internal/telephony/MtkEccList.java:109-186 | the list is the fold of the events, overlaid when the parse completes and the CTA flag is set |
| `EccEngine.EccList.OverlayCta` | ril/telephony/java/com/android/internal/telephony/MtkEccList.java:152-178 | the nested search loops compute the overlay |
| `EccEngine.EccList.LoadNetworkTable` | ril/telephony/java/com/android/internal/telephony/MtkEccList.java:200-213 | the table is the one loaded from the property alone, also when the load throws midway |
| `EccEngine.EccList.IsEmergencyNumberExt` | ril/telephony/java/com/android/internal/telephony/MtkEccList.java:188-289 | the answer is the decision on the current properties and list, and the table left behind depends on the properties only |
| `EccEngine.EccList.GetServiceCategoryFromEcc` | ril/telephony/java/com/android/internal/telephony/MtkEccList.java:297-333 | the category of some matching network key, else of the first matching customised entry, else 0 |
| `EccEngine.EccList.UpdateEmergencyNumbersProperty` | ril/telephony/java/com/android/internal/telephony/MtkEccList.java:335-382 | both SIM properties are replaced by their refreshed text, no other property changes |
| `EccEngine.EccList.Dial` | ril/telephony/java/com/android/internal/telephony/MT6735.java:317-352 | category request then emergency dial, or an ordinary dial, or an exception, as the check and the category say |
| `EccEngine.CtaCheck` | ril/telephony/java/com/android/internal/telephony/MtkEccList.java:152-289 | after a completed parse with the CTA flag, in every state of the properties, the check of a CTA number throws exactly when a network category is no number and says yes otherwise |
| `EccEngine.CtaCheckThrows` | ril/telephony/java/com/android/internal/telephony/MtkEccList.java:200-213 | it throws on every CTA number beside the network list "911,x" |
| `EccEngine.CtaDial` | ril/telephony/java/com/android/internal/telephony/MT6735.java:317-352 | where it does not throw, the dial of a CTA number sends the category of its last network pair, or 0, and an emergency dial |
| `EccAnswers.CheckExactly` | ril/telephony/java/com/android/internal/telephony/MtkEccList.java:188-289 | in every state: an exception exactly when a category of the network list is no number, otherwise yes exactly when a pair of the network list, a piece of a non-empty SIM list or an entry of the list is the normalised number or that number without its trailing plus, where beside a non-empty SIM list an entry counts only if its condition is not "0"; no for a missing number |
| `EccAnswers.NetworkListPieces` | ril/telephony/java/com/android/internal/telephony/MtkEccList.java:200-213 | the network lists a number exactly when a piece of its list has two fields and the first spells the number |
| `EccAnswers.SortedInOrder` | ril/telephony/java/com/android/internal/telephony/MtkEccList.java:335-350 | the two lists a refresh merges, in the order of the entries: condition other than "0" to the fixed numbers, condition "0" with a number to the no-SIM numbers |
| `EccAnswers.RefreshRewrites` | ril/telephony/java/com/android/internal/telephony/MtkEccList.java:335-382 | a refresh rewrites each SIM list from its own text and no other property |
| `EccAnswers.CheckAfterRefresh` | ril/telephony/java/com/android/internal/telephony/MtkEccList.java:335-382 | the check on the refreshed properties of a comma-free list, for every number that does not read as "" or "+": as before the refresh, plus the no-SIM entries exactly when one SIM list was empty and the other not, or neither held a number and nothing is fixed |
| `EccAnswers.CategoryExactly` | ril/telephony/java/com/android/internal/telephony/MtkEccList.java:297-333 | the categories the look-up may answer: those of the last network pairs of the two spellings, else the category of the first entry that spells the number, an exception when it is no number, else 0 |
| `EccAnswers.DialExactly` | ril/telephony/java/com/android/internal/telephony/MT6735.java:317-352 | in every state: an exception on a malformed network list, an ordinary dial of the address exactly when its number is in no list, otherwise a category request and then an emergency dial of the address, or an exception when the category is no number |
| `EccAnswers.DialNothing` | ril/telephony/java/com/android/internal/telephony/MT6735.java:317-352 | a dial without an address is an ordinary one |
| `EccAnswers.EmergencyRequests` | ril/telephony/java/com/android/internal/telephony/MT6735.java:317-352 | whatever a dial sends holds an emergency dial and a category request exactly when the number is in a list, and an ordinary dial exactly when it is not; every dial is to the address |
| `DialHistory.HistoryIndependence` | ril/telephony/java/com/android/internal/telephony/MT6735.java:317-352 | after any history, what a dial may send is what it may send after the history's writes and refreshes alone, whatever table earlier calls left |
| `DialHistory.NetworkListedDial` | ril/telephony/java/com/android/internal/telephony/MT6735.java:317-352 | a network-listed number in network form is dialled as emergency with the category of its last pair, after any history |
| `DialHistory.DialDetermined` | ril/telephony/java/com/android/internal/telephony/MT6735.java:317-352 | the requests sent for an emergency number are determined exactly when its category is not ambiguous |
| `DialHistory.RoutingFinal` | ril/telephony/java/com/android/internal/telephony/MT6735.java:355-357 | on a list that does not flicker, any two histories without vendor writes leave the same answer to a number once each holds three refreshes; two are enough unless the number reads as "" or "+" |
| `DialHistory.CtaSettles` | ril/telephony/java/com/android/internal/telephony/MtkEccList.java:152-178 | with the CTA flag and a completed parse one refresh settles the answer to every number but "" and "+", and two the answer to every number |
| `DialHistory.PerformAll` | ril/telephony/java/com/android/internal/telephony/MtkEccList.java:188-382 | a history of checks, dials, refreshes and writes carried out on the engine object leaves it in the state the history describes |
| `DialHistory.DialAfter` | ril/telephony/java/com/android/internal/telephony/MT6735.java:317-352 | a dial after any history, both carried out on the engine object, sends what the history's writes and refreshes alone allow |
| `DataCalls.DataCallTable.SetupDataCall` | ril/telephony/java/com/android/internal/telephony/MT6735.java:286-293 | the id sent is that of the first free cell, 0 when there is none |
| `DataCalls.DataCallTable.FetchCidFromDataCall` | ril/telephony/java/com/android/internal/telephony/MT6735.java:485-497 | a call id is stored in the first free cell and nothing else changes |
| `DataCalls.DataCallTable.DeactivateDataCall` | ril/telephony/java/com/android/internal/telephony/MT6735.java:305-313 | the first cell holding the id is freed and nothing else changes |
| `DataCalls.RunRefines` | ril/telephony/java/com/android/internal/telephony/MT6735.java:59-59 | under every interleaving the fifth cell stays -1, every cell is -1 or a call id, and the table holds exactly what a four-place bag holds |
| `DataCalls.Conservation` | ril/telephony/java/com/android/internal/telephony/MT6735.java:485-497 | held ids plus accepted replies equal ids held at the end plus deactivations that hit, for every run |
| `DataCalls.FullTable` | ril/telephony/java/com/android/internal/telephony/MT6735.java:286-293 | id 0 is sent exactly when four calls are held, and a reply then changes nothing |
| `DataCalls.KeepsAdvertised` | ril/telephony/java/com/android/internal/telephony/MT6735.java:286-313 | exactly which steps leave the next announced id alone |
| `DataCalls.LedgerIsTable` | ril/telephony/java/com/android/internal/telephony/MT6735.java:286-313 | with one setup outstanding at a time and no deactivation meanwhile, the calls recorded under announced ids are the table, so live ids are distinct and in 1..4 |
| `DataCalls.RepliesLandWhereAnnounced` | ril/telephony/java/com/android/internal/telephony/MT6735.java:485-497 | in such runs every successful reply lands in the free cell its request announced, and id 0 was announced exactly when the table is full |
| `DataCalls.LandsExactly` | ril/telephony/java/com/android/internal/telephony/MT6735.java:485-497 | whatever happens between a request and its successful reply, the reply lands in the announced cell exactly when that cell is still free and all before it are held |
| `DataCalls.LandsOnCalls` | ril/telephony/java/com/android/internal/telephony/MT6735.java:286-313 | without deactivations in between, exactly when no earlier reply was successful; without successful replies in between, exactly when no call held before the announced cell was deactivated |
| `DataCalls.TwoOutstandingDisagree` | ril/telephony/java/com/android/internal/telephony/MT6735.java:286-293 | on every table with a free cell two setups in flight announce the same id and only the first reply lands there |
| `ModemPower.RadioWrapper.SetRadioPower` | ril/telephony/java/com/android/internal/telephony/MT6735.java:361-385 | the command sent, the two properties written, and no other property changed |
| `ModemPower.CommandExactly` | ril/telephony/java/com/android/internal/telephony/MT6735.java:361-385 | every command of every run on the calls: power-off for an off-call in airplane mode, power-on for an on-call outside it after a call inside it, every other call passed on as it is |
| `ModemPower.PowerOnFollowsPowerOff` | ril/telephony/java/com/android/internal/telephony/MT6735.java:361-385 | from either start, every modem power-on immediately follows a power-off exactly when no on-call in airplane mode precedes an on-call outside it and a run started in airplane mode does not open with such a call |
| `ModemPower.PowerOffIsUndone` | ril/telephony/java/com/android/internal/telephony/MT6735.java:361-385 | the next on-call outside airplane mode after a power-off sends power-on exactly when the call before it was in airplane mode |
| `ModemPower.EbootExactly` | ril/telephony/java/com/android/internal/telephony/MT6735.java:366-376 | after every run the boot property is "1" exactly when the calls left the modem off, stated on the calls |
| `ModemPower.SwitchAll` | ril/telephony/java/com/android/internal/telephony/MT6735.java:361-385 | the same for the property stored by any run of calls on the wrapper, with the commands it sends |
| `ModemPower.ModemOffExactly` | ril/telephony/java/com/android/internal/telephony/MT6735.java:361-385 | after every run, from either start, the modem is off exactly when an off-call came in airplane mode (or it was off) and no later on-call left airplane mode |
| `ModemPower.ModemLeftOff` | ril/telephony/java/com/android/internal/telephony/MT6735.java:361-385 | a run after which the radio is on and the modem off |
| `ReplyDispatch.Dispatcher.Preprocess` | ril/telephony/java/com/android/internal/telephony/MT6735.java:390-432 | the locked half: keep, answer with an exception, or hand up with the parcel rewound |
| `ReplyDispatch.Dispatcher.Finish` | ril/telephony/java/com/android/internal/telephony/MT6735.java:435-464 | the second half: remove, decode by kind, complete |
| `ReplyDispatch.DispatchIsSound` | ril/telephony/java/com/android/internal/telephony/MT6735.java:390-465 | under every interleaving each completion is for the request with the reply's serial, at most once each, hand-ups pass the parcel as received, and the "Shouldn't be here" branch is never reached |
| `ReplyDispatch.StaysPending` | ril/telephony/java/com/android/internal/telephony/MT6735.java:390-465 | over every run a pending request stays pending and unchanged unless it is withdrawn or a reply carrying its serial arrives |
| `ReplyAnswers.LookedUpReply` | ril/telephony/java/com/android/internal/telephony/MT6735.java:390-465 | from the look-up of a reply of one of the five kinds handled here to its end, whatever other threads do meanwhile: the request is gone, and the log and the number of answers have gained exactly its completion if it wants a result, was not withdrawn and decoding did not throw, and nothing otherwise |
| `ReplyAnswers.AnsweredExactly` | ril/telephony/java/com/android/internal/telephony/MT6735.java:390-465 | over every run, from its issue on, a request is answered if and only if it wants a result and some reply finds it pending and either is not looked up here or is resumed before a withdrawal without a decode exception; a request of the five kinds at most once |
| `ReplyAnswers.GoesUp` | ril/telephony/java/com/android/internal/telephony/MT6735.java:399-432 | a reply goes to the superclass, as received, exactly when its request is not pending, or it carries no answer, or the request is neither of the five kinds nor a SIM status request whose refresh throws |
| `ReplyAnswers.AnsweredTwiceExactly` | ril/telephony/java/com/android/internal/telephony/MT6735.java:399-465 | over every run a request is answered more than once, by this class and the superclass together, if and only if a refresh throws on a reply to it and a later reply finds it still pending |
| `ReplyAnswers.AnswersBounded` | ril/telephony/java/com/android/internal/telephony/MT6735.java:390-465 | those answers number the refreshes that threw on a reply to this request and at most one more |
| `ReplyAnswers.ThrowingRefreshAnswersTwice` | ril/telephony/java/com/android/internal/telephony/MT6735.java:413-431 | a run that meets the bound: an exception answer, then the superclass answers the same request |
| `MrdumpStatus.SettingsExactly` | mrdump/mrdump_status.c:158-176 | the fold over lines fails exactly when an output line names neither EXT4_DATA nor VFAT_INT_STORAGE; otherwise the last output line decides the output, null without one, and the mode is at most 31 characters of the last mode line |
| `MrdumpStatus.GetExactly` | mrdump/mrdump_status.c:122-197 | for every block that was read: without the signature failure and a zeroed result; with it failure exactly when there is no line, or the first is OK and a later output is unknown; on success status OK, NONE or FAILED by the first line alone, output and mode as above only after OK, the status text, and the log up to its first NUL or 2047 characters |
| `MrdumpStatus.ReadCleared` | mrdump/mrdump_status.c:103-104 | a cleared block reads as status NONE with text "CLEAR" and the old log |
| `MrdumpStatus.ClearedBytes` | mrdump/mrdump_status.c:103-104 | the cleared block byte by byte: CLEAR and then only NULs in the status field, every other byte as it was |
| `MrdumpStatus.ClearTwice` | mrdump/mrdump_status.c:86-120 | clearing twice equals clearing once |
| `MrdumpPartition.StrtokR` | mrdump/mrdump_status.c:150-159 | one destructive tokenizer call yields the first non-empty line and leaves the rest, touching nothing before its start |
| `MrdumpPartition.ReadTokens` | mrdump/mrdump_status.c:158-176 | the tokenizer loop computes the pure fold over the remaining lines |
| `MrdumpPartition.ParseStatus` | mrdump/mrdump_status.c:147-191 | the whole destructive parse equals the pure reading of the text up to the first NUL or byte 127 |
| `MrdumpPartition.Partition.StatusGet` | mrdump/mrdump_status.c:122-197 | result and return value in every case, failed system calls and small partitions included; the partition is not changed |
| `MrdumpPartition.Partition.StatusClear` | mrdump/mrdump_status.c:86-120 | succeeds exactly when every call does, then the block is the cleared block; after any outcome, short writes included, no byte outside the status field differs |
| `MrdumpPartition.ClearThenGet` | mrdump/mrdump_status.c:86-197 | clear, clear again, then get: success, NONE, "CLEAR", the log as before |
| `ReportWriter.FittingExactly` | lib_driver_cmd_mt66xx/mediatek_driver_cmd_nl80211.c:1040-1079 | the pieces written are the longest leading run whose total is strictly less than the buffer |
| `ReportWriter.LinesInjective` | lib_driver_cmd_mt66xx/mediatek_driver_cmd_nl80211.c:1040-1079 | equal reports of newline-ended lines have equal lines |
| `ReportWriter.Put` | lib_driver_cmd_mt66xx/mediatek_driver_cmd_nl80211.c:1040-1043 | one print and its truncation test: cursor inside the buffer, earlier text untouched, stop exactly when the piece does not fit |
| `LinkReport.GetStaLinkDetect` | lib_driver_cmd_mt66xx/mediatek_driver_cmd_nl80211.c:1024-1081 | the buffer starts with exactly the leading lines that fit and the result is their length; -1 and no write when the driver fails |
| `LinkReport.LinkReportLosesNothing` | lib_driver_cmd_mt66xx/mediatek_driver_cmd_nl80211.c:1040-1079 | equal whole reports have equal 64-bit counters |
| `ReportReader.LinkFields` | lib_driver_cmd_mt66xx/mediatek_driver_cmd_nl80211.c:1040-1079 | in a whole report every counter stands under its own label |
| `StatisticsReport.PrintStaStatistics` | lib_driver_cmd_mt66xx/mediatek_driver_cmd_nl80211.c:793-954 | non-zero exactly when the whole report is shorter than the buffer, then its length, with the buffer starting with the report |
| `StatisticsReport.PutBytes` | lib_driver_cmd_mt66xx/mediatek_driver_cmd_nl80211.c:904-924 | a grouped hexadecimal row is written whole or the report does not fit |
| `StatisticsInverse.StatisticsReportLosesNothing` | lib_driver_cmd_mt66xx/mediatek_driver_cmd_nl80211.c:793-954 | equal reports come from equal statistics, every printed field included |
| `ReportReader.StatisticsFields` | lib_driver_cmd_mt66xx/mediatek_driver_cmd_nl80211.c:793-954 | in a whole report every value stands under its own label |
| `ReportReader.MacReads` | lib_driver_cmd_mt66xx/mediatek_driver_cmd_nl80211.c:803-803 | the address has six parts between colons, each the byte at its place in lower-case hexadecimal |
| `ReportReader.QuadReads` | lib_driver_cmd_mt66xx/mediatek_driver_cmd_nl80211.c:863-897 | each of the four counters between colons parses to the counter at its place, read as signed |
| `ReportReader.RateReads` | lib_driver_cmd_mt66xx/mediatek_driver_cmd_nl80211.c:828-831 | the rate is read back from its whole part and its half |
| `ReportReader.RowReads` | lib_driver_cmd_mt66xx/mediatek_driver_cmd_nl80211.c:904-924 | each reserved byte stands as two digits at its place, with a space after every fourth and nothing else in the row |
| `WifiChannels.TableIsInverse` | lib_driver_cmd_mt66xx/mediatek_driver_cmd_nl80211.c:1241-1296 | the table answers only channels of its operating classes, and a pair lies in its class exactly when its own frequency maps back to it |
| `WifiChannels.PairNamesFrequency` | lib_driver_cmd_mt66xx/mediatek_driver_cmd_nl80211.c:1241-1296 | the class and channel name the frequency exactly on the 5 MHz raster; always without the extra 5 GHz classes |
| `WifiChannels.OffRaster` | lib_driver_cmd_mt66xx/mediatek_driver_cmd_nl80211.c:1241-1296 | with the extra classes 5261 MHz becomes channel 52, whose frequency is 5260 MHz |
| `WifiChannels.P2pData.ConfigScc` | lib_driver_cmd_mt66xx/mediatek_driver_cmd_nl80211.c:1297-1337 | the whole new state of a single- or multi-channel configuration |
| `WifiChannels.P2pData.DriverCommand` | lib_driver_cmd_mt66xx/mediatek_driver_cmd_nl80211.c:1584-1645 | which configuration each command value leads to, with C's integer conversions |
| `WifiChannels.CommandExactly` | lib_driver_cmd_mt66xx/mediatek_driver_cmd_nl80211.c:1584-1645 | the state after each command by its value and the frequency it names: MIRACAST 2 with a frequency follows that one, otherwise values 0 to 2 follow the station, frequency 0 restores the configuration, other values change nothing; p2p_use_mcc follows the station only for value 0 and a positive frequency |
| `WifiChannels.LastCommandDecides` | lib_driver_cmd_mt66xx/mediatek_driver_cmd_nl80211.c:1297-1337 | after any run the last effective command alone decides: one visible channel equal to the operating pair, or the configured list with the configured pair or class 81 channel 1, 6 or 11 |
| `WifiChannels.EveryRun` | lib_driver_cmd_mt66xx/mediatek_driver_cmd_nl80211.c:1241-1337 | without the extra classes the single-channel pair maps back to the requested frequency after any run |
| `WifiChannels.UnknownFrequency` | lib_driver_cmd_mt66xx/mediatek_driver_cmd_nl80211.c:1591-1597 | a station frequency of -1 makes MIRACAST configure uninitialised values and p2p_use_mcc go multi-channel |
| `WifiChannels.SccDetermined` | lib_driver_cmd_mt66xx/mediatek_driver_cmd_nl80211.c:1309-1316 | the whole state a single-channel configuration leaves is determined by its frequency exactly when the table accepts it |

## Left out

- Java strings and C bytes are sequences of Dafny characters; `Integer.parseInt` accepts ASCII digits only.
- `extractNetworkPortionAlt` is a parameter of the engine: every statement holds for every normaliser.
- Property length limits and failing property writes; a refresh that throws appears only in the reply dispatch.
- The XML parser: the event sequence is given, and it may stop after any number of events.
- The superclass of the radio wrapper, parcel encoding and message delivery: look-up, removal and completion are abstract steps; a request handed up is removed and answered there.
- UUS fields of the emergency dial, USSD rewriting, the PS bearer fix-up, unsolicited responses and the iccIO size override: each is settled by one branch.
- `ReplyAnswers.ThrowingRefreshAnswersTwice`: assumes that the caller of the dispatch does not recycle the request it gets back; code outside the repository may, and a request answered by a throwing refresh is then recycled while still pending. The model keeps the request as it was.
- What decoding a reply yields, and the refresh itself: the dispatch only knows whether they throw; the data-call table and the refresh are modelled apart from it.
- Serial numbers are assumed never to be reused while a reply is in flight.
- System calls of the ramdump library: opening, reading and the number of bytes written are parameters; a seek fails exactly on a partition smaller than the block offset.
- `MrdumpPartition.StrtokR`: the buffer must end in NUL, which the source ensures before the first call.
- Reads past the end of unterminated fields (`strlen` inside `strlcpy`, the unused `reserved[32]` argument) have no effect on results and are not modelled.
- The transmit rate is a whole number of halves; the `version` field is not part of the report.
- Netlink and ioctl calls, country codes, power modes and the pass-through of private commands.
- A missing peer-to-peer context: the single-channel code then does nothing, `p2p_use_mcc` would dereference it.
- `atoi` and the search for " freq=": commands carry the numbers already read.
- Makefiles, scripts, overlays, policies, shims, the performance service and the key disabler: no algorithm.
