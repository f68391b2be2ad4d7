/**
  The network's category list: which table the engine loads from it, and when the category
  of a number is determined by that table.
 */
module EccNetwork {
  import opened Text
  import opened Numerals
  import opened EccRules

  /** The category of the last pair for number `k`. */
  function LastCategory(pairs: seq<(string, string)>, k: string): Option<string> {
    if pairs == [] then None
    else if pairs[|pairs| - 1].0 == k then Some(pairs[|pairs| - 1].1)
    else LastCategory(pairs[..|pairs| - 1], k)
  }

  ghost predicate Malformed(pairs: seq<(string, string)>) {
    exists p <- pairs :: ParseInt(p.1) == None
  }

  lemma {:induction false} LastCategoryFromFront(p: (string, string), rest: seq<(string, string)>, k: string)
    ensures LastCategory([p] + rest, k) ==
            if LastCategory(rest, k).Some? then LastCategory(rest, k) else if p.0 == k then Some(p.1) else None
  {
    var pairs := [p] + rest;
    if rest == [] {
      assert pairs[..|pairs| - 1] == [];
    } else {
      assert pairs[..|pairs| - 1] == [p] + rest[..|rest| - 1];
      LastCategoryFromFront(p, rest[..|rest| - 1], k);
    }
  }

  lemma {:induction false} LoadedFromPairs(pieces: seq<string>, table: map<string, int>, k: string)
    ensures LoadPairs(pieces, table).Threw? <==> Malformed(Pairs(pieces))
    ensures var load := LoadPairs(pieces, table);
            load.Loaded? ==>
              match LastCategory(Pairs(pieces), k)
              case None => (k in load.table <==> k in table) && (k in table ==> load.table[k] == table[k])
              case Some(c) => k in load.table && ParseInt(c) == Some(load.table[k])
  {
    if pieces != [] {
      var fields, rest, pairs := Split(pieces[0], ','), Pairs(pieces[1..]), Pairs(pieces);
      if pieces[0] == "" || |fields| != 2 {
        assert pairs == rest;
        LoadedFromPairs(pieces[1..], table, k);
      } else {
        var p := (fields[0], fields[1]);
        assert pairs == [p] + rest;
        assert p in pairs;
        LastCategoryFromFront(p, rest, k);
        var c := ParseInt(fields[1]);
        if c.Some? {
          LoadedFromPairs(pieces[1..], table[fields[0] := c.value], k);
        }
      }
    }
  }

  /** The table a network list loads: a number is listed exactly when it has a pair, with the
      category of its last pair; the load throws exactly when some category is no number. */
  lemma LastPairWins(property: string, k: string)
    ensures var pairs, load := Pairs(Split(property, ';')), LoadNetwork(property);
            && (load.Threw? <==> Malformed(pairs))
            && (load.Loaded? ==>
                  && (k in load.table <==> LastCategory(pairs, k).Some?)
                  && (k in load.table ==> ParseInt(LastCategory(pairs, k).value) == Some(load.table[k])))
  {
    LoadedFromPairs(Split(property, ';'), map[], k);
    if property == "" {
      assert Split(property, ';') == [""];
      assert [""][1..] == [];
      assert Pairs([""]) == [];
    }
  }

  /** The position of the first pair whose category is no number, the number of pairs without one. */
  function FirstMalformed(pairs: seq<(string, string)>): (i: nat)
    ensures i <= |pairs|
    ensures i < |pairs| ==> ParseInt(pairs[i].1) == None
    ensures forall j :: 0 <= j < i ==> ParseInt(pairs[j].1).Some?
  {
    if pairs == [] || ParseInt(pairs[0].1).None? then 0 else 1 + FirstMalformed(pairs[1..])
  }

  /** The category of the last pair for `k` before the first malformed pair. */
  function LastBefore(pairs: seq<(string, string)>, k: string): Option<string> {
    LastCategory(pairs[..FirstMalformed(pairs)], k)
  }

  lemma LastBeforeStep(p: (string, string), rest: seq<(string, string)>, k: string)
    ensures LastBefore([p] + rest, k) ==
            if ParseInt(p.1).None? then None
            else if LastBefore(rest, k).Some? then LastBefore(rest, k)
            else if p.0 == k then Some(p.1) else None
  {
    hide ParseInt;
    var pairs, i := [p] + rest, FirstMalformed(rest);
    assert pairs[1..] == rest;
    if ParseInt(p.1).Some? {
      assert pairs[..1 + i] == [p] + rest[..i];
      LastCategoryFromFront(p, rest[..i], k);
    }
  }

  /** The table after loading `pieces` on top of `table`, at `k`. */
  ghost predicate LeftAt(load: map<string, int>, table: map<string, int>, last: Option<string>, k: string) {
    match last
    case None => (k in load <==> k in table) && (k in table ==> load[k] == table[k])
    case Some(c) => k in load && ParseInt(c) == Some(load[k])
  }

  lemma {:induction false} LoadedBeforeMalformed(pieces: seq<string>, table: map<string, int>, k: string)
    ensures LeftAt(LoadPairs(pieces, table).table, table, LastBefore(Pairs(pieces), k), k)
  {
    if pieces != [] {
      hide Split, ParseInt, LastBefore;
      var fields, rest := Split(pieces[0], ','), Pairs(pieces[1..]);
      if pieces[0] == "" || |fields| != 2 {
        assert Pairs(pieces) == rest;
        LoadedBeforeMalformed(pieces[1..], table, k);
      } else {
        LastBeforeStep((fields[0], fields[1]), rest, k);
        var c := ParseInt(fields[1]);
        if c.Some? {
          LoadedBeforeMalformed(pieces[1..], table[fields[0] := c.value], k);
        }
      }
    }
  }

  /** Whether or not the load throws, the table it leaves lists the numbers of the pairs before the first
      malformed one, each with the category of its last such pair. */
  lemma TableLeft(property: string, k: string)
    ensures var pairs, table := Pairs(Split(property, ';')), LoadNetwork(property).table;
            var last := LastCategory(pairs[..FirstMalformed(pairs)], k);
            && (k in table <==> last.Some?)
            && (k in table ==> ParseInt(last.value) == Some(table[k]))
  {
    LoadedBeforeMalformed(Split(property, ';'), map[], k);
    if property == "" {
      assert Split(property, ';') == [""];
      assert [""][1..] == [];
      assert Pairs([""]) == [];
    }
  }

  // ----- when the category is determined -----

  /** Both the dialled number and the number without its trailing plus are listed, with
      different categories: hash order decides. */
  predicate Ambiguous(network: map<string, int>, n: string) {
    && n != "" && n[|n| - 1] == '+'
    && n in network && n[..|n| - 1] in network
    && network[n] != network[n[..|n| - 1]]
  }

  lemma MatchingKeys(n: string, k: string)
    ensures Matches(k, n) <==> k == n || (n != "" && n[|n| - 1] == '+' && k == n[..|n| - 1])
  {
    if n != "" && n[|n| - 1] == '+' {
      assert n == n[..|n| - 1] + "+";
    }
  }

  /** The category is the same on every walk of the table exactly when the number is not
      ambiguous. */
  lemma CategoryDetermined(network: map<string, int>, list: seq<EccEntry>, n: string)
    ensures (forall c, d :: CategoryAnswer(network, list, n, c) && CategoryAnswer(network, list, n, d) ==> c == d)
            <==> !Ambiguous(network, n)
  {
    forall k {
      MatchingKeys(n, k);
    }
    if Ambiguous(network, n) {
      var k := n[..|n| - 1];
      assert Matches(n, n) && Matches(k, n);
      assert CategoryAnswer(network, list, n, Some(network[n]));
      assert CategoryAnswer(network, list, n, Some(network[k]));
    }
  }

  lemma PieceOfPair(number: string, category: string, piece: string, rest: seq<string>, table: map<string, int>)
    requires ',' !in number && ',' !in category && category != "" && piece == number + [','] + category
    ensures Pairs([piece] + rest) == [(number, category)] + Pairs(rest)
    ensures ParseInt(category).Some? ==> LoadPairs([piece] + rest, table) == LoadPairs(rest, table[number := ParseInt(category).value])
  {
    hide Split, ParseInt;
    SplitTwo(number, category, ',');
    assert ([piece] + rest)[1..] == rest;
  }

  /** The network list "1,0;1+,1" leaves the category of "1+" to hash order. */
  lemma AmbiguousExample()
    ensures LoadNetwork("1,0;1+,1") == Loaded(map["1" := 0, "1+" := 1])
    ensures Ambiguous(map["1" := 0, "1+" := 1], "1+")
  {
    hide Split, ParseInt, LoadPairs, Pairs;
    var a, b := "1,0", "1+,1";
    assert Split("1,0;1+,1", ';') == [a] + [b] by {
      assert "1,0;1+,1" == a + [';'] + b;
      SplitTwo(a, b, ';');
    }
    ParseIntOfPrinted(0);
    ParseIntOfPrinted(1);
    assert SignedDecimal(0) == "0" && SignedDecimal(1) == "1";
    PieceOfPair("1", "0", a, [b], map[]);
    PieceOfPair("1+", "1", b, [], map["1" := 0]);
    NoMorePairs(map["1" := 0, "1+" := 1]);
    assert [b] + [] == [b];
    assert "1+"[..1] == "1";
  }

  lemma NoMorePairs(table: map<string, int>)
    ensures LoadPairs([], table) == Loaded(table) && Pairs([]) == []
  {}

  /** The network list "911,x" is malformed. */
  lemma MalformedExample()
    ensures Malformed(Pairs(Split("911,x", ';')))
  {
    assert Split("911,x", ';') == ["911,x"] + [];
    hide Split, LoadPairs, Pairs;
    PieceOfPair("911", "x", "911,x", [], map[]);
    assert ("911", "x") in Pairs(["911,x"] + []);
    assert 'x' in "x" && !IsDigit('x');
  }

  /** A number without a trailing plus is answered by its own key or not at all. */
  lemma PlainNumber(network: map<string, int>, list: seq<EccEntry>, n: string)
    requires n == "" || n[|n| - 1] != '+'
    ensures NetworkMatch(network, n) <==> n in network
    ensures forall c :: CategoryAnswer(network, list, n, c) <==>
                        c == if n in network then Some(network[n]) else CustomCategory(list, n)
  {}

  /** The check normalises the address and the category look-up does not. For an address `a` read by
      the check as `n`, the look-up answers as it does for the number the check matched, in every
      state in which the check says yes, exactly when the address already is that number. */
  lemma LookUpAgrees(a: string, n: string)
    ensures (forall network, sim1, sim2, list, c ::
               Decision(network, sim1, sim2, list, n) ==>
                 (CategoryAnswer(network, list, a, c) <==> CategoryAnswer(network, list, n, c)))
            <==> a == n
  {
    if a != n {
      var network := map[n := 1, a := 2];
      var c := if n == a + "+" then Some(1) else Some(2);
      assert Matches(a, a) && Matches(n, n);
      assert NetworkMatch(network, n) && NetworkMatch(network, a);
      assert Decision(network, "", "", [], n);
      assert CategoryAnswer(network, [], a, c) != CategoryAnswer(network, [], n, c);
    }
  }
}
