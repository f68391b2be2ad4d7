/**
  Separator-delimited text: the Java `String.split` and `TextUtils.join` calls of the
  emergency-number engine, the newline cuts of the ramdump status text and the line
  framing of the Wi-Fi reports all rest on the functions and laws of this module.
 */
module Text {

  const NUL: char := '\0'

  /** Cuts `s` at every `sep`; there is always one piece more than there are separators. */
  function Pieces(s: string, sep: char): (ps: seq<string>)
    ensures ps != []
  {
    if s == [] then
      [[]]
    else
      var rest := Pieces(s[1..], sep);
      if s[0] == sep then [[]] + rest else [[s[0]] + rest[0]] + rest[1..]
  }

  function DropTrailingEmpty(ps: seq<string>): seq<string> {
    if ps != [] && ps[|ps| - 1] == [] then DropTrailingEmpty(ps[..|ps| - 1]) else ps
  }

  /** Java `s.split(sep)` for a one-character separator: without a separator the whole text
      is the only piece (even when empty); otherwise trailing empty pieces are dropped. */
  function Split(s: string, sep: char): seq<string> {
    if sep !in s then [s] else DropTrailingEmpty(Pieces(s, sep))
  }

  /** Java `TextUtils.join(sep, xs)`. */
  function Join(xs: seq<string>, sep: char): string {
    if |xs| == 0 then [] else if |xs| == 1 then xs[0] else xs[0] + [sep] + Join(xs[1..], sep)
  }

  function NonEmpty(xs: seq<string>): seq<string> {
    if xs == [] then [] else (if xs[0] == [] then [] else [xs[0]]) + NonEmpty(xs[1..])
  }

  /** The non-empty pieces of all the texts of a list, in order. */
  function Flat(xs: seq<string>, sep: char): seq<string> {
    if xs == [] then [] else NonEmpty(Pieces(xs[0], sep)) + Flat(xs[1..], sep)
  }

  /** All the pieces of all the texts of a list, in order, empty ones included. */
  function CutAll(xs: seq<string>, sep: char): seq<string> {
    if xs == [] then [] else Pieces(xs[0], sep) + CutAll(xs[1..], sep)
  }

  /** An empty piece with a non-empty one after it: the kind of empty piece split keeps. */
  ghost predicate HasHole(ps: seq<string>) {
    exists i, j :: 0 <= i < j < |ps| && ps[i] == [] && ps[j] != []
  }

  /** Java `xs.removeAll(ys)`. */
  function RemoveAll(xs: seq<string>, ys: seq<string>): seq<string> {
    if xs == [] then [] else (if xs[0] in ys then [] else [xs[0]]) + RemoveAll(xs[1..], ys)
  }

  ghost predicate Free(xs: seq<string>, sep: char) {
    forall x <- xs :: sep !in x
  }

  ghost predicate NoDuplicates(xs: seq<string>) {
    forall i, j :: 0 <= i < j < |xs| ==> xs[i] != xs[j]
  }

  // ----- cutting and joining -----

  lemma Regroup(h: string, ps: seq<string>, qs: seq<string>)
    requires ps != []
    ensures [h] + (ps + qs) == ([h] + ps) + qs
    ensures (ps + qs)[0] == ps[0] && [h] + (ps + qs)[1..] == ([h] + ps[1..]) + qs
  {}

  lemma {:induction false} PiecesOfConcat(a: string, b: string, sep: char)
    ensures Pieces(a + [sep] + b, sep) == Pieces(a, sep) + Pieces(b, sep)
  {
    var s := a + [sep] + b;
    if a == [] {
      assert s[1..] == b;
    } else {
      var ps, qs := Pieces(a[1..], sep), Pieces(b, sep);
      assert s[0] == a[0] && s[1..] == a[1..] + [sep] + b;
      PiecesOfConcat(a[1..], b, sep);
      Regroup(if a[0] == sep then [] else [a[0]] + ps[0], ps, qs);
    }
  }

  lemma {:induction false} PiecesAreFree(s: string, sep: char)
    ensures Free(Pieces(s, sep), sep)
  {
    if s != [] {
      var rest, ps := Pieces(s[1..], sep), Pieces(s, sep);
      PiecesAreFree(s[1..], sep);
      assert rest[0] in rest;
      assert forall p <- rest[1..] :: p in rest;
    }
  }

  lemma {:induction false} PiecesWithoutSeparator(s: string, sep: char)
    requires sep !in s
    ensures Pieces(s, sep) == [s]
  {
    if s != [] {
      PiecesWithoutSeparator(s[1..], sep);
      assert s == [s[0]] + s[1..];
    }
  }

  /** Joining undoes cutting. */
  lemma {:induction false} JoinPieces(s: string, sep: char)
    ensures Join(Pieces(s, sep), sep) == s
  {
    if s != [] {
      var rest := Pieces(s[1..], sep);
      JoinPieces(s[1..], sep);
      var ps := Pieces(s, sep);
      if s[0] == sep {
        assert ps[1..] == rest;
      } else {
        assert ps[1..] == rest[1..];
      }
    }
  }

  /** Cutting undoes joining, for every non-empty list of separator-free texts. */
  lemma {:induction false} PiecesJoin(xs: seq<string>, sep: char)
    requires xs != [] && Free(xs, sep)
    ensures Pieces(Join(xs, sep), sep) == xs
  {
    PiecesWithoutSeparator(xs[0], sep);
    if |xs| > 1 {
      PiecesJoin(xs[1..], sep);
      PiecesOfConcat(xs[0], Join(xs[1..], sep), sep);
      assert xs == [xs[0]] + xs[1..];
    }
  }

  lemma {:induction false} DropTrailingShortens(xs: seq<string>)
    ensures DropTrailingEmpty(xs) != [] ==> DropTrailingEmpty(xs)[|DropTrailingEmpty(xs)| - 1] != []
  {
    if xs != [] && xs[|xs| - 1] == [] {
      DropTrailingShortens(xs[..|xs| - 1]);
    }
  }

  /** For a non-empty list of separator-free texts Java's split gives back what was joined exactly
      when the last text is not empty, or there is only one text. */
  lemma SplitJoin(xs: seq<string>, sep: char)
    requires xs != [] && Free(xs, sep)
    ensures Split(Join(xs, sep), sep) == xs <==> xs[|xs| - 1] != [] || |xs| == 1
  {
    PiecesJoin(xs, sep);
    var s := Join(xs, sep);
    if sep !in s {
      PiecesWithoutSeparator(s, sep);
    } else {
      DropTrailingShortens(xs);
    }
  }

  lemma SplitTwo(a: string, b: string, sep: char)
    requires sep !in a && sep !in b && b != []
    ensures Split(a + [sep] + b, sep) == [a, b]
  {
    assert [a, b][1..] == [b];
    SplitJoin([a, b], sep);
  }

  lemma {:induction false} JoinIsEmpty(xs: seq<string>, sep: char)
    ensures Join(xs, sep) == [] <==> xs == [] || xs == [[]]
  {}

  /** Length of a list when every text is followed by one separator. */
  function Weight(xs: seq<string>): nat {
    if xs == [] then 0 else |xs[0]| + 1 + Weight(xs[1..])
  }

  lemma {:induction false} WeightOfConcat(xs: seq<string>, ys: seq<string>)
    ensures Weight(xs + ys) == Weight(xs) + Weight(ys)
  {
    if xs == [] {
      assert xs + ys == ys;
    } else {
      assert (xs + ys)[1..] == xs[1..] + ys;
      WeightOfConcat(xs[1..], ys);
    }
  }

  lemma {:induction false} JoinLength(xs: seq<string>, sep: char)
    requires xs != []
    ensures |Join(xs, sep)| == Weight(xs) - 1
  {
    if |xs| > 1 {
      JoinLength(xs[1..], sep);
    }
  }

  // ----- dropping empty pieces -----

  lemma {:induction false} NonEmptyOfConcat(xs: seq<string>, ys: seq<string>)
    ensures NonEmpty(xs + ys) == NonEmpty(xs) + NonEmpty(ys)
  {
    if xs == [] {
      assert xs + ys == ys;
    } else {
      assert (xs + ys)[1..] == xs[1..] + ys;
      NonEmptyOfConcat(xs[1..], ys);
    }
  }

  lemma {:induction false} NonEmptyMembers(xs: seq<string>)
    ensures forall x :: x in NonEmpty(xs) <==> x in xs && x != []
  {
    if xs != [] {
      NonEmptyMembers(xs[1..]);
      assert xs == [xs[0]] + xs[1..];
    }
  }

  lemma {:induction false} NonEmptyIdentity(xs: seq<string>)
    requires [] !in xs
    ensures NonEmpty(xs) == xs
  {
    if xs != [] {
      assert [] !in xs[1..];
      NonEmptyIdentity(xs[1..]);
      assert xs == [xs[0]] + xs[1..];
    }
  }

  lemma {:induction false} NonEmptyDropTrailing(ps: seq<string>)
    ensures NonEmpty(DropTrailingEmpty(ps)) == NonEmpty(ps)
  {
    if ps != [] && ps[|ps| - 1] == [] {
      var front := ps[..|ps| - 1];
      NonEmptyDropTrailing(front);
      assert ps == front + [[]];
      NonEmptyOfConcat(front, [[]]);
    }
  }

  /** What Java's split drops never matters to a reader that skips empty pieces. */
  lemma NonEmptySplit(s: string, sep: char)
    ensures NonEmpty(Split(s, sep)) == NonEmpty(Pieces(s, sep))
  {
    if sep !in s {
      PiecesWithoutSeparator(s, sep);
    } else {
      NonEmptyDropTrailing(Pieces(s, sep));
    }
  }

  // ----- flattening -----

  lemma {:induction false} FlatOfConcat(xs: seq<string>, ys: seq<string>, sep: char)
    ensures Flat(xs + ys, sep) == Flat(xs, sep) + Flat(ys, sep)
  {
    if xs == [] {
      assert xs + ys == ys;
    } else {
      assert (xs + ys)[1..] == xs[1..] + ys;
      FlatOfConcat(xs[1..], ys, sep);
    }
  }

  lemma {:induction false} FlatMembers(xs: seq<string>, sep: char, p: string)
    ensures p in Flat(xs, sep) <==> p != [] && exists x :: x in xs && p in Pieces(x, sep)
  {
    if xs != [] {
      FlatMembers(xs[1..], sep, p);
      NonEmptyMembers(Pieces(xs[0], sep));
      if x :| x in xs && p in Pieces(x, sep) {
        assert x == xs[0] || x in xs[1..];
      }
    }
  }

  lemma {:induction false} FlatOfFree(xs: seq<string>, sep: char)
    requires Free(xs, sep)
    ensures Flat(xs, sep) == NonEmpty(xs)
  {
    if xs != [] {
      PiecesWithoutSeparator(xs[0], sep);
      FlatOfFree(xs[1..], sep);
      NonEmptyOfConcat([xs[0]], xs[1..]);
      assert xs == [xs[0]] + xs[1..];
    }
  }

  lemma FlatIsFree(xs: seq<string>, sep: char)
    ensures Free(Flat(xs, sep), sep) && [] !in Flat(xs, sep)
  {
    forall p
      ensures p in Flat(xs, sep) ==> p != [] && sep !in p
    {
      FlatMembers(xs, sep, p);
      if x :| x in xs && p in Pieces(x, sep) {
        PiecesAreFree(x, sep);
      }
    }
  }

  /** Reading back a joined list yields the flattened list, whatever the list holds. */
  lemma {:induction false} NonEmptyJoin(xs: seq<string>, sep: char)
    ensures NonEmpty(Pieces(Join(xs, sep), sep)) == Flat(xs, sep)
  {
    if |xs| == 1 {
      assert xs[1..] == [];
    } else if |xs| > 1 {
      var tail := Join(xs[1..], sep);
      NonEmptyJoin(xs[1..], sep);
      PiecesOfConcat(xs[0], tail, sep);
      NonEmptyOfConcat(Pieces(xs[0], sep), Pieces(tail, sep));
    }
  }

  // ----- empty pieces that split keeps -----

  lemma {:induction false} PiecesOfJoin(xs: seq<string>, sep: char)
    requires xs != []
    ensures Pieces(Join(xs, sep), sep) == CutAll(xs, sep)
  {
    if |xs| == 1 {
      assert xs[1..] == [];
    } else {
      PiecesOfJoin(xs[1..], sep);
      PiecesOfConcat(xs[0], Join(xs[1..], sep), sep);
    }
  }

  lemma {:induction false} CutAllOfConcat(xs: seq<string>, ys: seq<string>, sep: char)
    ensures CutAll(xs + ys, sep) == CutAll(xs, sep) + CutAll(ys, sep)
  {
    if xs == [] {
      assert xs + ys == ys;
    } else {
      assert (xs + ys)[1..] == xs[1..] + ys;
      CutAllOfConcat(xs[1..], ys, sep);
    }
  }

  lemma {:induction false} CutAllOfFree(xs: seq<string>, sep: char)
    requires Free(xs, sep)
    ensures CutAll(xs, sep) == xs
  {
    if xs != [] {
      PiecesWithoutSeparator(xs[0], sep);
      CutAllOfFree(xs[1..], sep);
      assert xs == [xs[0]] + xs[1..];
    }
  }

  lemma {:induction false} FlatIsNonEmptyCut(xs: seq<string>, sep: char)
    ensures Flat(xs, sep) == NonEmpty(CutAll(xs, sep))
  {
    if xs != [] {
      FlatIsNonEmptyCut(xs[1..], sep);
      NonEmptyOfConcat(Pieces(xs[0], sep), CutAll(xs[1..], sep));
    }
  }

  /** Non-empty texts in front make no hole. */
  lemma HoleAfterNonEmpty(xs: seq<string>, ys: seq<string>)
    requires [] !in xs
    ensures HasHole(xs + ys) <==> HasHole(ys)
  {
    if i, j :| 0 <= i < j < |xs + ys| && (xs + ys)[i] == [] && (xs + ys)[j] != [] {
      assert i >= |xs|;
      assert ys[i - |xs|] == [] && ys[j - |xs|] != [];
    }
    if i, j :| 0 <= i < j < |ys| && ys[i] == [] && ys[j] != [] {
      assert (xs + ys)[|xs| + i] == [] && (xs + ys)[|xs| + j] != [];
    }
  }

  lemma {:induction false} DropTrailingHole(ps: seq<string>)
    ensures [] in DropTrailingEmpty(ps) <==> HasHole(ps)
  {
    if ps != [] {
      var n := |ps| - 1;
      if ps[n] == [] {
        DropTrailingHole(ps[..n]);
        assert HasHole(ps) ==> HasHole(ps[..n]) by {
          if i, j :| 0 <= i < j < |ps| && ps[i] == [] && ps[j] != [] {
            assert ps[..n][i] == [] && ps[..n][j] != [];
          }
        }
      } else if [] in ps {
        var i :| 0 <= i < |ps| && ps[i] == [];
        assert ps[i] == [] && ps[n] != [];
      }
    }
  }

  lemma SplitHole(s: string, sep: char)
    requires s != []
    ensures [] in Split(s, sep) <==> HasHole(Pieces(s, sep))
  {
    if sep !in s {
      PiecesWithoutSeparator(s, sep);
    } else {
      DropTrailingHole(Pieces(s, sep));
    }
  }

  // ----- removing -----

  lemma {:induction false} RemoveAllOfConcat(xs: seq<string>, ys: seq<string>, rs: seq<string>)
    ensures RemoveAll(xs + ys, rs) == RemoveAll(xs, rs) + RemoveAll(ys, rs)
  {
    if xs == [] {
      assert xs + ys == ys;
    } else {
      assert (xs + ys)[1..] == xs[1..] + ys;
      RemoveAllOfConcat(xs[1..], ys, rs);
    }
  }

  lemma {:induction false} RemoveAllMembers(xs: seq<string>, rs: seq<string>)
    ensures forall x :: x in RemoveAll(xs, rs) <==> x in xs && x !in rs
  {
    if xs != [] {
      RemoveAllMembers(xs[1..], rs);
      assert xs == [xs[0]] + xs[1..];
    }
  }

  lemma RemoveAllIsEmpty(xs: seq<string>, rs: seq<string>)
    ensures RemoveAll(xs, rs) == [] <==> forall x <- xs :: x in rs
  {
    RemoveAllMembers(xs, rs);
    if RemoveAll(xs, rs) != [] {
      assert RemoveAll(xs, rs)[0] in RemoveAll(xs, rs);
    }
  }

  lemma {:induction false} RemoveAllIdentity(xs: seq<string>, rs: seq<string>)
    requires forall x <- xs :: x !in rs
    ensures RemoveAll(xs, rs) == xs
  {
    if xs != [] {
      RemoveAllIdentity(xs[1..], rs);
      assert xs == [xs[0]] + xs[1..];
    }
  }

  lemma {:induction false} RemoveAllKeepsNoDuplicates(xs: seq<string>, rs: seq<string>)
    requires NoDuplicates(xs)
    ensures NoDuplicates(RemoveAll(xs, rs))
  {
    if xs != [] {
      RemoveAllKeepsNoDuplicates(xs[1..], rs);
      RemoveAllMembers(xs[1..], rs);
    }
  }
}
