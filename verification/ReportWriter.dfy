/**
  Bounded report writing as the Wi-Fi command library does it: a cursor, an end mark, and
  after each `snprintf` a test whether the piece was cut short.
 */
module ReportWriter {
  import opened Text

  function Concat(pieces: seq<string>): string {
    if pieces == [] then [] else pieces[0] + Concat(pieces[1..])
  }

  lemma {:induction false} ConcatOfAppend(a: seq<string>, b: seq<string>)
    ensures Concat(a + b) == Concat(a) + Concat(b)
  {
    if a == [] {
      assert a + b == b;
    } else {
      assert (a + b)[1..] == a[1..] + b;
      ConcatOfAppend(a[1..], b);
    }
  }

  lemma ConcatOfOne(p: string)
    ensures Concat([p]) == p
  {}

  /** How many leading pieces are written into `room` bytes before one is cut short. */
  function Fitting(pieces: seq<string>, room: int): (k: nat)
    ensures k <= |pieces|
    decreases pieces
  {
    if pieces == [] || |pieces[0]| >= room then 0 else 1 + Fitting(pieces[1..], room - |pieces[0]|)
  }

  /** The leading pieces written are the longest run whose total is strictly less than the
      room, and so is every shorter run. */
  lemma {:induction false} FittingExactly(pieces: seq<string>, room: nat, k: nat)
    requires k <= |pieces|
    ensures k <= Fitting(pieces, room) <==> k == 0 || |Concat(pieces[..k])| < room
    decreases pieces
  {
    if k > 0 {
      var p, rest := pieces[0], pieces[1..];
      assert pieces[..k] == [p] + rest[..k - 1];
      assert pieces[..k][1..] == rest[..k - 1];
      if |p| < room {
        FittingExactly(rest, room - |p|, k - 1);
        assert k == 1 ==> rest[..k - 1] == [];
      }
    }
  }

  // ----- the cursor -----

  /** `snprintf` at position `pos`: at most one byte less than the room is printed, then a NUL;
      the result is the length the whole text would have taken. */
  method Snprintf(buf: array<char>, pos: nat, text: string) returns (ret: nat)
    requires pos <= buf.Length
    modifies buf
    ensures ret == |text|
    ensures buf[..pos] == old(buf[..pos])
    ensures |text| < buf.Length - pos ==> buf[pos..pos + |text|] == text && buf[pos + |text|] == NUL
    ensures pos < buf.Length && |text| >= buf.Length - pos ==> buf[pos..] == text[..buf.Length - pos - 1] + [NUL]
  {
    var room := buf.Length - pos;
    if room > 0 {
      var n := if |text| < room then |text| else room - 1;
      forall i | 0 <= i < n {
        buf[pos + i] := text[i];
      }
      buf[pos + n] := NUL;
    }
    ret := |text|;
  }

  /** The first `k` pieces stand at the start of the buffer, the cursor after them. */
  ghost predicate Progress(buf: array<char>, pos: nat, pieces: seq<string>, k: nat)
    reads buf
  {
    k <= |pieces| && pos <= buf.Length && (k == 0 || pos < buf.Length) && buf[..pos] == Concat(pieces[..k])
  }

  /** The cursor stands after exactly the pieces that fit. */
  ghost predicate Stopped(buf: array<char>, pos: nat, pieces: seq<string>)
    reads buf
  {
    pos <= buf.Length && buf[..pos] == Concat(pieces[..Fitting(pieces, buf.Length)])
  }

  lemma Started(buf: array<char>, pieces: seq<string>)
    ensures Progress(buf, 0, pieces, 0)
  {}

  lemma {:induction false} WholeFits(pieces: seq<string>, room: int)
    ensures Fitting(pieces, room) == |pieces| <==> pieces == [] || |Concat(pieces)| < room
    decreases pieces
  {
    if pieces != [] {
      WholeFits(pieces[1..], room - |pieces[0]|);
      assert |Concat(pieces)| == |pieces[0]| + |Concat(pieces[1..])|;
      assert pieces[1..] == [] ==> Concat(pieces[1..]) == [];
    }
  }

  lemma Finished(buf: array<char>, pos: nat, pieces: seq<string>)
    requires Progress(buf, pos, pieces, |pieces|)
    ensures Stopped(buf, pos, pieces) && Fitting(pieces, buf.Length) == |pieces|
    ensures buf[..pos] == Concat(pieces)
  {
    assert pieces[..|pieces|] == pieces;
    assert |buf[..pos]| == pos;
    WholeFits(pieces, buf.Length);
  }

  /** One piece and its truncation test. */
  method Put(buf: array<char>, pos: nat, text: string, ghost pieces: seq<string>, ghost k: nat) returns (fits: bool, next: nat)
    requires Progress(buf, pos, pieces, k) && k < |pieces| && pieces[k] == text
    modifies buf
    ensures fits ==> Progress(buf, next, pieces, k + 1)
    ensures !fits ==> next == pos && k == Fitting(pieces, buf.Length) && Stopped(buf, next, pieces)
  {
    var ret := Snprintf(buf, pos, text);
    assert pieces[..k + 1] == pieces[..k] + [text];
    ConcatOfAppend(pieces[..k], [text]);
    ConcatOfOne(text);
    if ret >= buf.Length - pos {
      FittingExactly(pieces, buf.Length, k);
      FittingExactly(pieces, buf.Length, k + 1);
      return false, pos;
    }
    assert buf[..pos + ret] == buf[..pos] + buf[pos..pos + ret];
    return true, pos + ret;
  }

  /** Four pieces in a row, each with its test. */
  method PutFour(buf: array<char>, from: nat, texts: seq<string>, ghost pieces: seq<string>, ghost k: nat) returns (fits: bool, pos: nat)
    requires Progress(buf, from, pieces, k) && k + 4 <= |pieces| && |texts| == 4 && pieces[k..k + 4] == texts
    modifies buf
    ensures fits ==> Progress(buf, pos, pieces, k + 4)
    ensures !fits ==> Fitting(pieces, buf.Length) < k + 4 && Stopped(buf, pos, pieces)
  {
    assert pieces[k] == texts[0] && pieces[k + 1] == texts[1] && pieces[k + 2] == texts[2] && pieces[k + 3] == texts[3];
    fits, pos := Put(buf, from, texts[0], pieces, k);
    if !fits { return; }
    fits, pos := Put(buf, pos, texts[1], pieces, k + 1);
    if !fits { return; }
    fits, pos := Put(buf, pos, texts[2], pieces, k + 2);
    if !fits { return; }
    fits, pos := Put(buf, pos, texts[3], pieces, k + 3);
  }

  // ----- line framing -----

  /** Text with its only newline at the end. */
  predicate IsLine(p: string) {
    p != [] && p[|p| - 1] == '\n' && '\n' !in p[..|p| - 1]
  }

  function Line(name: string, value: string): string {
    name + value + "\n"
  }

  lemma LineIsLine(name: string, value: string)
    requires '\n' !in name && '\n' !in value
    ensures IsLine(Line(name, value))
  {}

  lemma LineInjective(name: string, v: string, w: string)
    requires Line(name, v) == Line(name, w)
    ensures v == w
  {
    var a, b, k := Line(name, v), Line(name, w), |name|;
    assert a[k..|a| - 1] == v && b[k..|b| - 1] == w;
  }

  ghost predicate AllLines(lines: seq<string>) {
    forall i :: 0 <= i < |lines| ==> IsLine(lines[i])
  }

  lemma FourLines(ps: seq<string>)
    requires |ps| == 4 && IsLine(ps[0]) && IsLine(ps[1]) && IsLine(ps[2]) && IsLine(ps[3])
    ensures AllLines(ps)
  {}

  lemma AllLinesOfConcat(a: seq<string>, b: seq<string>)
    requires AllLines(a) && AllLines(b)
    ensures AllLines(a + b)
  {}

  function WithoutLast(p: string): string {
    if p == [] then [] else p[..|p| - 1]
  }

  function Stripped(lines: seq<string>): (texts: seq<string>)
    ensures |texts| == |lines|
    ensures forall i :: 0 <= i < |lines| ==> texts[i] == WithoutLast(lines[i])
  {
    seq(|lines|, i requires 0 <= i < |lines| => WithoutLast(lines[i]))
  }

  lemma StrippedStep(lines: seq<string>)
    requires lines != []
    ensures Stripped(lines) == [WithoutLast(lines[0])] + Stripped(lines[1..])
  {}

  lemma CutOneLine(line: string, rest: string)
    requires IsLine(line)
    ensures Pieces(line + rest, '\n') == [WithoutLast(line)] + Pieces(rest, '\n')
  {
    hide Pieces;
    var text := WithoutLast(line);
    LastIsNewline(line);
    PiecesOfConcat(text, rest, '\n');
    PiecesWithoutSeparator(text, '\n');
  }

  lemma {:induction false} CutIntoLines(lines: seq<string>)
    requires AllLines(lines)
    ensures Pieces(Concat(lines), '\n') == Stripped(lines) + [[]]
  {
    if lines != [] {
      hide Pieces, IsLine, WithoutLast;
      CutIntoLines(lines[1..]);
      CutOneLine(lines[0], Concat(lines[1..]));
      StrippedStep(lines);
    }
  }

  lemma StrippedInjective(a: seq<string>, b: seq<string>)
    requires AllLines(a) && AllLines(b) && Stripped(a) == Stripped(b)
    ensures a == b
  {
    forall i | 0 <= i < |a|
      ensures a[i] == b[i]
    {
      assert Stripped(a)[i] == Stripped(b)[i];
      LastIsNewline(a[i]);
      LastIsNewline(b[i]);
    }
  }

  lemma LastIsNewline(p: string)
    requires IsLine(p)
    ensures p == WithoutLast(p) + ['\n']
  {}

  lemma AppendInjective(x: seq<string>, y: seq<string>, e: string)
    requires x + [e] == y + [e]
    ensures x == y
  {
    assert x == (x + [e])[..|x + [e]| - 1] && y == (y + [e])[..|y + [e]| - 1];
  }

  /** Line framing loses nothing: equal reports have equal lines. */
  lemma LinesInjective(a: seq<string>, b: seq<string>)
    requires AllLines(a) && AllLines(b) && Concat(a) == Concat(b)
    ensures a == b
  {
    CutIntoLines(a);
    CutIntoLines(b);
    AppendInjective(Stripped(a), Stripped(b), []);
    StrippedInjective(a, b);
  }
}
