/**
  The statistics report loses nothing: two stations with the same report have the same
  statistics, field by field.
 */
module StatisticsInverse {
  import opened Text
  import opened Numerals
  import opened ReportWriter
  import opened StatisticsReport

  // ----- values -----

  lemma CountInjective(v: u32, w: u32)
    requires Count(v) == Count(w)
    ensures v == w
  {
    SignedDecimalInjective(AsSigned32(v), AsSigned32(w));
  }

  lemma WordInjective(v: u32, w: u32)
    requires Word(v) == Word(w)
    ensures v == w
  {
    assert Pow16(8) == 0x1_0000_0000;
    HexInjective(v, w, 8, true);
  }

  lemma ByteInjective(v: u8, w: u8, upper: bool)
    requires Hex(v, 2, upper) == Hex(w, 2, upper)
    ensures v == w
  {
    assert Pow16(2) == 0x100;
    HexInjective(v, w, 2, upper);
  }

  function Counts(q: Quad): (cs: seq<string>)
    ensures |cs| == 4 && forall i :: 0 <= i < 4 ==> cs[i] == Count(q[i])
  {
    [Count(q[0]), Count(q[1]), Count(q[2]), Count(q[3])]
  }

  lemma QuadInjective(p: Quad, q: Quad)
    requires QuadText(p) == QuadText(q)
    ensures p == q
  {
    CountsFree(p);
    CountsFree(q);
    PiecesJoin(Counts(p), ':');
    PiecesJoin(Counts(q), ':');
    forall i | 0 <= i < 4
      ensures p[i] == q[i]
    {
      assert Counts(p)[i] == Counts(q)[i];
      CountInjective(p[i], q[i]);
    }
  }

  lemma CountsFree(q: Quad)
    ensures Free(Counts(q), ':') && Free(Counts(q), '\n')
  {}

  function MacBytes(m: Mac): (cs: seq<string>)
    ensures |cs| == 6 && forall i :: 0 <= i < 6 ==> cs[i] == Hex(m[i], 2, false)
  {
    [Hex(m[0], 2, false), Hex(m[1], 2, false), Hex(m[2], 2, false),
     Hex(m[3], 2, false), Hex(m[4], 2, false), Hex(m[5], 2, false)]
  }

  lemma MacFree(m: Mac)
    ensures Free(MacBytes(m), ':') && Free(MacBytes(m), '\n')
  {}

  lemma MacInjective(m: Mac, n: Mac)
    requires MacText(m) == MacText(n)
    ensures m == n
  {
    MacFree(m);
    MacFree(n);
    PiecesJoin(MacBytes(m), ':');
    PiecesJoin(MacBytes(n), ':');
    forall i | 0 <= i < 6
      ensures m[i] == n[i]
    {
      assert MacBytes(m)[i] == MacBytes(n)[i];
      ByteInjective(m[i], n[i], false);
    }
  }

  function HexText(bytes: Reserved, i: nat, hi: nat): string
    requires i <= hi <= 32
  {
    Concat(HexPieces(bytes, i, hi))
  }

  lemma HexTextStep(bytes: Reserved, i: nat, hi: nat)
    requires i < hi <= 32
    ensures HexText(bytes, i, hi) ==
            Hex(bytes[i], 2, true) + (if (i + 1) % 4 == 0 then " " else "") + HexText(bytes, i + 1, hi)
  {
    var byte, space, rest := [Hex(bytes[i], 2, true)], if (i + 1) % 4 == 0 then [" "] else [], HexPieces(bytes, i + 1, hi);
    ConcatOfAppend(byte + space, rest);
    ConcatOfAppend(byte, space);
    ConcatOfOne(byte[0]);
    ConcatOfOne(" ");
  }

  lemma {:induction false} HexTextInjective(a: Reserved, b: Reserved, i: nat, hi: nat)
    requires i <= hi <= 32 && HexText(a, i, hi) == HexText(b, i, hi)
    ensures forall j :: i <= j < hi ==> a[j] == b[j]
    decreases hi - i
  {
    if i < hi {
      HexTextStep(a, i, hi);
      HexTextStep(b, i, hi);
      var x, y, n := HexText(a, i, hi), HexText(b, i, hi), if (i + 1) % 4 == 0 then 3 else 2;
      assert x[..2] == Hex(a[i], 2, true) && y[..2] == Hex(b[i], 2, true);
      assert x[n..] == HexText(a, i + 1, hi) && y[n..] == HexText(b, i + 1, hi);
      ByteInjective(a[i], b[i], true);
      HexTextInjective(a, b, i + 1, hi);
    }
  }

  lemma {:induction false} HexTextFree(bytes: Reserved, i: nat, hi: nat)
    requires i <= hi <= 32
    ensures '\n' !in HexText(bytes, i, hi)
    decreases hi - i
  {
    if i < hi {
      HexTextStep(bytes, i, hi);
      HexTextFree(bytes, i + 1, hi);
    }
  }

  lemma {:induction false} JoinFree(xs: seq<string>, sep: char, c: char)
    requires c != sep && Free(xs, c)
    ensures c !in Join(xs, sep)
  {
    if |xs| > 1 {
      JoinFree(xs[1..], sep, c);
      assert xs[0] in xs;
    } else if |xs| == 1 {
      assert xs[0] in xs;
    }
  }

  // ----- the report as lines -----

  function Values(st: StaStatistics): seq<string> {
    StationPart(st) + RatePart(st) + TimePart(st) + QueuePart(st) + [FlagLine(st)]
  }

  function Rows(bytes: Reserved): seq<string> {
    [Line("reserved0=", HexText(bytes, 0, ROW)), Line("reserved1=", HexText(bytes, ROW, 2 * ROW)), "====\n"]
  }

  lemma RowIsLine(name: string, bytes: Reserved, lo: nat, hi: nat)
    requires lo <= hi <= 32
    ensures Concat(BytesPieces(name, bytes, lo, hi)) == Line(name, HexText(bytes, lo, hi))
  {
    var row := HexPieces(bytes, lo, hi);
    ConcatOfAppend([name] + row, ["\n"]);
    ConcatOfAppend([name], row);
    ConcatOfOne(name);
    ConcatOfOne("\n");
  }

  /** A run of pieces may be taken as one piece. */
  lemma Merge(v: seq<string>, r: seq<string>, w: seq<string>)
    ensures Concat(v + r + w) == Concat(v + [Concat(r)] + w)
  {
    ConcatOfAppend(v + r, w);
    ConcatOfAppend(v, r);
    ConcatOfAppend(v + [Concat(r)], w);
    ConcatOfAppend(v, [Concat(r)]);
    ConcatOfOne(Concat(r));
  }

  lemma MergeTwo(v: seq<string>, r: seq<string>, s: seq<string>, t: string)
    ensures Concat(v + r + s + [t]) == Concat(v + [Concat(r), Concat(s), t])
  {
    assert v + r + s + [t] == v + r + (s + [t]);
    Merge(v, r, s + [t]);
    assert v + [Concat(r)] + (s + [t]) == (v + [Concat(r)]) + s + [t];
    Merge(v + [Concat(r)], s, [t]);
    assert (v + [Concat(r)]) + [Concat(s)] + [t] == v + [Concat(r), Concat(s), t];
  }

  lemma ReportAsLines(st: StaStatistics)
    ensures Report(st) == Concat(Values(st) + Rows(st.reserved))
  {
    RowIsLine("reserved0=", st.reserved, 0, ROW);
    RowIsLine("reserved1=", st.reserved, ROW, 2 * ROW);
    MergeTwo(Values(st), BytesPieces("reserved0=", st.reserved, 0, ROW), BytesPieces("reserved1=", st.reserved, ROW, 2 * ROW), "====\n");
  }

  lemma MacLine(name: string, m: Mac)
    requires '\n' !in name
    ensures IsLine(Line(name, MacText(m)))
  {
    MacFree(m);
    JoinFree(MacBytes(m), ':', '\n');
    LineIsLine(name, MacText(m));
  }

  lemma StationLineByLine(st: StaStatistics)
    ensures IsLine(Line("sta_addr=", MacText(st.addr)))
    ensures IsLine(Line("link_score=", Decimal(st.linkScore)))
    ensures IsLine(Line("per=", Decimal(st.per)))
    ensures IsLine(Line("rssi=", SignedDecimal(st.rssi)))
  {
    MacLine("sta_addr=", st.addr);
    LineIsLine("link_score=", Decimal(st.linkScore));
    LineIsLine("per=", Decimal(st.per));
    LineIsLine("rssi=", SignedDecimal(st.rssi));
  }

  lemma StationLines(st: StaStatistics)
    ensures AllLines(StationPart(st))
  {
    StationLineByLine(st);
    FourLines(StationPart(st));
  }

  lemma RateLines(st: StaStatistics)
    ensures AllLines(RatePart(st))
  {
    hide IsLine, Line;
    LineIsLine("phy=0x", Word(st.phyMode));
    LineIsLine("rate=", Halves(st.txRateHalves));
    LineIsLine("total_cnt=", Count(st.txTotal));
    LineIsLine("threshold_cnt=", Count(st.txExcThreshold));
    FourLines(RatePart(st));
  }

  lemma TimeLines(st: StaStatistics)
    ensures AllLines(TimePart(st))
  {
    hide IsLine, Line;
    LineIsLine("fail_cnt=", Count(st.txFail));
    LineIsLine("timeout_cnt=", Count(st.txTimeout));
    LineIsLine("apt=", Count(st.txAvgProcessTime));
    LineIsLine("aat=", Count(st.txAvgAirTime));
    FourLines(TimePart(st));
  }

  lemma QuadLine(name: string, q: Quad)
    requires '\n' !in name
    ensures IsLine(Line(name, QuadText(q)))
  {
    CountsFree(q);
    JoinFree(Counts(q), ':', '\n');
    LineIsLine(name, QuadText(q));
  }

  lemma QueueLineByLine(st: StaStatistics)
    ensures IsLine(Line("TC_buf_full_cnt=", QuadText(st.tcBufFull)))
    ensures IsLine(Line("TC_sta_que_len=", QuadText(st.tcQueLen)))
    ensures IsLine(Line("TC_avg_que_len=", QuadText(st.tcAvgQueLen)))
    ensures IsLine(Line("TC_cur_que_len=", QuadText(st.tcCurQueLen)))
  {
    hide IsLine, Line, QuadText;
    QuadLine("TC_buf_full_cnt=", st.tcBufFull);
    QuadLine("TC_sta_que_len=", st.tcQueLen);
    QuadLine("TC_avg_que_len=", st.tcAvgQueLen);
    QuadLine("TC_cur_que_len=", st.tcCurQueLen);
  }

  lemma QueueLines(st: StaStatistics)
    ensures AllLines(QueuePart(st))
  {
    QueueLineByLine(st);
    FourLines(QueuePart(st));
  }

  lemma RowLine(name: string, bytes: Reserved, lo: nat, hi: nat)
    requires lo <= hi <= 32 && '\n' !in name
    ensures IsLine(Line(name, HexText(bytes, lo, hi)))
  {
    HexTextFree(bytes, lo, hi);
    LineIsLine(name, HexText(bytes, lo, hi));
  }

  lemma RowLines(bytes: Reserved)
    ensures AllLines(Rows(bytes))
  {
    RowLine("reserved0=", bytes, 0, ROW);
    RowLine("reserved1=", bytes, ROW, 2 * ROW);
    ClosingLine();
    ThreeLines(Line("reserved0=", HexText(bytes, 0, ROW)), Line("reserved1=", HexText(bytes, ROW, 2 * ROW)), "====\n");
  }

  lemma ThreeLines(x: string, y: string, z: string)
    requires IsLine(x) && IsLine(y) && IsLine(z)
    ensures AllLines([x, y, z])
  {}

  lemma ClosingLine()
    ensures IsLine("====\n")
  {}

  lemma FlagIsLine(st: StaStatistics)
    ensures AllLines([FlagLine(st)])
  {}

  lemma ReportLines(st: StaStatistics)
    ensures AllLines(Values(st) + Rows(st.reserved))
  {
    StationLines(st);
    RateLines(st);
    TimeLines(st);
    QueueLines(st);
    FlagIsLine(st);
    RowLines(st.reserved);
    var a, b, c, d, e, f := StationPart(st), RatePart(st), TimePart(st), QueuePart(st), [FlagLine(st)], Rows(st.reserved);
    AllLinesOfConcat(a, b);
    AllLinesOfConcat(a + b, c);
    AllLinesOfConcat(a + b + c, d);
    AllLinesOfConcat(a + b + c + d, e);
    AllLinesOfConcat(a + b + c + d + e, f);
  }

  // ----- reading the lines back -----

  lemma SameStation(s: StaStatistics, t: StaStatistics)
    requires StationPart(s) == StationPart(t)
    ensures s.addr == t.addr && s.linkScore == t.linkScore && s.per == t.per && s.rssi == t.rssi
  {
    var a, b := StationPart(s), StationPart(t);
    assert a[0] == b[0] && a[1] == b[1] && a[2] == b[2] && a[3] == b[3];
    LineInjective("sta_addr=", MacText(s.addr), MacText(t.addr));
    LineInjective("link_score=", Decimal(s.linkScore), Decimal(t.linkScore));
    LineInjective("per=", Decimal(s.per), Decimal(t.per));
    LineInjective("rssi=", SignedDecimal(s.rssi), SignedDecimal(t.rssi));
    MacInjective(s.addr, t.addr);
    DecimalInjective(s.linkScore, t.linkScore);
    DecimalInjective(s.per, t.per);
    SignedDecimalInjective(s.rssi, t.rssi);
  }

  lemma SameRate(s: StaStatistics, t: StaStatistics)
    requires RatePart(s) == RatePart(t)
    ensures s.phyMode == t.phyMode && s.txRateHalves == t.txRateHalves
    ensures s.txTotal == t.txTotal && s.txExcThreshold == t.txExcThreshold
  {
    var a, b := RatePart(s), RatePart(t);
    assert a[0] == b[0] && a[1] == b[1] && a[2] == b[2] && a[3] == b[3];
    LineInjective("phy=0x", Word(s.phyMode), Word(t.phyMode));
    LineInjective("rate=", Halves(s.txRateHalves), Halves(t.txRateHalves));
    LineInjective("total_cnt=", Count(s.txTotal), Count(t.txTotal));
    LineInjective("threshold_cnt=", Count(s.txExcThreshold), Count(t.txExcThreshold));
    WordInjective(s.phyMode, t.phyMode);
    HalvesInjective(s.txRateHalves, t.txRateHalves);
    CountInjective(s.txTotal, t.txTotal);
    CountInjective(s.txExcThreshold, t.txExcThreshold);
  }

  lemma SameTime(s: StaStatistics, t: StaStatistics)
    requires TimePart(s) == TimePart(t)
    ensures s.txFail == t.txFail && s.txTimeout == t.txTimeout
    ensures s.txAvgProcessTime == t.txAvgProcessTime && s.txAvgAirTime == t.txAvgAirTime
  {
    var a, b := TimePart(s), TimePart(t);
    assert a[0] == b[0] && a[1] == b[1] && a[2] == b[2] && a[3] == b[3];
    LineInjective("fail_cnt=", Count(s.txFail), Count(t.txFail));
    LineInjective("timeout_cnt=", Count(s.txTimeout), Count(t.txTimeout));
    LineInjective("apt=", Count(s.txAvgProcessTime), Count(t.txAvgProcessTime));
    LineInjective("aat=", Count(s.txAvgAirTime), Count(t.txAvgAirTime));
    CountInjective(s.txFail, t.txFail);
    CountInjective(s.txTimeout, t.txTimeout);
    CountInjective(s.txAvgProcessTime, t.txAvgProcessTime);
    CountInjective(s.txAvgAirTime, t.txAvgAirTime);
  }

  lemma SameQueues(s: StaStatistics, t: StaStatistics)
    requires QueuePart(s) == QueuePart(t)
    ensures s.tcBufFull == t.tcBufFull && s.tcQueLen == t.tcQueLen
    ensures s.tcAvgQueLen == t.tcAvgQueLen && s.tcCurQueLen == t.tcCurQueLen
  {
    var a, b := QueuePart(s), QueuePart(t);
    assert a[0] == b[0] && a[1] == b[1] && a[2] == b[2] && a[3] == b[3];
    LineInjective("TC_buf_full_cnt=", QuadText(s.tcBufFull), QuadText(t.tcBufFull));
    LineInjective("TC_sta_que_len=", QuadText(s.tcQueLen), QuadText(t.tcQueLen));
    LineInjective("TC_avg_que_len=", QuadText(s.tcAvgQueLen), QuadText(t.tcAvgQueLen));
    LineInjective("TC_cur_que_len=", QuadText(s.tcCurQueLen), QuadText(t.tcCurQueLen));
    QuadInjective(s.tcBufFull, t.tcBufFull);
    QuadInjective(s.tcQueLen, t.tcQueLen);
    QuadInjective(s.tcAvgQueLen, t.tcAvgQueLen);
    QuadInjective(s.tcCurQueLen, t.tcCurQueLen);
  }

  lemma SameRow(name: string, a: Reserved, b: Reserved, lo: nat, hi: nat)
    requires lo <= hi <= 32 && Line(name, HexText(a, lo, hi)) == Line(name, HexText(b, lo, hi))
    ensures forall j :: lo <= j < hi ==> a[j] == b[j]
  {
    LineInjective(name, HexText(a, lo, hi), HexText(b, lo, hi));
    HexTextInjective(a, b, lo, hi);
  }

  lemma SameRows(a: Reserved, b: Reserved)
    requires Rows(a) == Rows(b)
    ensures a == b
  {
    assert Rows(a)[0] == Rows(b)[0] && Rows(a)[1] == Rows(b)[1];
    SameLines("reserved0=", "reserved1=", a, b, ROW);
  }

  lemma SameLines(name0: string, name1: string, a: Reserved, b: Reserved, mid: nat)
    requires mid <= 32
    requires Line(name0, HexText(a, 0, mid)) == Line(name0, HexText(b, 0, mid))
    requires Line(name1, HexText(a, mid, 32)) == Line(name1, HexText(b, mid, 32))
    ensures a == b
  {
    hide HexText, Line;
    SameRow(name0, a, b, 0, mid);
    SameRow(name1, a, b, mid, 32);
  }

  lemma SameParts(a: seq<string>, b: seq<string>, c: seq<string>, d: seq<string>, e: string, f: seq<string>,
                  a': seq<string>, b': seq<string>, c': seq<string>, d': seq<string>, e': string, f': seq<string>)
    requires |a| == |b| == |c| == |d| == |a'| == |b'| == |c'| == |d'| == 4
    requires a + b + c + d + [e] + f == a' + b' + c' + d' + [e'] + f'
    ensures a == a' && b == b' && c == c' && d == d' && e == e' && f == f'
  {
    var x, y := a + b + c + d + [e] + f, a' + b' + c' + d' + [e'] + f';
    assert x[0..4] == a && x[4..8] == b && x[8..12] == c && x[12..16] == d && x[16] == e && x[17..] == f;
    assert y[0..4] == a' && y[4..8] == b' && y[8..12] == c' && y[12..16] == d' && y[16] == e' && y[17..] == f';
  }

  lemma SameReport(s: StaStatistics, t: StaStatistics)
    requires Values(s) + Rows(s.reserved) == Values(t) + Rows(t.reserved)
    ensures s == t
  {
    SameParts(StationPart(s), RatePart(s), TimePart(s), QueuePart(s), FlagLine(s), Rows(s.reserved),
              StationPart(t), RatePart(t), TimePart(t), QueuePart(t), FlagLine(t), Rows(t.reserved));
    SameStation(s, t);
    SameRate(s, t);
    SameTime(s, t);
    SameQueues(s, t);
    LineInjective("flag=0x", Word(s.flag), Word(t.flag));
    WordInjective(s.flag, t.flag);
    SameRows(s.reserved, t.reserved);
  }

  /** Equal reports come from equal statistics. */
  lemma StatisticsReportLosesNothing(s: StaStatistics, t: StaStatistics)
    ensures Report(s) == Report(t) ==> s == t
  {
    if Report(s) == Report(t) {
      ReportAsLines(s);
      ReportAsLines(t);
      ReportLines(s);
      ReportLines(t);
      LinesInjective(Values(s) + Rows(s.reserved), Values(t) + Rows(t.reserved));
      SameReport(s, t);
    }
  }
}
