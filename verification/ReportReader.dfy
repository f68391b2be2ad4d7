/**
  Reading the two reports back by label: a report is cut into lines, and the field of a label is what
  follows the label and an equals sign on the first line that starts with them.
 */
module ReportReader {
  import opened Text
  import opened Numerals
  import opened ReportWriter
  import opened LinkReport
  import opened StatisticsReport
  import opened StatisticsInverse

  function FieldIn(lines: seq<string>, name: string): Option<string> {
    if lines == [] then None
    else if name + "=" <= lines[0] then Some(lines[0][|name| + 1..])
    else FieldIn(lines[1..], name)
  }

  /** The field with this label in a report. */
  function Field(report: string, name: string): Option<string> {
    FieldIn(Pieces(report, '\n'), name)
  }

  // ----- labelled lines -----

  lemma {:induction false} FieldOfConcat(a: seq<string>, b: seq<string>, name: string)
    ensures FieldIn(a + b, name) == if FieldIn(a, name).Some? then FieldIn(a, name) else FieldIn(b, name)
  {
    if a == [] {
      assert a + b == b;
    } else {
      assert (a + b)[1..] == a[1..] + b;
      FieldOfConcat(a[1..], b, name);
    }
  }

  /** Every line starts with its own label, and no label holds an equals sign. */
  ghost predicate Labelled(lines: seq<string>, labels: seq<string>) {
    && |lines| == |labels|
    && forall i :: 0 <= i < |lines| ==> '=' !in labels[i] && labels[i] + "=" <= lines[i]
  }

  lemma OtherLabel(name: string, other: string, line: string)
    requires '=' !in name && '=' !in other && other + "=" <= line && name + "=" <= line
    ensures name == other
  {
    assert line[|name|] == '=' && line[|other|] == '=';
    assert forall i :: 0 <= i < |name| ==> line[i] == name[i];
    assert forall i :: 0 <= i < |other| ==> line[i] == other[i];
    assert |name| == |other|;
  }

  lemma {:induction false} NoField(lines: seq<string>, labels: seq<string>, name: string)
    requires Labelled(lines, labels) && '=' !in name && name !in labels
    ensures FieldIn(lines, name) == None
  {
    if lines != [] {
      assert Labelled(lines[1..], labels[1..]);
      NoField(lines[1..], labels[1..], name);
      if name + "=" <= lines[0] {
        OtherLabel(name, labels[0], lines[0]);
      }
    }
  }

  lemma {:induction false} TheField(lines: seq<string>, labels: seq<string>, i: nat)
    requires Labelled(lines, labels) && NoDuplicates(labels) && i < |lines|
    ensures FieldIn(lines, labels[i]) == Some(lines[i][|labels[i]| + 1..])
  {
    if i > 0 {
      assert Labelled(lines[1..], labels[1..]) && NoDuplicates(labels[1..]);
      TheField(lines[1..], labels[1..], i - 1);
      if labels[i] + "=" <= lines[0] {
        OtherLabel(labels[i], labels[0], lines[0]);
      }
    }
  }

  /** Some lines of a report with their labels and values. */
  ghost predicate Part(part: seq<string>, labels: seq<string>, values: seq<string>) {
    && |part| == |labels| == |values|
    && NoDuplicates(labels)
    && forall i :: 0 <= i < |part| ==> '=' !in labels[i] && part[i] == labels[i] + "=" + values[i] + "\n"
  }

  lemma PartIsLabelled(part: seq<string>, labels: seq<string>, values: seq<string>)
    requires Part(part, labels, values)
    ensures Labelled(Stripped(part), labels)
    ensures forall i :: 0 <= i < |part| ==> Stripped(part)[i][|labels[i]| + 1..] == values[i]
  {
    forall i | 0 <= i < |part|
      ensures Stripped(part)[i] == labels[i] + "=" + values[i]
    {
      assert part[i] == (labels[i] + "=" + values[i]) + "\n";
    }
  }

  lemma FieldInPart(part: seq<string>, labels: seq<string>, values: seq<string>, i: nat)
    requires Part(part, labels, values) && i < |part|
    ensures FieldIn(Stripped(part), labels[i]) == Some(values[i])
  {
    PartIsLabelled(part, labels, values);
    TheField(Stripped(part), labels, i);
  }

  lemma FieldNotInPart(part: seq<string>, labels: seq<string>, values: seq<string>, name: string)
    requires Part(part, labels, values) && '=' !in name && name !in labels
    ensures FieldIn(Stripped(part), name) == None
  {
    PartIsLabelled(part, labels, values);
    NoField(Stripped(part), labels, name);
  }

  lemma StrippedOfConcat(a: seq<string>, b: seq<string>)
    ensures Stripped(a + b) == Stripped(a) + Stripped(b)
  {}

  lemma FieldOfLines(lines: seq<string>, name: string)
    requires AllLines(lines)
    ensures Field(Concat(lines), name) == FieldIn(Stripped(lines), name)
  {
    hide Pieces, IsLine;
    CutIntoLines(lines);
    FieldOfConcat(Stripped(lines), [[]], name);
    assert [""][1..] == [];
    assert FieldIn([""], name) == None;
  }

  /** The field of a part that stands between two others. */
  lemma FieldBetween(a: seq<string>, part: seq<string>, b: seq<string>, labels: seq<string>, values: seq<string>, i: nat)
    requires AllLines(a + part + b) && Part(part, labels, values) && i < |part| && FieldIn(Stripped(a), labels[i]) == None
    ensures Field(Concat(a + part + b), labels[i]) == Some(values[i])
  {
    hide Field, AllLines, Concat;
    FieldOfLines(a + part + b, labels[i]);
    StrippedOfConcat(a + part, b);
    StrippedOfConcat(a, part);
    FieldOfConcat(Stripped(a) + Stripped(part), Stripped(b), labels[i]);
    FieldOfConcat(Stripped(a), Stripped(part), labels[i]);
    FieldInPart(part, labels, values, i);
  }

  lemma NoFieldInTwo(a: seq<string>, b: seq<string>, name: string)
    requires FieldIn(Stripped(a), name) == None == FieldIn(Stripped(b), name)
    ensures FieldIn(Stripped(a + b), name) == None
  {
    StrippedOfConcat(a, b);
    FieldOfConcat(Stripped(a), Stripped(b), name);
  }

  /** Labels that differ from each other and hold no equals sign. */
  ghost predicate Labels(labels: seq<string>) {
    NoDuplicates(labels) && forall i :: 0 <= i < |labels| ==> '=' !in labels[i]
  }

  ghost predicate Apart(labels: seq<string>, earlier: seq<string>) {
    forall name <- labels :: name !in earlier
  }

  lemma LabelledLine(name: string, printed: string, text: string, value: string)
    requires printed + text == name + "=" + value
    ensures Line(printed, text) == name + "=" + value + "\n"
  {}

  lemma PartOfFour(part: seq<string>, labels: seq<string>, values: seq<string>)
    requires |part| == |labels| == |values| == 4 && Labels(labels)
    requires part[0] == labels[0] + "=" + values[0] + "\n" && part[1] == labels[1] + "=" + values[1] + "\n"
    requires part[2] == labels[2] + "=" + values[2] + "\n" && part[3] == labels[3] + "=" + values[3] + "\n"
    ensures Part(part, labels, values)
  {}

  lemma PartOfThree(part: seq<string>, labels: seq<string>, values: seq<string>)
    requires |part| == |labels| == |values| == 3 && Labels(labels)
    requires part[0] == labels[0] + "=" + values[0] + "\n" && part[1] == labels[1] + "=" + values[1] + "\n"
    requires part[2] == labels[2] + "=" + values[2] + "\n"
    ensures Part(part, labels, values)
  {}

  /** A label of a later part has no field in an earlier one. */
  lemma NotIn(part: seq<string>, earlier: seq<string>, values: seq<string>, labels: seq<string>, i: nat)
    requires Part(part, earlier, values) && Labels(labels) && Apart(labels, earlier) && i < |labels|
    ensures FieldIn(Stripped(part), labels[i]) == None
  {
    assert labels[i] in labels;
    FieldNotInPart(part, earlier, values, labels[i]);
  }

  // ----- the link report -----

  const ERROR_LABELS := ["rFailedCount", "rRetryCount", "rMultipleRetryCount", "rACKFailureCount"]
  const TRAFFIC_LABELS := ["rFCSErrorCount", "tx_total", "tx_ok", "tx_os"]

  lemma ErrorLabels()
    ensures Labels(ERROR_LABELS)
  {}

  lemma TrafficLabels()
    ensures Labels(TRAFFIC_LABELS)
  {
    assert "tx_ok"[4] != "tx_os"[4];
  }

  lemma TrafficApart()
    ensures Apart(TRAFFIC_LABELS, ERROR_LABELS)
  {}

  function ErrorValues(c: LinkDetect): seq<string> {
    [Decimal(c.txFail), Decimal(c.txRetry), Decimal(c.txMultiRetry), Decimal(c.ackFail)]
  }

  function TrafficValues(c: LinkDetect): seq<string> {
    [Decimal(c.fcsErr), Decimal(c.tx), Decimal(c.txOk), Decimal(c.txOs)]
  }

  lemma ErrorPart(c: LinkDetect)
    ensures Part(ErrorPieces(c), ERROR_LABELS, ErrorValues(c))
  {
    hide Line, Decimal, Labels, Part;
    ErrorLabels();
    LabelledLine("rFailedCount", "rFailedCount=", Decimal(c.txFail), Decimal(c.txFail));
    LabelledLine("rRetryCount", "rRetryCount=", Decimal(c.txRetry), Decimal(c.txRetry));
    LabelledLine("rMultipleRetryCount", "rMultipleRetryCount=", Decimal(c.txMultiRetry), Decimal(c.txMultiRetry));
    LabelledLine("rACKFailureCount", "rACKFailureCount=", Decimal(c.ackFail), Decimal(c.ackFail));
    PartOfFour(ErrorPieces(c), ERROR_LABELS, ErrorValues(c));
  }

  lemma TrafficPart(c: LinkDetect)
    ensures Part(TrafficPieces(c), TRAFFIC_LABELS, TrafficValues(c))
  {
    hide Line, Decimal, Labels, Part;
    TrafficLabels();
    LabelledLine("rFCSErrorCount", "rFCSErrorCount=", Decimal(c.fcsErr), Decimal(c.fcsErr));
    LabelledLine("tx_total", "tx_total=", Decimal(c.tx), Decimal(c.tx));
    LabelledLine("tx_ok", "tx_ok=", Decimal(c.txOk), Decimal(c.txOk));
    LabelledLine("tx_os", "tx_os=", Decimal(c.txOs), Decimal(c.txOs));
    PartOfFour(TrafficPieces(c), TRAFFIC_LABELS, TrafficValues(c));
  }

  lemma ErrorField(c: LinkDetect, i: nat)
    requires i < 4
    ensures Field(Concat(LinkPieces(c)), ERROR_LABELS[i]) == Some(ErrorValues(c)[i])
  {
    hide Field, AllLines, Concat, Part, ErrorPieces, TrafficPieces, Decimal;
    ErrorPart(c);
    LinkPiecesAreLines(c);
    assert [] + ErrorPieces(c) + TrafficPieces(c) == LinkPieces(c);
    assert Stripped([]) == [];
    FieldBetween([], ErrorPieces(c), TrafficPieces(c), ERROR_LABELS, ErrorValues(c), i);
  }

  lemma TrafficField(c: LinkDetect, i: nat)
    requires i < 4
    ensures Field(Concat(LinkPieces(c)), TRAFFIC_LABELS[i]) == Some(TrafficValues(c)[i])
  {
    hide Field, AllLines, Concat, Part, Labels, Apart, ErrorPieces, TrafficPieces, Decimal;
    ErrorPart(c);
    TrafficPart(c);
    TrafficLabels();
    TrafficApart();
    NotIn(ErrorPieces(c), ERROR_LABELS, ErrorValues(c), TRAFFIC_LABELS, i);
    LinkPiecesAreLines(c);
    assert ErrorPieces(c) + TrafficPieces(c) + [] == LinkPieces(c);
    FieldBetween(ErrorPieces(c), TrafficPieces(c), [], TRAFFIC_LABELS, TrafficValues(c), i);
  }

  /** In a whole link report every counter stands under its own label. */
  lemma LinkFields(c: LinkDetect)
    ensures var r := Concat(LinkPieces(c));
            && Field(r, "rFailedCount") == Some(Decimal(c.txFail))
            && Field(r, "rRetryCount") == Some(Decimal(c.txRetry))
            && Field(r, "rMultipleRetryCount") == Some(Decimal(c.txMultiRetry))
            && Field(r, "rACKFailureCount") == Some(Decimal(c.ackFail))
            && Field(r, "rFCSErrorCount") == Some(Decimal(c.fcsErr))
            && Field(r, "tx_total") == Some(Decimal(c.tx))
            && Field(r, "tx_ok") == Some(Decimal(c.txOk))
            && Field(r, "tx_os") == Some(Decimal(c.txOs))
  {
    hide Field, Concat, LinkPieces, Decimal;
    ErrorField(c, 0);
    ErrorField(c, 1);
    ErrorField(c, 2);
    ErrorField(c, 3);
    TrafficField(c, 0);
    TrafficField(c, 1);
    TrafficField(c, 2);
    TrafficField(c, 3);
  }

  // ----- the statistics report -----

  const STATION_LABELS := ["sta_addr", "link_score", "per", "rssi"]
  const RATE_LABELS := ["phy", "rate", "total_cnt", "threshold_cnt"]
  const TIME_LABELS := ["fail_cnt", "timeout_cnt", "apt", "aat"]
  const QUEUE_LABELS := ["TC_buf_full_cnt", "TC_sta_que_len", "TC_avg_que_len", "TC_cur_que_len"]
  const LAST_LABELS := ["flag", "reserved0", "reserved1"]

  lemma StationLabels()
    ensures Labels(STATION_LABELS)
  {}

  lemma RateLabels()
    ensures Labels(RATE_LABELS)
  {}

  lemma TimeLabels()
    ensures Labels(TIME_LABELS)
  {
    assert "apt"[1] != "aat"[1];
  }

  lemma QueueLabels()
    ensures Labels(QUEUE_LABELS)
  {
    assert "TC_sta_que_len"[3] != "TC_avg_que_len"[3] && "TC_sta_que_len"[3] != "TC_cur_que_len"[3];
    assert "TC_avg_que_len"[3] != "TC_cur_que_len"[3];
  }

  lemma LastLabels()
    ensures Labels(LAST_LABELS)
  {
    assert "reserved0"[8] != "reserved1"[8];
  }

  lemma RateApart()
    ensures Apart(RATE_LABELS, STATION_LABELS)
  {
    assert "phy"[1] != "per"[1] && "rate"[1] != "rssi"[1];
  }

  lemma TimeApart()
    ensures Apart(TIME_LABELS, STATION_LABELS) && Apart(TIME_LABELS, RATE_LABELS)
  {
    assert "fail_cnt"[0] != "sta_addr"[0] && "apt"[0] != "per"[0] && "aat"[0] != "per"[0];
    assert "apt"[0] != "phy"[0] && "aat"[0] != "phy"[0];
  }

  lemma QueueApart()
    ensures Apart(QUEUE_LABELS, STATION_LABELS) && Apart(QUEUE_LABELS, RATE_LABELS) && Apart(QUEUE_LABELS, TIME_LABELS)
  {}

  lemma LastApart()
    ensures Apart(LAST_LABELS, STATION_LABELS) && Apart(LAST_LABELS, RATE_LABELS) && Apart(LAST_LABELS, TIME_LABELS) && Apart(LAST_LABELS, QUEUE_LABELS)
  {
    assert "flag"[0] != "rssi"[0];
    assert "flag"[0] != "rate"[0] && "reserved0"[0] != "total_cnt"[0] && "reserved1"[0] != "total_cnt"[0];
  }

  function StationValues(st: StaStatistics): seq<string> {
    [MacText(st.addr), Decimal(st.linkScore), Decimal(st.per), SignedDecimal(st.rssi)]
  }

  function RateValues(st: StaStatistics): seq<string> {
    ["0x" + Word(st.phyMode), Halves(st.txRateHalves), Count(st.txTotal), Count(st.txExcThreshold)]
  }

  function TimeValues(st: StaStatistics): seq<string> {
    [Count(st.txFail), Count(st.txTimeout), Count(st.txAvgProcessTime), Count(st.txAvgAirTime)]
  }

  function QueueValues(st: StaStatistics): seq<string> {
    [QuadText(st.tcBufFull), QuadText(st.tcQueLen), QuadText(st.tcAvgQueLen), QuadText(st.tcCurQueLen)]
  }

  function LastValues(st: StaStatistics): seq<string> {
    ["0x" + Word(st.flag), HexText(st.reserved, 0, 16), HexText(st.reserved, 16, 32)]
  }

  lemma StationIsPart(st: StaStatistics)
    ensures Part(StationPart(st), STATION_LABELS, StationValues(st))
  {
    hide Line, MacText, Decimal, SignedDecimal, Labels, Part;
    StationLabels();
    LabelledLine("sta_addr", "sta_addr=", MacText(st.addr), MacText(st.addr));
    LabelledLine("link_score", "link_score=", Decimal(st.linkScore), Decimal(st.linkScore));
    LabelledLine("per", "per=", Decimal(st.per), Decimal(st.per));
    LabelledLine("rssi", "rssi=", SignedDecimal(st.rssi), SignedDecimal(st.rssi));
    PartOfFour(StationPart(st), STATION_LABELS, StationValues(st));
  }

  lemma RateIsPart(st: StaStatistics)
    ensures Part(RatePart(st), RATE_LABELS, RateValues(st))
  {
    hide Line, Word, Halves, Count, Labels, Part;
    RateLabels();
    LabelledLine("phy", "phy=0x", Word(st.phyMode), "0x" + Word(st.phyMode));
    LabelledLine("rate", "rate=", Halves(st.txRateHalves), Halves(st.txRateHalves));
    LabelledLine("total_cnt", "total_cnt=", Count(st.txTotal), Count(st.txTotal));
    LabelledLine("threshold_cnt", "threshold_cnt=", Count(st.txExcThreshold), Count(st.txExcThreshold));
    PartOfFour(RatePart(st), RATE_LABELS, RateValues(st));
  }

  lemma TimeIsPart(st: StaStatistics)
    ensures Part(TimePart(st), TIME_LABELS, TimeValues(st))
  {
    hide Line, Count, Labels, Part;
    TimeLabels();
    LabelledLine("fail_cnt", "fail_cnt=", Count(st.txFail), Count(st.txFail));
    LabelledLine("timeout_cnt", "timeout_cnt=", Count(st.txTimeout), Count(st.txTimeout));
    LabelledLine("apt", "apt=", Count(st.txAvgProcessTime), Count(st.txAvgProcessTime));
    LabelledLine("aat", "aat=", Count(st.txAvgAirTime), Count(st.txAvgAirTime));
    PartOfFour(TimePart(st), TIME_LABELS, TimeValues(st));
  }

  lemma QueueIsPart(st: StaStatistics)
    ensures Part(QueuePart(st), QUEUE_LABELS, QueueValues(st))
  {
    hide Line, QuadText, Labels, Part;
    QueueLabels();
    LabelledLine("TC_buf_full_cnt", "TC_buf_full_cnt=", QuadText(st.tcBufFull), QuadText(st.tcBufFull));
    LabelledLine("TC_sta_que_len", "TC_sta_que_len=", QuadText(st.tcQueLen), QuadText(st.tcQueLen));
    LabelledLine("TC_avg_que_len", "TC_avg_que_len=", QuadText(st.tcAvgQueLen), QuadText(st.tcAvgQueLen));
    LabelledLine("TC_cur_que_len", "TC_cur_que_len=", QuadText(st.tcCurQueLen), QuadText(st.tcCurQueLen));
    PartOfFour(QueuePart(st), QUEUE_LABELS, QueueValues(st));
  }

  /** The flag line and the two rows. */
  function LastPart(st: StaStatistics): seq<string> {
    [FlagLine(st)] + Rows(st.reserved)[..2]
  }

  lemma LastIsPart(st: StaStatistics)
    ensures Part(LastPart(st), LAST_LABELS, LastValues(st))
  {
    hide Line, Word, HexText, Labels, Part;
    LastLabels();
    LabelledLine("flag", "flag=0x", Word(st.flag), "0x" + Word(st.flag));
    LabelledLine("reserved0", "reserved0=", HexText(st.reserved, 0, 16), HexText(st.reserved, 0, 16));
    LabelledLine("reserved1", "reserved1=", HexText(st.reserved, 16, 32), HexText(st.reserved, 16, 32));
    PartOfThree(LastPart(st), LAST_LABELS, LastValues(st));
  }

  lemma Sections(a: seq<string>, b: seq<string>, c: seq<string>, d: seq<string>, e: seq<string>, f: seq<string>)
    ensures a + b + c + d + e + f == [] + a + (b + c + d + e + f)
    ensures a + b + c + d + e + f == a + b + (c + d + e + f)
    ensures a + b + c + d + e + f == (a + b) + c + (d + e + f)
    ensures a + b + c + d + e + f == (a + b + c) + d + (e + f)
  {}

  lemma LastSection(a: seq<string>, d: seq<string>, e: seq<string>, f: seq<string>)
    requires |f| >= 2
    ensures a + d + e + f == (a + d) + (e + f[..2]) + f[2..]
  {}

  lemma StationField(st: StaStatistics, i: nat)
    requires i < 4
    ensures Field(Report(st), STATION_LABELS[i]) == Some(StationValues(st)[i])
  {
    hide Field, Concat, Part, AllLines, Report, StationPart, RatePart, TimePart, QueuePart, FlagLine, Rows;
    StationIsPart(st);
    ReportAsLines(st);
    ReportLines(st);
    var rest := RatePart(st) + TimePart(st) + QueuePart(st) + [FlagLine(st)] + Rows(st.reserved);
    Sections(StationPart(st), RatePart(st), TimePart(st), QueuePart(st), [FlagLine(st)], Rows(st.reserved));
    assert Stripped([]) == [];
    FieldBetween([], StationPart(st), rest, STATION_LABELS, StationValues(st), i);
  }

  lemma RateField(st: StaStatistics, i: nat)
    requires i < 4
    ensures Field(Report(st), RATE_LABELS[i]) == Some(RateValues(st)[i])
  {
    hide Field, Concat, Part, Apart, Labels, AllLines, Report, StationPart, RatePart, TimePart, QueuePart, FlagLine, Rows;
    StationIsPart(st);
    RateIsPart(st);
    RateLabels();
    RateApart();
    NotIn(StationPart(st), STATION_LABELS, StationValues(st), RATE_LABELS, i);
    ReportAsLines(st);
    ReportLines(st);
    var rest := TimePart(st) + QueuePart(st) + [FlagLine(st)] + Rows(st.reserved);
    Sections(StationPart(st), RatePart(st), TimePart(st), QueuePart(st), [FlagLine(st)], Rows(st.reserved));
    FieldBetween(StationPart(st), RatePart(st), rest, RATE_LABELS, RateValues(st), i);
  }

  lemma TimeField(st: StaStatistics, i: nat)
    requires i < 4
    ensures Field(Report(st), TIME_LABELS[i]) == Some(TimeValues(st)[i])
  {
    hide Field, Concat, Part, Apart, Labels, AllLines, Report, StationPart, RatePart, TimePart, QueuePart, FlagLine, Rows;
    StationIsPart(st);
    RateIsPart(st);
    TimeIsPart(st);
    TimeLabels();
    TimeApart();
    NotIn(StationPart(st), STATION_LABELS, StationValues(st), TIME_LABELS, i);
    NotIn(RatePart(st), RATE_LABELS, RateValues(st), TIME_LABELS, i);
    NoFieldInTwo(StationPart(st), RatePart(st), TIME_LABELS[i]);
    ReportAsLines(st);
    ReportLines(st);
    var rest := QueuePart(st) + [FlagLine(st)] + Rows(st.reserved);
    Sections(StationPart(st), RatePart(st), TimePart(st), QueuePart(st), [FlagLine(st)], Rows(st.reserved));
    FieldBetween(StationPart(st) + RatePart(st), TimePart(st), rest, TIME_LABELS, TimeValues(st), i);
  }

  lemma NotInFirstThree(st: StaStatistics, labels: seq<string>, i: nat)
    requires Labels(labels) && i < |labels|
    requires Apart(labels, STATION_LABELS) && Apart(labels, RATE_LABELS) && Apart(labels, TIME_LABELS)
    ensures FieldIn(Stripped(StationPart(st) + RatePart(st) + TimePart(st)), labels[i]) == None
  {
    hide Part, Apart, Labels, StationPart, RatePart, TimePart;
    StationIsPart(st);
    RateIsPart(st);
    TimeIsPart(st);
    NotIn(StationPart(st), STATION_LABELS, StationValues(st), labels, i);
    NotIn(RatePart(st), RATE_LABELS, RateValues(st), labels, i);
    NotIn(TimePart(st), TIME_LABELS, TimeValues(st), labels, i);
    NoFieldInTwo(StationPart(st), RatePart(st), labels[i]);
    NoFieldInTwo(StationPart(st) + RatePart(st), TimePart(st), labels[i]);
  }

  lemma QueueField(st: StaStatistics, i: nat)
    requires i < 4
    ensures Field(Report(st), QUEUE_LABELS[i]) == Some(QueueValues(st)[i])
  {
    hide Field, Concat, Part, Apart, Labels, AllLines, Report, StationPart, RatePart, TimePart, QueuePart, FlagLine, Rows;
    QueueIsPart(st);
    QueueLabels();
    QueueApart();
    NotInFirstThree(st, QUEUE_LABELS, i);
    ReportAsLines(st);
    ReportLines(st);
    var before, rest := StationPart(st) + RatePart(st) + TimePart(st), [FlagLine(st)] + Rows(st.reserved);
    Sections(StationPart(st), RatePart(st), TimePart(st), QueuePart(st), [FlagLine(st)], Rows(st.reserved));
    FieldBetween(before, QueuePart(st), rest, QUEUE_LABELS, QueueValues(st), i);
  }

  lemma LastField(st: StaStatistics, i: nat)
    requires i < 3
    ensures Field(Report(st), LAST_LABELS[i]) == Some(LastValues(st)[i])
  {
    assert |Rows(st.reserved)| == 3;
    hide Field, Concat, Part, Apart, Labels, AllLines, Report, StationPart, RatePart, TimePart, QueuePart, FlagLine, Rows;
    LastIsPart(st);
    QueueIsPart(st);
    LastLabels();
    LastApart();
    NotInFirstThree(st, LAST_LABELS, i);
    NotIn(QueuePart(st), QUEUE_LABELS, QueueValues(st), LAST_LABELS, i);
    var three := StationPart(st) + RatePart(st) + TimePart(st);
    NoFieldInTwo(three, QueuePart(st), LAST_LABELS[i]);
    ReportAsLines(st);
    ReportLines(st);
    LastSection(three, QueuePart(st), [FlagLine(st)], Rows(st.reserved));
    FieldBetween(three + QueuePart(st), LastPart(st), Rows(st.reserved)[2..], LAST_LABELS, LastValues(st), i);
  }

  /** In a whole statistics report every value stands under its own label. */
  lemma StatisticsFields(st: StaStatistics)
    ensures var r := Report(st);
            && Field(r, "sta_addr") == Some(MacText(st.addr))
            && Field(r, "link_score") == Some(Decimal(st.linkScore))
            && Field(r, "per") == Some(Decimal(st.per))
            && Field(r, "rssi") == Some(SignedDecimal(st.rssi))
            && Field(r, "phy") == Some("0x" + Hex(st.phyMode, 8, true))
            && Field(r, "rate") == Some(Halves(st.txRateHalves))
            && Field(r, "total_cnt") == Some(Count(st.txTotal))
            && Field(r, "threshold_cnt") == Some(Count(st.txExcThreshold))
    ensures var r := Report(st);
            && Field(r, "fail_cnt") == Some(Count(st.txFail))
            && Field(r, "timeout_cnt") == Some(Count(st.txTimeout))
            && Field(r, "apt") == Some(Count(st.txAvgProcessTime))
            && Field(r, "aat") == Some(Count(st.txAvgAirTime))
            && Field(r, "TC_buf_full_cnt") == Some(QuadText(st.tcBufFull))
            && Field(r, "TC_sta_que_len") == Some(QuadText(st.tcQueLen))
            && Field(r, "TC_avg_que_len") == Some(QuadText(st.tcAvgQueLen))
            && Field(r, "TC_cur_que_len") == Some(QuadText(st.tcCurQueLen))
    ensures var r := Report(st);
            && Field(r, "flag") == Some("0x" + Hex(st.flag, 8, true))
            && Field(r, "reserved0") == Some(HexText(st.reserved, 0, 16))
            && Field(r, "reserved1") == Some(HexText(st.reserved, 16, 32))
  {
    hide Field, Report, MacText, Decimal, SignedDecimal, Halves, Count, QuadText, HexText, Hex;
    StationField(st, 0);
    StationField(st, 1);
    StationField(st, 2);
    StationField(st, 3);
    RateField(st, 0);
    RateField(st, 1);
    RateField(st, 2);
    RateField(st, 3);
    TimeField(st, 0);
    TimeField(st, 1);
    TimeField(st, 2);
    TimeField(st, 3);
    QueueField(st, 0);
    QueueField(st, 1);
    QueueField(st, 2);
    QueueField(st, 3);
    LastField(st, 0);
    LastField(st, 1);
    LastField(st, 2);
  }

  // ----- the parts of a value -----

  /** The address has six parts between colons, each the byte at its place in lower-case hexadecimal. */
  lemma MacReads(m: Mac, i: nat)
    requires i < 6
    ensures |Pieces(MacText(m), ':')| == 6
    ensures var part := Pieces(MacText(m), ':')[i];
            |part| == 2 && (forall c <- part :: IsHexDigit(c) && !('A' <= c <= 'F')) && HexValue(part) == m[i]
  {
    MacFree(m);
    PiecesJoin(MacBytes(m), ':');
    hide Pieces, Join;
    assert Pow16(2) == 0x100;
    ValueOfHex(m[i], 2, false);
  }

  /** A quadruple has four parts between colons, each the counter at its place as a signed number. */
  lemma QuadReads(q: Quad, i: nat)
    requires i < 4
    ensures |Pieces(QuadText(q), ':')| == 4
    ensures ParseInt(Pieces(QuadText(q), ':')[i]) == Some(AsSigned32(q[i]))
  {
    CountsFree(q);
    PiecesJoin(Counts(q), ':');
    hide Pieces, Join, ParseInt;
    ParseIntOfPrinted(AsSigned32(q[i]));
  }

  /** The transmit rate has a whole part and one digit that is "5" for a half and "0" otherwise. */
  lemma RateReads(halves: nat)
    ensures var parts := Pieces(Halves(halves), '.');
            && |parts| == 2 && (forall c <- parts[0] :: IsDigit(c)) && (parts[1] == "0" || parts[1] == "5")
            && halves == 2 * DigitsValue(parts[0]) + if parts[1] == "5" then 1 else 0
  {
    var whole, half := Decimal(halves / 2), if halves % 2 == 0 then "0" else "5";
    assert '.' !in whole && '.' !in half && "0" != "5";
    hide Pieces, Decimal;
    PiecesOfConcat(whole, half, '.');
    PiecesWithoutSeparator(whole, '.');
    PiecesWithoutSeparator(half, '.');
    ValueOfDecimal(halves / 2);
  }

  /** Where byte `i` of a row that starts with byte `lo` is printed. */
  function Place(lo: nat, i: nat): nat
    requires lo <= i
  {
    2 * (i - lo) + (i / 4 - lo / 4)
  }

  lemma PlaceStep(lo: nat, i: nat)
    requires lo < i
    ensures Place(lo, i) == Place(lo + 1, i) + if (lo + 1) % 4 == 0 then 3 else 2
  {}

  lemma Shifted(text: string, head: string, rest: string, at: nat)
    requires text == head + rest && at + 2 <= |rest|
    ensures text[|head| + at..|head| + at + 2] == rest[at..at + 2]
    ensures at + 2 < |rest| ==> text[|head| + at + 2] == rest[at + 2]
  {}

  lemma {:induction false} RowLength(bytes: Reserved, lo: nat, hi: nat)
    requires lo <= hi <= 32
    ensures |HexText(bytes, lo, hi)| == Place(lo, hi)
    decreases hi - lo
  {
    if lo < hi {
      HexTextStep(bytes, lo, hi);
      RowLength(bytes, lo + 1, hi);
      PlaceStep(lo, hi);
    }
  }

  lemma RowFirst(bytes: Reserved, lo: nat, hi: nat)
    requires lo < hi <= 32
    ensures var text := HexText(bytes, lo, hi);
            && 2 <= |text| && text[0..2] == Hex(bytes[lo], 2, true)
            && ((lo + 1) % 4 == 0 ==> 2 < |text| && text[2] == ' ')
  {
    hide HexText, Hex;
    HexTextStep(bytes, lo, hi);
  }

  lemma {:induction false} RowAt(bytes: Reserved, lo: nat, hi: nat, i: nat)
    requires lo <= i < hi <= 32
    ensures var text, at := HexText(bytes, lo, hi), Place(lo, i);
            && at + 2 <= |text| && text[at..at + 2] == Hex(bytes[i], 2, true)
            && ((i + 1) % 4 == 0 ==> at + 2 < |text| && text[at + 2] == ' ')
    decreases i - lo
  {
    hide HexText, Hex;
    if i == lo {
      RowFirst(bytes, lo, hi);
    } else {
      PlaceStep(lo, i);
      hide Place;
      RowAt(bytes, lo + 1, hi, i);
      HexTextStep(bytes, lo, hi);
      var head := Hex(bytes[lo], 2, true) + if (lo + 1) % 4 == 0 then " " else "";
      Shifted(HexText(bytes, lo, hi), head, HexText(bytes, lo + 1, hi), Place(lo + 1, i));
    }
  }

  /** A row of reserved bytes: each byte as two upper-case digits at its place, a space after every
      fourth, and nothing else. */
  lemma RowReads(bytes: Reserved, lo: nat, hi: nat, i: nat)
    requires lo <= i < hi <= 32
    ensures var text, at := HexText(bytes, lo, hi), 2 * (i - lo) + (i / 4 - lo / 4);
            && |text| == 2 * (hi - lo) + (hi / 4 - lo / 4)
            && at + 2 <= |text| && text[at..at + 2] == Hex(bytes[i], 2, true)
            && ((i + 1) % 4 == 0 ==> at + 2 < |text| && text[at + 2] == ' ')
  {
    hide HexText, Hex;
    RowLength(bytes, lo, hi);
    RowAt(bytes, lo, hi, i);
  }
}
