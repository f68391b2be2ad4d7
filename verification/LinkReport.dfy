/** The GET_STA_LINK_DETECT report: eight 64-bit counters, one line each. */
module LinkReport {
  import opened Numerals
  import opened ReportWriter

  datatype LinkDetect = LinkDetect(
    txFail: u64, txRetry: u64, txMultiRetry: u64, ackFail: u64,
    fcsErr: u64, tx: u64, txOk: u64, txOs: u64)

  function LinkLine(name: string, counter: u64): string {
    Line(name, Decimal(counter))
  }

  function ErrorPieces(c: LinkDetect): (ps: seq<string>)
    ensures |ps| == 4
  {
    [LinkLine("rFailedCount=", c.txFail),
     LinkLine("rRetryCount=", c.txRetry),
     LinkLine("rMultipleRetryCount=", c.txMultiRetry),
     LinkLine("rACKFailureCount=", c.ackFail)]
  }

  function TrafficPieces(c: LinkDetect): (ps: seq<string>)
    ensures |ps| == 4
  {
    [LinkLine("rFCSErrorCount=", c.fcsErr),
     LinkLine("tx_total=", c.tx),
     LinkLine("tx_ok=", c.txOk),
     LinkLine("tx_os=", c.txOs)]
  }

  /** The report, line by line. */
  function LinkPieces(c: LinkDetect): (ps: seq<string>)
    ensures |ps| == 8
  {
    ErrorPieces(c) + TrafficPieces(c)
  }

  /** `queried` tells whether the driver answered. The result is the length of the longest run of
      leading lines whose total is strictly less than the buffer, which the buffer then starts
      with; no write passes the end of the buffer. */
  method GetStaLinkDetect(c: LinkDetect, queried: bool, buf: array<char>) returns (len: int)
    modifies buf
    ensures !queried ==> len == -1 && buf[..] == old(buf[..])
    ensures queried ==> len >= 0 && Stopped(buf, len, LinkPieces(c))
  {
    if !queried {
      return -1;
    }
    len := PrintEight(buf, ErrorPieces(c), TrafficPieces(c));
  }

  method PrintEight(buf: array<char>, errors: seq<string>, traffic: seq<string>) returns (len: nat)
    requires |errors| == |traffic| == 4
    modifies buf
    ensures Stopped(buf, len, errors + traffic)
  {
    ghost var ps := errors + traffic;
    assert ps[0..4] == errors && ps[4..8] == traffic;
    Started(buf, ps);
    var fits, pos := PutFour(buf, 0, errors, ps, 0);
    if !fits { return pos; }
    fits, pos := PutFour(buf, pos, traffic, ps, 4);
    if !fits { return pos; }
    Finished(buf, pos, ps);
    return pos;
  }

  lemma LinkLineInjective(name: string, m: u64, n: u64)
    requires LinkLine(name, m) == LinkLine(name, n)
    ensures m == n
  {
    LineInjective(name, Decimal(m), Decimal(n));
    DecimalInjective(m, n);
  }

  lemma LinkLineIsLine(name: string, n: u64)
    requires '\n' !in name
    ensures IsLine(LinkLine(name, n))
  {}

  lemma ErrorLineByLine(c: LinkDetect)
    ensures IsLine(LinkLine("rFailedCount=", c.txFail)) && IsLine(LinkLine("rRetryCount=", c.txRetry))
    ensures IsLine(LinkLine("rMultipleRetryCount=", c.txMultiRetry)) && IsLine(LinkLine("rACKFailureCount=", c.ackFail))
  {
    hide IsLine, LinkLine;
    LinkLineIsLine("rFailedCount=", c.txFail);
    LinkLineIsLine("rRetryCount=", c.txRetry);
    LinkLineIsLine("rMultipleRetryCount=", c.txMultiRetry);
    LinkLineIsLine("rACKFailureCount=", c.ackFail);
  }

  lemma ErrorLines(c: LinkDetect)
    ensures AllLines(ErrorPieces(c))
  {
    ErrorLineByLine(c);
    FourLines(ErrorPieces(c));
  }

  lemma TrafficLines(c: LinkDetect)
    ensures AllLines(TrafficPieces(c))
  {
    hide IsLine, LinkLine;
    LinkLineIsLine("rFCSErrorCount=", c.fcsErr);
    LinkLineIsLine("tx_total=", c.tx);
    LinkLineIsLine("tx_ok=", c.txOk);
    LinkLineIsLine("tx_os=", c.txOs);
    FourLines(TrafficPieces(c));
  }

  lemma LinkPiecesAreLines(c: LinkDetect)
    ensures AllLines(LinkPieces(c))
  {
    ErrorLines(c);
    TrafficLines(c);
    AllLinesOfConcat(ErrorPieces(c), TrafficPieces(c));
  }

  lemma SameErrors(c: LinkDetect, d: LinkDetect)
    requires ErrorPieces(c) == ErrorPieces(d)
    ensures c.txFail == d.txFail && c.txRetry == d.txRetry && c.txMultiRetry == d.txMultiRetry && c.ackFail == d.ackFail
  {
    var ps, qs := ErrorPieces(c), ErrorPieces(d);
    assert ps[0] == qs[0] && ps[1] == qs[1] && ps[2] == qs[2] && ps[3] == qs[3];
    LinkLineInjective("rFailedCount=", c.txFail, d.txFail);
    LinkLineInjective("rRetryCount=", c.txRetry, d.txRetry);
    LinkLineInjective("rMultipleRetryCount=", c.txMultiRetry, d.txMultiRetry);
    LinkLineInjective("rACKFailureCount=", c.ackFail, d.ackFail);
  }

  lemma SameTraffic(c: LinkDetect, d: LinkDetect)
    requires TrafficPieces(c) == TrafficPieces(d)
    ensures c.fcsErr == d.fcsErr && c.tx == d.tx && c.txOk == d.txOk && c.txOs == d.txOs
  {
    var ps, qs := TrafficPieces(c), TrafficPieces(d);
    assert ps[0] == qs[0] && ps[1] == qs[1] && ps[2] == qs[2] && ps[3] == qs[3];
    LinkLineInjective("rFCSErrorCount=", c.fcsErr, d.fcsErr);
    LinkLineInjective("tx_total=", c.tx, d.tx);
    LinkLineInjective("tx_ok=", c.txOk, d.txOk);
    LinkLineInjective("tx_os=", c.txOs, d.txOs);
  }

  /** A whole report determines all eight counters. */
  lemma LinkReportLosesNothing(c: LinkDetect, d: LinkDetect)
    ensures Concat(LinkPieces(c)) == Concat(LinkPieces(d)) ==> c == d
  {
    if Concat(LinkPieces(c)) == Concat(LinkPieces(d)) {
      LinkPiecesAreLines(c);
      LinkPiecesAreLines(d);
      LinesInjective(LinkPieces(c), LinkPieces(d));
      assert ErrorPieces(c) == LinkPieces(c)[..4] && TrafficPieces(c) == LinkPieces(c)[4..];
      assert ErrorPieces(d) == LinkPieces(d)[..4] && TrafficPieces(d) == LinkPieces(d)[4..];
      SameErrors(c, d);
      SameTraffic(c, d);
    }
  }
}
