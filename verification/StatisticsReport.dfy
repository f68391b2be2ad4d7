/**
  The GET_STA_STATISTICS report: all or nothing, with two loops over reserved bytes printed
  in hexadecimal groups of four. Unsigned 32-bit counters go through `%d`, so values above
  2147483647 print as negative numbers. The transmit rate is a whole number of halves.
 */
module StatisticsReport {
  import opened Text
  import opened Numerals
  import opened ReportWriter

  type Quad = q: seq<u32> | |q| == 4 witness [0, 0, 0, 0]
  type Mac = m: seq<u8> | |m| == 6 witness [0, 0, 0, 0, 0, 0]
  type Reserved = r: seq<u8> | |r| == 32 witness seq(32, _ => 0)
  type s32 = n: int | INT_MIN <= n <= INT_MAX

  datatype StaStatistics = StaStatistics(
    addr: Mac, flag: u32, linkScore: u8, per: u8, rssi: s32, phyMode: u32, txRateHalves: nat,
    txTotal: u32, txExcThreshold: u32, txAvgProcessTime: u32, txFail: u32, txTimeout: u32, txAvgAirTime: u32,
    tcBufFull: Quad, tcQueLen: Quad, tcAvgQueLen: Quad, tcCurQueLen: Quad,
    reserved: Reserved)

  /** Reserved bytes per row. */
  const ROW: nat := 16

  // ----- the printed values -----

  /** `%d` of an unsigned word. */
  function Count(w: u32): (s: string)
    ensures s != [] && forall c <- s :: IsDigit(c) || c == '-'
  {
    SignedDecimal(AsSigned32(w))
  }

  function Word(w: u32): (s: string)
    ensures '\n' !in s
  {
    Hex(w, 8, true)
  }

  function QuadText(q: Quad): string {
    Join([Count(q[0]), Count(q[1]), Count(q[2]), Count(q[3])], ':')
  }

  function MacText(m: Mac): string {
    Join([Hex(m[0], 2, false), Hex(m[1], 2, false), Hex(m[2], 2, false),
          Hex(m[3], 2, false), Hex(m[4], 2, false), Hex(m[5], 2, false)], ':')
  }

  /** Bytes `i..hi` in hexadecimal, a space after every fourth. */
  function HexPieces(bytes: Reserved, i: nat, hi: nat): seq<string>
    requires i <= hi <= 32
    decreases hi - i
  {
    if i == hi then []
    else [Hex(bytes[i], 2, true)] + (if (i + 1) % 4 == 0 then [" "] else []) + HexPieces(bytes, i + 1, hi)
  }

  // ----- the report -----

  function StationPart(st: StaStatistics): (ps: seq<string>)
    ensures |ps| == 4
  {
    [Line("sta_addr=", MacText(st.addr)),
     Line("link_score=", Decimal(st.linkScore)),
     Line("per=", Decimal(st.per)),
     Line("rssi=", SignedDecimal(st.rssi))]
  }

  function RatePart(st: StaStatistics): (ps: seq<string>)
    ensures |ps| == 4
  {
    [Line("phy=0x", Word(st.phyMode)),
     Line("rate=", Halves(st.txRateHalves)),
     Line("total_cnt=", Count(st.txTotal)),
     Line("threshold_cnt=", Count(st.txExcThreshold))]
  }

  function TimePart(st: StaStatistics): (ps: seq<string>)
    ensures |ps| == 4
  {
    [Line("fail_cnt=", Count(st.txFail)),
     Line("timeout_cnt=", Count(st.txTimeout)),
     Line("apt=", Count(st.txAvgProcessTime)),
     Line("aat=", Count(st.txAvgAirTime))]
  }

  function QueuePart(st: StaStatistics): (ps: seq<string>)
    ensures |ps| == 4
  {
    [Line("TC_buf_full_cnt=", QuadText(st.tcBufFull)),
     Line("TC_sta_que_len=", QuadText(st.tcQueLen)),
     Line("TC_avg_que_len=", QuadText(st.tcAvgQueLen)),
     Line("TC_cur_que_len=", QuadText(st.tcCurQueLen))]
  }

  function FlagLine(st: StaStatistics): string {
    Line("flag=0x", Word(st.flag))
  }

  /** A label, bytes `lo..hi`, the end of the line. */
  function BytesPieces(name: string, bytes: Reserved, lo: nat, hi: nat): seq<string>
    requires lo <= hi <= 32
  {
    [name] + HexPieces(bytes, lo, hi) + ["\n"]
  }

  function StatPieces(st: StaStatistics): seq<string> {
    StationPart(st) + RatePart(st) + TimePart(st) + QueuePart(st) + [FlagLine(st)]
    + BytesPieces("reserved0=", st.reserved, 0, ROW) + BytesPieces("reserved1=", st.reserved, ROW, 2 * ROW) + ["====\n"]
  }

  function Report(st: StaStatistics): string {
    Concat(StatPieces(st))
  }

  // ----- writing it -----

  lemma Peel(ps: seq<string>, k: nat, x: string, rest: seq<string>)
    requires k <= |ps| && ps[k..] == [x] + rest
    ensures k < |ps| && ps[k] == x && ps[k + 1..] == rest
  {}

  /** What is left after byte `i` of a row, before `end`. */
  function LeftAfter(bytes: Reserved, i: nat, hi: nat, end: seq<string>): seq<string>
    requires i < hi <= 32
  {
    (if (i + 1) % 4 == 0 then [" "] else []) + (HexPieces(bytes, i + 1, hi) + end)
  }

  lemma HexStep(bytes: Reserved, i: nat, hi: nat, end: seq<string>)
    requires i < hi <= 32
    ensures HexPieces(bytes, i, hi) + end == [Hex(bytes[i], 2, true)] + LeftAfter(bytes, i, hi, end)
  {}

  /** One byte and, after every fourth, a space. */
  method PutByte(bytes: Reserved, i: nat, hi: nat, buf: array<char>, from: nat,
                 ghost ps: seq<string>, ghost k0: nat, ghost end: seq<string>)
    returns (fits: bool, pos: nat, ghost k: nat)
    requires i < hi <= 32 && Progress(buf, from, ps, k0) && ps[k0..] == HexPieces(bytes, i, hi) + end
    modifies buf
    ensures fits ==> Progress(buf, pos, ps, k) && ps[k..] == HexPieces(bytes, i + 1, hi) + end
    ensures !fits ==> Fitting(ps, buf.Length) < |ps|
  {
    k := k0;
    var text := Hex(bytes[i], 2, true);
    ghost var left, next := LeftAfter(bytes, i, hi, end), HexPieces(bytes, i + 1, hi) + end;
    HexStep(bytes, i, hi, end);
    Peel(ps, k, text, left);
    fits, pos := Put(buf, from, text, ps, k);
    if !fits { return; }
    k := k + 1;
    if (i + 1) % 4 == 0 {
      assert left == [" "] + next;
      Peel(ps, k, " ", next);
      fits, pos := Put(buf, pos, " ", ps, k);
      if !fits { return; }
      k := k + 1;
    } else {
      assert left == next;
    }
  }

  /** One row of reserved bytes: the label, the bytes, the end of the line. */
  method PutBytes(name: string, bytes: Reserved, lo: nat, hi: nat, buf: array<char>, from: nat,
                  ghost row: seq<string>, ghost ps: seq<string>, ghost k0: nat, ghost tail: seq<string>)
    returns (fits: bool, pos: nat, ghost k: nat)
    requires lo <= hi <= 32 && row == BytesPieces(name, bytes, lo, hi)
    requires Progress(buf, from, ps, k0) && ps[k0..] == row + tail
    modifies buf
    ensures fits ==> Progress(buf, pos, ps, k) && ps[k..] == tail
    ensures !fits ==> Fitting(ps, buf.Length) < |ps|
  {
    k := k0;
    ghost var end := ["\n"] + tail;
    assert row + tail == [name] + (HexPieces(bytes, lo, hi) + end);
    Peel(ps, k, name, HexPieces(bytes, lo, hi) + end);
    fits, pos := Put(buf, from, name, ps, k);
    if !fits { return; }
    k := k + 1;
    var i := lo;
    while i < hi
      invariant lo <= i <= hi && Progress(buf, pos, ps, k)
      invariant ps[k..] == HexPieces(bytes, i, hi) + end
    {
      fits, pos, k := PutByte(bytes, i, hi, buf, pos, ps, k, end);
      if !fits { return; }
      i := i + 1;
    }
    assert HexPieces(bytes, hi, hi) + end == end;
    Peel(ps, k, "\n", tail);
    fits, pos := Put(buf, pos, "\n", ps, k);
    k := k + 1;
  }

  /** The seventeen lines of single values. */
  method PrintValues(buf: array<char>, a: seq<string>, b: seq<string>, c: seq<string>, d: seq<string>, flag: string, ghost ps: seq<string>)
    returns (fits: bool, pos: nat)
    requires |a| == |b| == |c| == |d| == 4 && |ps| >= 17
    requires ps[0..4] == a && ps[4..8] == b && ps[8..12] == c && ps[12..16] == d && ps[16] == flag
    modifies buf
    ensures fits ==> Progress(buf, pos, ps, 17)
    ensures !fits ==> Fitting(ps, buf.Length) < |ps|
  {
    Started(buf, ps);
    fits, pos := PutFour(buf, 0, a, ps, 0);
    if !fits { return; }
    fits, pos := PutFour(buf, pos, b, ps, 4);
    if !fits { return; }
    fits, pos := PutFour(buf, pos, c, ps, 8);
    if !fits { return; }
    fits, pos := PutFour(buf, pos, d, ps, 12);
    if !fits { return; }
    fits, pos := Put(buf, pos, flag, ps, 16);
  }

  /** The two rows of reserved bytes and the closing line. */
  method PrintReserved(buf: array<char>, from: nat, bytes: Reserved, ghost ps: seq<string>, ghost row0: seq<string>, ghost row1: seq<string>)
    returns (fits: bool, pos: nat)
    requires row0 == BytesPieces("reserved0=", bytes, 0, ROW) && row1 == BytesPieces("reserved1=", bytes, ROW, 2 * ROW)
    requires Progress(buf, from, ps, 17) && ps[17..] == row0 + (row1 + ["====\n"])
    modifies buf
    ensures fits <==> Fitting(ps, buf.Length) == |ps|
    ensures fits ==> pos <= buf.Length && buf[..pos] == Concat(ps)
  {
    ghost var k := 17;
    fits, pos, k := PutBytes("reserved0=", bytes, 0, ROW, buf, from, row0, ps, k, row1 + ["====\n"]);
    if !fits { return; }
    fits, pos, k := PutBytes("reserved1=", bytes, ROW, 2 * ROW, buf, pos, row1, ps, k, ["====\n"]);
    if !fits { return; }
    fits, pos := PutLast(buf, pos, "====\n", ps, k);
  }

  method PutLast(buf: array<char>, from: nat, text: string, ghost ps: seq<string>, ghost k: nat) returns (fits: bool, pos: nat)
    requires Progress(buf, from, ps, k) && ps[k..] == [text]
    modifies buf
    ensures fits <==> Fitting(ps, buf.Length) == |ps|
    ensures fits ==> pos <= buf.Length && buf[..pos] == Concat(ps)
  {
    Peel(ps, k, text, []);
    fits, pos := Put(buf, from, text, ps, k);
    if fits {
      Finished(buf, pos, ps);
    }
  }

  lemma Layout(ps: seq<string>, a: seq<string>, b: seq<string>, c: seq<string>, d: seq<string>,
               flag: string, row0: seq<string>, row1: seq<string>, tail: seq<string>)
    requires |a| == |b| == |c| == |d| == 4 && ps == a + b + c + d + [flag] + row0 + row1 + tail
    ensures |ps| >= 17 && ps[0..4] == a && ps[4..8] == b && ps[8..12] == c && ps[12..16] == d
    ensures ps[16] == flag && ps[17..] == row0 + (row1 + tail)
  {}

  /** The whole report from its parts. */
  method PrintParts(buf: array<char>, a: seq<string>, b: seq<string>, c: seq<string>, d: seq<string>, flag: string,
                    bytes: Reserved, ghost row0: seq<string>, ghost row1: seq<string>, ghost ps: seq<string>)
    returns (len: nat)
    requires |a| == |b| == |c| == |d| == 4 && ps == a + b + c + d + [flag] + row0 + row1 + ["====\n"]
    requires row0 == BytesPieces("reserved0=", bytes, 0, ROW) && row1 == BytesPieces("reserved1=", bytes, ROW, 2 * ROW)
    modifies buf
    ensures if Fitting(ps, buf.Length) == |ps| then len <= buf.Length && buf[..len] == Concat(ps) else len == 0
  {
    Layout(ps, a, b, c, d, flag, row0, row1, ["====\n"]);
    var fits, pos := PrintValues(buf, a, b, c, d, flag, ps);
    if !fits { return 0; }
    fits, pos := PrintReserved(buf, pos, bytes, ps, row0, row1);
    if !fits { return 0; }
    return pos;
  }

  /** The result is non-zero exactly when the whole report is shorter than the buffer; it is then
      the length of the report, which the buffer starts with. */
  method PrintStaStatistics(st: StaStatistics, buf: array<char>) returns (len: nat)
    modifies buf
    ensures len != 0 <==> |Report(st)| < buf.Length
    ensures len != 0 ==> len == |Report(st)| && buf[..len] == Report(st)
  {
    ghost var row0, row1 := BytesPieces("reserved0=", st.reserved, 0, ROW), BytesPieces("reserved1=", st.reserved, ROW, 2 * ROW);
    len := PrintParts(buf, StationPart(st), RatePart(st), TimePart(st), QueuePart(st), FlagLine(st),
                      st.reserved, row0, row1, StatPieces(st));
    WholeFits(StatPieces(st), buf.Length);
    ReportNotEmpty(st);
  }

  lemma ReportNotEmpty(st: StaStatistics)
    ensures StatPieces(st) != [] && |Report(st)| > 0
  {
    hide MacText, RatePart, TimePart, QueuePart, FlagLine, BytesPieces;
    var ps := StatPieces(st);
    assert ps[0] == StationPart(st)[0];
    assert Concat(ps) == ps[0] + Concat(ps[1..]);
  }
}
