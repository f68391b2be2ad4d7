/**
  The ramdump status text: what `mrdump_status_get` reads out of the status and log fields,
  as functions of the bytes. A C `char` is a Dafny `char`.
 */
module MrdumpStatus {
  import opened Text
  import opened Numerals

  const SIG_SIZE := 9
  const STATUS_SIZE := 128
  const LOG_SIZE := 2048
  const BLOCK_SIZE := 2185
  const MODE_SIZE := 32
  const SIGNATURE := "MRDUMP04"

  datatype Status = StatusNone | StatusFailed | StatusOk
  datatype Output = OutputNull | OutputUsb | OutputExt4Data | OutputVfatIntStorage

  datatype StatusResult =
    StatusResult(status: Status, output: Output, mode: string, statusLine: string, logBuf: string)

  const ZEROED := StatusResult(StatusNone, OutputNull, "", "", "")

  /** The C string at the start of a byte sequence, cut at its end if not terminated. */
  function CString(s: string): string {
    if s == [] || s[0] == NUL then [] else [s[0]] + CString(s[1..])
  }

  lemma {:induction false} CStringIsPrefix(s: string)
    ensures var c := CString(s);
            c <= s && NUL !in c && (|c| < |s| ==> s[|c|] == NUL)
  {
    if s != [] && s[0] != NUL {
      CStringIsPrefix(s[1..]);
    }
  }

  /** `strlcpy` into a buffer of `size` bytes. */
  function Copied(s: string, size: nat): string
    requires size > 0
  {
    if |s| < size then s else s[..size - 1]
  }

  function Lines(text: string): seq<string> {
    NonEmpty(Pieces(text, '\n'))
  }

  function KnownOutput(value: string): Option<Output> {
    if value == "EXT4_DATA" then Some(OutputExt4Data)
    else if value == "VFAT_INT_STORAGE" then Some(OutputVfatIntStorage)
    else None
  }

  datatype Settings = Settings(ok: bool, output: Output, mode: string)

  /** The lines after an "OK" line: stops at the first output it does not know. */
  function ReadSettings(lines: seq<string>, output: Output, mode: string): Settings
    decreases lines
  {
    if lines == [] then Settings(true, output, mode)
    else if "OUTPUT:" <= lines[0] then
      match KnownOutput(lines[0][7..])
      case None => Settings(false, output, mode)
      case Some(known) => ReadSettings(lines[1..], known, mode)
    else if "MODE:" <= lines[0] then
      ReadSettings(lines[1..], output, Copied(lines[0][5..], MODE_SIZE))
    else
      ReadSettings(lines[1..], output, mode)
  }

  /** The text both the status line and the tokenizer see: up to the first NUL or byte 127. */
  function StatusText(status: string): string
    requires |status| == STATUS_SIZE
  {
    CString(status[..STATUS_SIZE - 1])
  }

  function Sig(block: string): string requires |block| == BLOCK_SIZE { block[..SIG_SIZE] }
  function StatusField(block: string): string requires |block| == BLOCK_SIZE { block[SIG_SIZE..SIG_SIZE + STATUS_SIZE] }
  function LogField(block: string): string requires |block| == BLOCK_SIZE { block[SIG_SIZE + STATUS_SIZE..] }

  predicate SignatureMatches(block: string)
    requires |block| == BLOCK_SIZE
  {
    Sig(block) == SIGNATURE + [NUL]
  }

  /** The parsed status without the log. */
  function ReadStatus(text: string): (bool, StatusResult) {
    var lines, r := Lines(text), ZEROED.(statusLine := text);
    if lines == [] then (false, r)
    else if lines[0] == "OK" then
      var s := ReadSettings(lines[1..], OutputNull, "");
      (s.ok, r.(status := StatusOk, output := s.output, mode := s.mode))
    else if lines[0] == "NONE" || lines[0] == "CLEAR" then (true, r)
    else (true, r.(status := StatusFailed))
  }

  /** What `mrdump_status_get` returns and leaves in the result, for a block that was read. */
  function ReadBlock(block: string): (bool, StatusResult)
    requires |block| == BLOCK_SIZE
  {
    if !SignatureMatches(block) then (false, ZEROED)
    else
      var (ok, r) := ReadStatus(StatusText(StatusField(block)));
      if ok then (true, r.(logBuf := Copied(CString(LogField(block)), LOG_SIZE))) else (false, r)
  }

  // ----- what the fold means -----

  /** The rest of the last line that starts with `prefix`. */
  function LastWith(lines: seq<string>, prefix: string): Option<string> {
    if lines == [] then None
    else
      var line := lines[|lines| - 1];
      if prefix <= line then Some(line[|prefix|..]) else LastWith(lines[..|lines| - 1], prefix)
  }

  lemma {:induction false} LastWithFromFront(line: string, rest: seq<string>, prefix: string)
    ensures LastWith([line] + rest, prefix) ==
            if LastWith(rest, prefix).Some? then LastWith(rest, prefix)
            else if prefix <= line then Some(line[|prefix|..]) else None
  {
    var lines := [line] + rest;
    if rest == [] {
      assert lines[..|lines| - 1] == [];
    } else {
      assert lines[..|lines| - 1] == [line] + rest[..|rest| - 1];
      LastWithFromFront(line, rest[..|rest| - 1], prefix);
    }
  }

  /** Some output line names neither of the two outputs. */
  ghost predicate UnknownOutput(lines: seq<string>) {
    exists line <- lines :: "OUTPUT:" <= line && line[7..] != "EXT4_DATA" && line[7..] != "VFAT_INT_STORAGE"
  }

  /** What a last output line stands for; without one the output is null. */
  ghost predicate OutputRead(output: Output, last: Option<string>) {
    match last
    case None => output == OutputNull
    case Some(value) =>
      && (value == "EXT4_DATA" || value == "VFAT_INT_STORAGE")
      && (output == OutputExt4Data <==> value == "EXT4_DATA")
      && (output == OutputVfatIntStorage <==> value == "VFAT_INT_STORAGE")
  }

  /** The mode is what fits of the last mode line, 31 characters, and empty without one. */
  ghost predicate ModeRead(mode: string, last: Option<string>) {
    match last
    case None => mode == ""
    case Some(value) => mode <= value && (|mode| == 31 || (mode == value && |mode| < 31))
  }

  lemma KnownOutputs(value: string)
    ensures KnownOutput(value) == None <==> value != "EXT4_DATA" && value != "VFAT_INT_STORAGE"
    ensures KnownOutput(value).Some? ==> OutputRead(KnownOutput(value).value, Some(value))
  {
    assert |"EXT4_DATA"| != |"VFAT_INT_STORAGE"|;
  }

  lemma CopiedMode(value: string)
    ensures ModeRead(Copied(value, MODE_SIZE), Some(value))
  {}

  lemma FirstLineUnknown(line: string, rest: seq<string>)
    ensures UnknownOutput([line] + rest) <==> ("OUTPUT:" <= line && KnownOutput(line[7..]) == None) || UnknownOutput(rest)
  {
    hide KnownOutput;
    if "OUTPUT:" <= line {
      KnownOutputs(line[7..]);
    }
    var lines := [line] + rest;
    assert line in lines && forall l <- rest :: l in lines;
  }

  lemma {:induction false} FoldExactly(lines: seq<string>, output: Output, mode: string)
    ensures var s := ReadSettings(lines, output, mode);
            && (!s.ok <==> UnknownOutput(lines))
            && (s.ok ==>
                  && Some(s.output) == (if LastWith(lines, "OUTPUT:").Some? then KnownOutput(LastWith(lines, "OUTPUT:").value) else Some(output))
                  && s.mode == if LastWith(lines, "MODE:").Some? then Copied(LastWith(lines, "MODE:").value, MODE_SIZE) else mode)
    decreases lines
  {
    hide KnownOutput, Copied, UnknownOutput;
    if lines == [] {
      NoLines();
    } else {
      var line, rest := lines[0], lines[1..];
      assert lines == [line] + rest;
      LastWithFromFront(line, rest, "OUTPUT:");
      LastWithFromFront(line, rest, "MODE:");
      assert "OUTPUT:"[0] != "MODE:"[0];
      FirstLineUnknown(line, rest);
      if "OUTPUT:" <= line {
        if KnownOutput(line[7..]).Some? {
          FoldExactly(rest, KnownOutput(line[7..]).value, mode);
        }
      } else if "MODE:" <= line {
        FoldExactly(rest, output, Copied(line[5..], MODE_SIZE));
      } else {
        FoldExactly(rest, output, mode);
      }
    }
  }

  lemma NoLines()
    ensures !UnknownOutput([])
  {}

  /** The settings fold fails exactly on an unknown output; otherwise the last output line decides the
      output and the last mode line the mode. */
  lemma SettingsExactly(lines: seq<string>)
    ensures var s := ReadSettings(lines, OutputNull, "");
            && (!s.ok <==> UnknownOutput(lines))
            && (s.ok ==> OutputRead(s.output, LastWith(lines, "OUTPUT:")) && ModeRead(s.mode, LastWith(lines, "MODE:")))
  {
    hide KnownOutput, Copied, UnknownOutput, ReadSettings;
    FoldExactly(lines, OutputNull, "");
    var output, mode := LastWith(lines, "OUTPUT:"), LastWith(lines, "MODE:");
    if output.Some? {
      KnownOutputs(output.value);
    }
    if mode.Some? {
      CopiedMode(mode.value);
    }
  }

  /** The block starts with "MRDUMP04" and a NUL. */
  predicate Signed(block: string)
    requires |block| == BLOCK_SIZE
  {
    block[..8] == "MRDUMP04" && block[8] == NUL
  }

  /** The log as far as it fits: up to its first NUL, at most 2047 characters. */
  ghost predicate LogRead(logBuf: string, block: string)
    requires |block| == BLOCK_SIZE
  {
    && |logBuf| <= 2047 && logBuf <= block[137..] && NUL !in logBuf
    && (|logBuf| == 2047 || block[137 + |logBuf|] == NUL)
  }

  lemma CopiedLog(block: string)
    requires |block| == BLOCK_SIZE
    ensures LogRead(Copied(CString(LogField(block)), LOG_SIZE), block)
  {
    var field := LogField(block);
    CStringIsPrefix(field);
    assert field == block[137..] && |field| == 2048;
  }

  /** What the call returns, for every block that was read. Without the signature it fails and leaves
      the result zeroed. With it, it fails exactly when there is no line at all, or the first line is
      "OK" and some later line names an output that is not known. On every success the first line
      decides the status, only an "OK" reports settings, and the status text and the log are
      reported as they stand in the block. */
  lemma GetExactly(block: string)
    requires |block| == BLOCK_SIZE
    ensures var text := StatusText(block[9..137]);
            var lines, (ok, r) := Lines(text), ReadBlock(block);
            && (!Signed(block) ==> !ok && r == ZEROED)
            && (Signed(block) ==>
                  && r.statusLine == text && (!ok ==> r.logBuf == "")
                  && (!ok <==> lines == [] || (lines[0] == "OK" && UnknownOutput(lines[1..]))))
            && (ok ==>
                  && (r.status == StatusOk <==> lines[0] == "OK")
                  && (r.status == StatusNone <==> lines[0] == "NONE" || lines[0] == "CLEAR")
                  && (r.status == StatusFailed <==> lines[0] != "OK" && lines[0] != "NONE" && lines[0] != "CLEAR")
                  && (if lines[0] == "OK"
                      then OutputRead(r.output, LastWith(lines[1..], "OUTPUT:")) && ModeRead(r.mode, LastWith(lines[1..], "MODE:"))
                      else r.output == OutputNull && r.mode == "")
                  && LogRead(r.logBuf, block))
  {
    hide LogRead, OutputRead, ModeRead, UnknownOutput, ReadSettings, Lines, CString;
    assert StatusField(block) == block[9..137];
    assert Signed(block) <==> SignatureMatches(block) by {
      assert Signed(block) ==> block[..9] == block[..8] + [block[8]];
      assert SignatureMatches(block) ==> block[..9][..8] == block[..8] && block[..9][8] == block[8];
    }
    CopiedLog(block);
    FirstLinesDiffer();
    var lines := Lines(StatusText(StatusField(block)));
    if lines != [] {
      SettingsExactly(lines[1..]);
    }
  }

  lemma FirstLinesDiffer()
    ensures "OK" != "NONE" && "OK" != "CLEAR"
  {}

  // ----- lines of a text, one at a time -----

  lemma LinesSkipNewline(text: string)
    ensures Lines(['\n'] + text) == Lines(text)
  {}

  lemma OneLine(line: string)
    requires line != [] && '\n' !in line
    ensures Lines(line) == [line]
  {
    PiecesWithoutSeparator(line, '\n');
    NonEmptyIdentity([line]);
  }

  lemma FirstLine(line: string, rest: string)
    requires line != [] && '\n' !in line
    ensures Lines(line + ['\n'] + rest) == [line] + Lines(rest)
  {
    OneLine(line);
    PiecesOfConcat(line, rest, '\n');
    NonEmptyOfConcat(Pieces(line, '\n'), Pieces(rest, '\n'));
  }

  lemma {:induction false} CStringOfPrefix(s: string, k: nat)
    requires k <= |s| && NUL !in s[..k]
    ensures CString(s) == s[..k] + CString(s[k..])
  {
    if k > 0 {
      assert s[0] in s[..k];
      assert s[..k] == [s[0]] + s[1..][..k - 1];
      CStringOfPrefix(s[1..], k - 1);
      assert s[1..][k - 1..] == s[k..];
    } else {
      assert s[..k] == [] && s[k..] == s;
    }
  }

  // ----- clearing -----

  function Nuls(n: nat): (s: string)
    ensures |s| == n && forall i :: 0 <= i < n ==> s[i] == NUL
  {
    seq(n, _ => NUL)
  }

  function ClearedStatus(): (s: string)
    ensures |s| == STATUS_SIZE
  {
    "CLEAR" + Nuls(STATUS_SIZE - 5)
  }

  function ClearedBlock(block: string): (cleared: string)
    requires |block| == BLOCK_SIZE
    ensures |cleared| == BLOCK_SIZE
  {
    Sig(block) + ClearedStatus() + LogField(block)
  }

  lemma ClearKeepsFields(block: string)
    requires |block| == BLOCK_SIZE
    ensures var c := ClearedBlock(block);
            Sig(c) == Sig(block) && StatusField(c) == ClearedStatus() && LogField(c) == LogField(block)
  {}

  /** The cleared block byte by byte: "CLEAR" and then only NULs in the status field, the signature and
      the log untouched. */
  lemma ClearedBytes(block: string, i: nat)
    requires |block| == BLOCK_SIZE && i < BLOCK_SIZE
    ensures ClearedBlock(block)[i] ==
            if 9 <= i < 14 then "CLEAR"[i - 9] else if 14 <= i < 137 then NUL else block[i]
  {}

  /** A cleared block reads back as "nothing dumped", with the log untouched. */
  lemma ReadCleared(block: string)
    requires |block| == BLOCK_SIZE
    ensures ReadBlock(ClearedBlock(block)) ==
            if SignatureMatches(block)
            then (true, StatusResult(StatusNone, OutputNull, "", "CLEAR", Copied(CString(LogField(block)), LOG_SIZE)))
            else (false, ZEROED)
  {
    ClearKeepsFields(block);
    var s := ClearedStatus()[..STATUS_SIZE - 1];
    assert s[..5] == "CLEAR";
    CStringOfPrefix(s, 5);
    assert s[5..][0] == NUL;
    assert StatusText(ClearedStatus()) == "CLEAR";
    OneLine("CLEAR");
  }

  lemma ClearTwice(block: string)
    requires |block| == BLOCK_SIZE
    ensures ClearedBlock(ClearedBlock(block)) == ClearedBlock(block)
  {}
}
