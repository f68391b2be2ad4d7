/**
  The expdb partition and the two calls on it. `mrdump_status_get` tokenises its copy of the
  status field in place, as `strtok_r` does; `mrdump_status_clear` reads the block, edits the
  status field and writes the block back.
 */
module MrdumpPartition {
  import opened Text
  import opened Numerals
  import opened MrdumpStatus

  const MRDUMP_OFFSET := 3145728

  /** The text left to tokenise from position `i` of a buffer. */
  function TextAt(s: string, i: nat): string
    requires i <= |s|
  {
    CString(s[i..])
  }

  lemma TextStep(s: string, i: nat)
    requires i < |s| && s[i] != NUL
    ensures TextAt(s, i) == [s[i]] + TextAt(s, i + 1)
  {}

  /** The text from `i`, when `s[i..j]` is a token. */
  lemma TextOfToken(s: string, i: nat, j: nat)
    requires i < j < |s| && NUL !in s[i..j]
    ensures TextAt(s, i) == s[i..j] + TextAt(s, j)
  {
    assert s[i..][..j - i] == s[i..j] && s[i..][j - i..] == s[j..];
    CStringOfPrefix(s[i..], j - i);
  }

  lemma NoTextAtNul(s: string, i: nat)
    requires i < |s| && s[i] == NUL
    ensures TextAt(s, i) == [] && Lines(TextAt(s, i)) == []
  {}

  lemma LastToken(s: string, i: nat, j: nat)
    requires i < j < |s| && NUL !in s[i..j] && '\n' !in s[i..j] && s[j] == NUL
    ensures Lines(TextAt(s, i)) == [TextAt(s, i)] + Lines(TextAt(s, j))
  {
    TextOfToken(s, i, j);
    NoTextAtNul(s, j);
    assert TextAt(s, i) == s[i..j];
    OneLine(s[i..j]);
  }

  /** Marking the end of a token cuts the first line off the text. */
  lemma CutToken(s: string, i: nat, j: nat)
    requires i < j < |s| && NUL !in s[i..j] && '\n' !in s[i..j] && s[j] == '\n'
    ensures var cut := s[j := NUL];
            Lines(TextAt(s, i)) == [TextAt(cut, i)] + Lines(TextAt(cut, j + 1))
  {
    var cut, line := s[j := NUL], s[i..j];
    TextOfToken(s, i, j);
    TextStep(s, j);
    assert TextAt(s, i) == line + ['\n'] + TextAt(s, j + 1);
    FirstLine(line, TextAt(s, j + 1));
    assert cut[j + 1..] == s[j + 1..] && cut[i..j] == line;
    TextOfToken(cut, i, j);
    NoTextAtNul(cut, j);
    assert line + [] == line;
  }

  ghost predicate TerminatedBuffer(buf: array<char>)
    reads buf
  {
    buf.Length > 0 && buf[buf.Length - 1] == NUL
  }

  method SkipNewlines(buf: array<char>, from: nat) returns (i: nat)
    requires TerminatedBuffer(buf) && from < buf.Length
    ensures from <= i < buf.Length && buf[i] != '\n'
    ensures Lines(TextAt(buf[..], i)) == Lines(TextAt(buf[..], from))
  {
    i := from;
    while buf[i] == '\n'
      invariant from <= i < buf.Length
      invariant Lines(TextAt(buf[..], i)) == Lines(TextAt(buf[..], from))
      decreases buf.Length - i
    {
      TextStep(buf[..], i);
      LinesSkipNewline(TextAt(buf[..], i + 1));
      i := i + 1;
    }
  }

  method EndOfToken(buf: array<char>, i: nat) returns (j: nat)
    requires TerminatedBuffer(buf) && i < buf.Length && buf[i] != '\n' && buf[i] != NUL
    ensures i < j < buf.Length && (buf[j] == '\n' || buf[j] == NUL)
    ensures '\n' !in buf[i..j] && NUL !in buf[i..j]
  {
    j := i + 1;
    while buf[j] != '\n' && buf[j] != NUL
      invariant i < j < buf.Length
      invariant forall k :: i <= k < j ==> buf[k] != '\n' && buf[k] != NUL
      decreases buf.Length - j
    {
      j := j + 1;
    }
  }

  /** One call of `strtok_r` with newline as the only delimiter, from position `from`. A token is
      given by the position of its first character; its end is marked in the buffer. */
  method StrtokR(buf: array<char>, from: nat) returns (token: Option<nat>, save: nat)
    requires TerminatedBuffer(buf) && from < buf.Length
    modifies buf
    ensures TerminatedBuffer(buf) && from <= save < buf.Length
    ensures buf[..from] == old(buf[..from])
    ensures token.None? ==> Lines(old(TextAt(buf[..], from))) == [] && Lines(TextAt(buf[..], save)) == []
    ensures token.Some? ==>
              && from <= token.value < buf.Length
              && Lines(old(TextAt(buf[..], from))) == [TextAt(buf[..], token.value)] + Lines(TextAt(buf[..], save))
  {
    hide TextAt, Lines;
    var i := SkipNewlines(buf, from);
    if buf[i] == NUL {
      NoTextAtNul(buf[..], i);
      return None, i;
    }
    var j := EndOfToken(buf, i);
    assert buf[..][i..j] == buf[i..j];
    if buf[j] == NUL {
      LastToken(buf[..], i, j);
      return Some(i), j;
    }
    CutToken(buf[..], i, j);
    ghost var before := buf[..];
    buf[j] := NUL;
    assert buf[..] == before[j := NUL];
    return Some(i), j + 1;
  }

  /** The settings loop of `mrdump_status_get`: one token at a time until there is none. */
  method ReadTokens(buf: array<char>, from: nat) returns (s: Settings)
    requires TerminatedBuffer(buf) && from < buf.Length
    modifies buf
    ensures s == ReadSettings(Lines(old(TextAt(buf[..], from))), OutputNull, "")
  {
    ghost var lines := Lines(TextAt(buf[..], from));
    var output, mode := OutputNull, "";
    var save: nat, more := from, true;
    while more
      invariant TerminatedBuffer(buf) && save < buf.Length
      invariant more ==> ReadSettings(Lines(TextAt(buf[..], save)), output, mode) == ReadSettings(lines, OutputNull, "")
      invariant !more ==> Settings(true, output, mode) == ReadSettings(lines, OutputNull, "")
      decreases more, |Lines(TextAt(buf[..], save))|
    {
      ghost var left := Lines(TextAt(buf[..], save));
      var token: Option<nat>;
      token, save := StrtokR(buf, save);
      if token.Some? {
        var line := CString(buf[token.value..]);
        assert buf[..][token.value..] == buf[token.value..];
        assert left[0] == line && left[1..] == Lines(TextAt(buf[..], save));
        if "OUTPUT:" <= line {
          if line[7..] == "EXT4_DATA" {
            output := OutputExt4Data;
          } else if line[7..] == "VFAT_INT_STORAGE" {
            output := OutputVfatIntStorage;
          } else {
            return Settings(false, output, mode);
          }
        } else if "MODE:" <= line {
          mode := Copied(line[5..], MODE_SIZE);
        }
      }
      more := token.Some?;
    }
    s := Settings(true, output, mode);
  }

  /** Parsing the status field: terminate it, cut the first line, then the settings. */
  method ParseStatus(status: string) returns (ok: bool, result: StatusResult)
    requires |status| == STATUS_SIZE
    ensures (ok, result) == ReadStatus(StatusText(status))
  {
    result := ZEROED.(statusLine := CString(status[..STATUS_SIZE - 1]));
    var buf := new char[STATUS_SIZE](i requires 0 <= i < STATUS_SIZE => status[i]);
    buf[STATUS_SIZE - 1] := NUL;
    assert TextAt(buf[..], 0) == StatusText(status) by {
      Terminated(status, buf[..]);
    }
    var token, save := StrtokR(buf, 0);
    if token.None? {
      return false, result;
    }
    var line := CString(buf[token.value..]);
    assert buf[..][token.value..] == buf[token.value..];
    assert Lines(StatusText(status))[1..] == Lines(TextAt(buf[..], save));
    if line == "OK" {
      var s := ReadTokens(buf, save);
      result := result.(status := StatusOk, output := s.output, mode := s.mode);
      return s.ok, result;
    } else if line == "NONE" {
      result := result.(status := StatusNone);
    } else if line == "CLEAR" {
      result := result.(status := StatusNone);
    } else {
      result := result.(status := StatusFailed);
    }
    ok := true;
  }

  /** Forcing the last byte to NUL does not change what the text is. */
  lemma Terminated(status: string, buf: string)
    requires |status| == STATUS_SIZE && buf == status[..STATUS_SIZE - 1] + [NUL]
    ensures CString(buf) == StatusText(status)
  {
    var text := StatusText(status);
    CStringIsPrefix(status[..STATUS_SIZE - 1]);
    assert buf[..|text|] == text;
    CStringOfPrefix(buf, |text|);
    assert buf[|text|..][0] == NUL;
  }

  method ParseBlock(block: string) returns (ok: bool, result: StatusResult)
    requires |block| == BLOCK_SIZE
    ensures (ok, result) == ReadBlock(block)
  {
    result := ZEROED;
    if block[..SIG_SIZE] != SIGNATURE + [NUL] {
      return false, result;
    }
    ok, result := ParseStatus(block[SIG_SIZE..SIG_SIZE + STATUS_SIZE]);
    if ok {
      result := result.(logBuf := Copied(CString(block[SIG_SIZE + STATUS_SIZE..]), LOG_SIZE));
    }
  }

  class Partition {
    const data: array<char>

    constructor (bytes: string)
      ensures fresh(data) && data[..] == bytes
    {
      data := new char[|bytes|](i requires 0 <= i < |bytes| => bytes[i]);
      new;
      assert data[..] == bytes;
    }

    predicate HoldsBlock() {
      data.Length >= MRDUMP_OFFSET
    }

    function Block(): (block: string)
      requires HoldsBlock()
      reads data
      ensures |block| == BLOCK_SIZE
    {
      var start := data.Length - MRDUMP_OFFSET;
      data[start..start + BLOCK_SIZE]
    }

    /** `openOk` and `readAll` tell whether the system calls succeeded; a partition smaller than
        the offset makes the seek fail. */
    method StatusGet(openOk: bool, readAll: bool) returns (ok: bool, result: StatusResult)
      ensures (ok, result) ==
              if openOk && HoldsBlock() && readAll then ReadBlock(Block()) else (false, ZEROED)
    {
      hide ReadBlock;
      result := ZEROED;
      if !openOk || data.Length < MRDUMP_OFFSET || !readAll {
        return false, result;
      }
      var start := data.Length - MRDUMP_OFFSET;
      var block := data[start..start + BLOCK_SIZE];
      ok, result := ParseBlock(block);
    }

    /** `written` is the number of bytes the final write got out; success takes them all. Whatever
        happens, no byte outside the status field changes. */
    method StatusClear(openOk: bool, readAll: bool, written: nat) returns (ok: bool)
      requires written <= BLOCK_SIZE
      modifies data
      ensures ok <==> openOk && HoldsBlock() && readAll && written == BLOCK_SIZE
      ensures ok ==> Block() == ClearedBlock(old(Block()))
      ensures forall i :: 0 <= i < data.Length && data[i] != old(data[i]) ==>
                && HoldsBlock()
                && data.Length - MRDUMP_OFFSET + SIG_SIZE <= i < data.Length - MRDUMP_OFFSET + SIG_SIZE + STATUS_SIZE
    {
      if !openOk || data.Length < MRDUMP_OFFSET || !readAll {
        return false;
      }
      var start := data.Length - MRDUMP_OFFSET;
      var block := data[start..start + BLOCK_SIZE];
      var status := "CLEAR" + Nuls(STATUS_SIZE - 5);
      block := block[..SIG_SIZE] + status + block[SIG_SIZE + STATUS_SIZE..];
      forall i | 0 <= i < written {
        data[start + i] := block[i];
      }
      ok := written == BLOCK_SIZE;
      assert ok ==> data[start..start + BLOCK_SIZE] == block;
    }
  }

  /** Clearing and then reading: "nothing dumped", the text "CLEAR", and the log as it was; a
      second clear leaves the partition as the first one did. */
  method ClearThenGet(p: Partition) returns (ok: bool, result: StatusResult)
    requires p.HoldsBlock() && SignatureMatches(p.Block())
    modifies p.data
    ensures ok && result == StatusResult(StatusNone, OutputNull, "", "CLEAR", Copied(CString(LogField(old(p.Block()))), LOG_SIZE))
    ensures p.Block() == ClearedBlock(old(p.Block()))
  {
    ghost var block := p.Block();
    var cleared := p.StatusClear(true, true, BLOCK_SIZE);
    cleared := p.StatusClear(true, true, BLOCK_SIZE);
    ClearTwice(block);
    ReadCleared(block);
    ok, result := p.StatusGet(true, true);
  }
}
