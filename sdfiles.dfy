/**
  The SD-card side of the loader: an open file as its contents and a read
  cursor, the line reader `ReadLine` working on a fixed 100-character buffer,
  and `ScanLine`, the closed-form statement of what one `ReadLine` call does.
*/
module SdFiles {
  import opened CStrings

  /** Size of the line buffer `ReadConfigFile` hands to `ReadLine`. */
  const ReadBufferLength: nat := 100

  /** An open `File`: its bytes and the position of the next `read()`. */
  class SdFile {
    const data: Text
    var pos: nat

    ghost predicate Valid()
      reads this
    {
      pos <= |data|
    }

    constructor Open(contents: Text)
      ensures Valid() && data == contents && pos == 0
    {
      data := contents;
      pos := 0;
    }

    /** `file.available()`, used as a truth value. */
    predicate Available()
      reads this
    {
      pos < |data|
    }

    /** `file.read()`: the next byte, or -1 at end of file. */
    method Read() returns (c: int)
      requires Valid()
      modifies this
      ensures Valid()
      ensures old(pos) < |data| ==> c == data[old(pos)] as int && pos == old(pos) + 1
      ensures old(pos) == |data| ==> c == -1 && pos == old(pos)
    {
      if pos < |data| {
        c := data[pos] as int;
        pos := pos + 1;
      } else {
        c := -1;
      }
    }
  }

  predicate IsTerminator(c: char)
  {
    c == '\r' || c == '\n'
  }

  /** The index of the first CR or LF in `s`, or `|s|` when there is none. */
  function TerminatorIndex(s: Text): (k: nat)
    ensures k <= |s|
    ensures forall i :: 0 <= i < k ==> !IsTerminator(s[i])
    ensures k < |s| ==> IsTerminator(s[k])
  {
    if s == [] || IsTerminator(s[0]) then 0 else 1 + TerminatorIndex(s[1..])
  }

  /**
    One `ReadLine` call: whether it succeeds, the characters it put into the
    buffer, and where it leaves the cursor.
  */
  datatype LineRead = LineRead(ok: bool, line: Text, next: nat)

  /**
    What `ReadLine` does from cursor `pos`: it fails at end of file and when
    100 characters arrive without a terminator; otherwise the line is
    everything before the first CR or LF, and the terminator and one more
    character (if there is one) are consumed. A last line without a
    terminator is still a line.
  */
  function ScanLine(data: Text, pos: nat): (r: LineRead)
    requires pos <= |data|
    ensures |r.line| <= ReadBufferLength && r.next <= |data|
    ensures r.ok ==> pos < r.next
  {
    var rest := data[pos..];
    var k := TerminatorIndex(rest);
    if rest == [] then LineRead(false, [], pos)
    else if k >= ReadBufferLength then LineRead(false, rest[..ReadBufferLength], pos + ReadBufferLength)
    else if k == |rest| then LineRead(true, rest, |data|)
    else LineRead(true, rest[..k], if pos + k + 1 < |data| then pos + k + 2 else pos + k + 1)
  }

  /**
    `ReadLine(buffer, file)`: clears the buffer, then copies characters from
    the file until a CR or LF (which, with the character after it, is
    consumed), the end of the file, or a full buffer.
  */
  method ReadLine(buffer: array<CChar>, file: SdFile) returns (ok: bool)
    requires buffer.Length == ReadBufferLength && file.Valid()
    modifies buffer, file
    ensures file.Valid()
    ensures ok == ScanLine(file.data, old(file.pos)).ok
    ensures file.pos == ScanLine(file.data, old(file.pos)).next
    ensures buffer[..] == NulPadded(ScanLine(file.data, old(file.pos)).line, ReadBufferLength)
  {
    ghost var start := file.pos;
    ghost var rest := file.data[start..];
    var stop := false;
    var i := 0;
    forall k | 0 <= k < buffer.Length {
      buffer[k] := Nul;
    }
    while !stop
      invariant file.Valid() && start <= file.pos
      invariant 0 <= i < ReadBufferLength && i <= |rest|
      invariant forall j :: 0 <= j < i ==> !IsTerminator(rest[j])
      invariant forall j :: 0 <= j < i ==> buffer[j] == rest[j]
      invariant forall j :: i <= j < ReadBufferLength ==> buffer[j] == Nul
      invariant !stop ==> file.pos == start + i && (i > 0 ==> file.Available())
      invariant stop ==> ScanLine(file.data, start) == LineRead(true, rest[..i], file.pos)
      decreases |file.data| - file.pos
    {
      if !file.Available() {
        PaddedBuffer(buffer[..], rest[..i]);
        return false;
      }
      var c := file.Read();
      var ch: CChar := c as char;
      assert ch == rest[i] == file.data[start + i];
      if ch != '\r' && ch != '\n' {
        buffer[i] := ch;
        i := i + 1;
      } else {
        ScanLineTerminated(file.data, start, i);
        var skipped := file.Read();
        stop := true;
      }
      if i >= ReadBufferLength {
        ScanLineOverlong(file.data, start);
        PaddedBuffer(buffer[..], rest[..i]);
        return false;
      }
      if !file.Available() {
        if !stop {
          ScanLineLast(file.data, start);
        }
        stop := true;
      }
    }
    PaddedBuffer(buffer[..], rest[..i]);
    return true;
  }

  /** A buffer holding `s` and NULs after it is `s` padded. */
  lemma PaddedBuffer(b: Text, s: Text)
    requires |s| <= |b|
    requires forall j :: 0 <= j < |s| ==> b[j] == s[j]
    requires forall j :: |s| <= j < |b| ==> b[j] == Nul
    ensures b == NulPadded(s, |b|)
  {
  }

  /** A terminator at offset `i < 100` ends the line there. */
  lemma ScanLineTerminated(data: Text, pos: nat, i: nat)
    requires pos + i < |data| && i < ReadBufferLength && IsTerminator(data[pos + i])
    requires forall j :: 0 <= j < i ==> !IsTerminator(data[pos..][j])
    ensures ScanLine(data, pos) ==
      LineRead(true, data[pos..][..i], if pos + i + 1 < |data| then pos + i + 2 else pos + i + 1)
  {
    assert data[pos..][i] == data[pos + i];
    assert TerminatorIndex(data[pos..]) == i;
  }

  /** No terminator among the first 100 characters: the line does not fit. */
  lemma ScanLineOverlong(data: Text, pos: nat)
    requires pos + ReadBufferLength <= |data|
    requires forall j :: 0 <= j < ReadBufferLength ==> !IsTerminator(data[pos..][j])
    ensures ScanLine(data, pos) == LineRead(false, data[pos..][..ReadBufferLength], pos + ReadBufferLength)
  {
    assert TerminatorIndex(data[pos..]) >= ReadBufferLength;
  }

  /** The rest of the file is short and holds no terminator: it is the last line. */
  lemma ScanLineLast(data: Text, pos: nat)
    requires pos < |data| && |data| - pos < ReadBufferLength
    requires forall j :: 0 <= j < |data| - pos ==> !IsTerminator(data[pos..][j])
    ensures ScanLine(data, pos) == LineRead(true, data[pos..][..|data| - pos], |data|)
  {
    assert TerminatorIndex(data[pos..]) == |data| - pos;
    assert data[pos..][..|data| - pos] == data[pos..];
  }

  /** The lines successive `ReadLine` calls deliver, up to the first failure. */
  function Lines(data: Text, pos: nat): seq<Text>
    requires pos <= |data|
    decreases |data| - pos
  {
    var r := ScanLine(data, pos);
    if r.ok then [r.line] + Lines(data, r.next) else []
  }

  // ---------------------------------------------------------------------
  // Properties of one ReadLine call.

  /** A line read successfully holds at most 99 characters, none of them CR or LF. */
  lemma ScanLineContent(data: Text, pos: nat)
    requires pos <= |data|
    ensures var r := ScanLine(data, pos);
      r.ok ==> |r.line| < ReadBufferLength && forall i :: 0 <= i < |r.line| ==> !IsTerminator(r.line[i])
  {
  }

  /**
    A line ended by CR or LF consumes the terminator and exactly one more
    character, whatever it is (none only at end of file).
  */
  lemma ScanLineConsumesPair(data: Text, pos: nat)
    requires pos <= |data|
    ensures var r := ScanLine(data, pos);
      r.ok && pos + |r.line| < |data| ==>
        data[pos..pos + |r.line|] == r.line && IsTerminator(data[pos + |r.line|]) &&
        r.next == (if pos + |r.line| + 1 < |data| then pos + |r.line| + 2 else |data|)
  {
  }

  /** A last line without terminator is returned whole, and reading stops at the end of the file. */
  lemma ScanLineUnterminated(data: Text, pos: nat)
    requires pos < |data| && |data| - pos < ReadBufferLength
    requires forall i :: pos <= i < |data| ==> !IsTerminator(data[i])
    ensures ScanLine(data, pos) == LineRead(true, data[pos..], |data|)
  {
    assert forall i :: 0 <= i < |data| - pos ==> data[pos..][i] == data[pos + i];
  }

  /**
    `ReadLine` fails exactly at end of file and when the next 100 characters
    hold no terminator.
  */
  lemma ScanLineFails(data: Text, pos: nat)
    requires pos <= |data|
    ensures !ScanLine(data, pos).ok <==>
      (pos == |data| ||
       (pos + ReadBufferLength <= |data| && forall i :: pos <= i < pos + ReadBufferLength ==> !IsTerminator(data[i])))
  {
    assert forall i :: 0 <= i < |data| - pos ==> data[pos..][i] == data[pos + i];
  }

  /** Every line `ReadConfigFile` sees is short and free of CR and LF. */
  lemma {:induction false} LinesContent(data: Text, pos: nat)
    requires pos <= |data|
    ensures forall n :: 0 <= n < |Lines(data, pos)| ==>
      |Lines(data, pos)[n]| < ReadBufferLength && forall i :: 0 <= i < |Lines(data, pos)[n]| ==> !IsTerminator(Lines(data, pos)[n][i])
    decreases |data| - pos
  {
    var r := ScanLine(data, pos);
    if r.ok {
      ScanLineContent(data, pos);
      LinesContent(data, r.next);
      assert forall n :: 1 <= n < |Lines(data, pos)| ==> Lines(data, pos)[n] == Lines(data, r.next)[n - 1];
    }
  }

  // ---------------------------------------------------------------------
  // Writing lines back as a file.

  /** A line `ReadLine` can return whole: under 100 characters, no CR or LF. */
  predicate IsLine(l: Text)
  {
    |l| < ReadBufferLength && forall i :: 0 <= i < |l| ==> !IsTerminator(l[i])
  }

  /** The text of a file holding `ls`, each line followed by CR LF. */
  function CrLfFile(ls: seq<Text>): Text
  {
    if ls == [] then [] else ls[0] + ['\r', '\n'] + CrLfFile(ls[1..])
  }

  /** A short line followed by CR LF is read whole, and reading goes on after the LF. */
  lemma CrLfStep(data: Text, pos: nat, l: Text, tail: Text)
    requires pos <= |data| && data[pos..] == l + ['\r', '\n'] + tail && IsLine(l)
    ensures ScanLine(data, pos) == LineRead(true, l, pos + |l| + 2)
    ensures data[pos + |l| + 2..] == tail
  {
    var k := |l|;
    var rest := data[pos..];
    assert rest[..k] == l;
    assert data[pos + k] == rest[k] == '\r';
    assert data[pos + k + 1] == rest[k + 1] == '\n';
    ScanLineTerminated(data, pos, k);
    assert data[pos + k + 2..] == rest[k + 2..];
  }

  lemma {:induction false} LinesOfCrLfFile(data: Text, pos: nat, ls: seq<Text>)
    requires pos <= |data| && data[pos..] == CrLfFile(ls)
    requires forall n :: 0 <= n < |ls| ==> IsLine(ls[n])
    ensures Lines(data, pos) == ls
    decreases |ls|
  {
    if ls != [] {
      var l, tail := ls[0], ls[1..];
      assert IsLine(l) && data[pos..] == l + ['\r', '\n'] + CrLfFile(tail);
      CrLfStep(data, pos, l, CrLfFile(tail));
      LinesOfCrLfFile(data, pos + |l| + 2, tail);
      LinesCons(data, pos);
      assert ls == [l] + tail;
    }
  }

  lemma LinesCons(data: Text, pos: nat)
    requires pos <= |data| && ScanLine(data, pos).ok
    ensures Lines(data, pos) == [ScanLine(data, pos).line] + Lines(data, ScanLine(data, pos).next)
  {
  }

  /** A successful read puts its line first and continues at its cursor. */
  lemma LinesStep(data: Text, pos: nat, l: Text, next: nat)
    requires pos <= |data| && ScanLine(data, pos) == LineRead(true, l, next)
    ensures next <= |data| && Lines(data, pos) == [l] + Lines(data, next)
  {
    LinesCons(data, pos);
  }

  /** At a failed read the lines end. */
  lemma LinesAtFailedRead(data: Text, pos: nat, rest: Text)
    requires pos <= |data| && data[pos..] == rest && !ScanLine(data, |data| - |rest|).ok
    ensures Lines(data, pos) == []
  {
    assert pos == |data| - |rest|;
  }

  lemma CrLfFileCons(ls: seq<Text>, rest: Text)
    requires ls != []
    ensures CrLfFile(ls) + rest == ls[0] + ['\r', '\n'] + (CrLfFile(ls[1..]) + rest)
  {
  }

  /** The first of several CR LF terminated lines is read whole, and reading goes on at the next one. */
  lemma CrLfFileFirstLine(data: Text, pos: nat, ls: seq<Text>, rest: Text)
    requires pos <= |data| && data[pos..] == CrLfFile(ls) + rest
    requires forall n :: 0 <= n < |ls| ==> IsLine(ls[n])
    requires ls != []
    ensures ScanLine(data, pos) == LineRead(true, ls[0], pos + |ls[0]| + 2)
    ensures data[pos + |ls[0]| + 2..] == CrLfFile(ls[1..]) + rest
  {
    CrLfFileCons(ls, rest);
    CrLfStep(data, pos, ls[0], CrLfFile(ls[1..]) + rest);
  }

  /**
    CR LF terminated lines followed by a read that fails (the end of the
    file, or 100 characters without CR or LF) are exactly the lines read:
    nothing from the failed read on is looked at.
  */
  lemma {:induction false} LinesBeforeFailedRead(data: Text, pos: nat, ls: seq<Text>, rest: Text)
    requires pos <= |data| && data[pos..] == CrLfFile(ls) + rest
    requires forall n :: 0 <= n < |ls| ==> IsLine(ls[n])
    requires !ScanLine(data, |data| - |rest|).ok
    ensures Lines(data, pos) == ls
    decreases |ls|
  {
    if ls == [] {
      LinesAtFailedRead(data, pos, rest);
    } else {
      var next := pos + |ls[0]| + 2;
      CrLfFileFirstLine(data, pos, ls, rest);
      LinesBeforeFailedRead(data, next, ls[1..], rest);
      LinesStep(data, pos, ls[0], next);
      assert ls == [ls[0]] + ls[1..];
    }
  }

  /** CR LF terminated lines followed by the end of the file or by a line too long to read are the lines read. */
  lemma LinesBeforeOverlongOrEnd(ls: seq<Text>, rest: Text)
    requires forall n :: 0 <= n < |ls| ==> IsLine(ls[n])
    requires rest == [] || (|rest| >= ReadBufferLength && forall i :: 0 <= i < ReadBufferLength ==> !IsTerminator(rest[i]))
    ensures Lines(CrLfFile(ls) + rest, 0) == ls
  {
    var data := CrLfFile(ls) + rest;
    var p := |CrLfFile(ls)|;
    assert forall i :: 0 <= i < |rest| ==> data[p + i] == rest[i];
    ScanLineFails(data, p);
    assert data[0..] == data;
    LinesBeforeFailedRead(data, 0, ls, rest);
  }

  /** Reading back a file of CR LF terminated lines gives the lines. */
  lemma LinesRoundTrip(ls: seq<Text>)
    requires forall n :: 0 <= n < |ls| ==> IsLine(ls[n])
    ensures Lines(CrLfFile(ls), 0) == ls
  {
    LinesOfCrLfFile(CrLfFile(ls), 0, ls);
  }
}
