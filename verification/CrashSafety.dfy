/** Reading a session log after a crash in the middle of an append (server/storage/atomic.py, 179-237). */
module CrashSafety {
  import opened Wrappers
  import opened SessionFile
  import opened Utf8
  import opened HeadTail

  /** What appending one record writes. */
  function Line(line: Bytes): Bytes { line + [NEWLINE] }

  /** What appending complete records leaves in the file. */
  function Render(lines: seq<Bytes>): Bytes {
    if lines == [] then [] else Line(lines[0]) + Render(lines[1..])
  }

  ghost predicate OneLine(b: Bytes) { NEWLINE !in b }

  ghost predicate AllOneLine(lines: seq<Bytes>) {
    forall i :: 0 <= i < |lines| ==> OneLine(lines[i])
  }

  ghost predicate AllDecode(lines: seq<Bytes>) {
    forall i :: 0 <= i < |lines| ==> Decodes(lines[i])
  }

  lemma {:induction false} SplitOneLine(b: Bytes)
    requires OneLine(b)
    ensures Split(b) == [b]
  {
    if b != [] {
      SplitOneLine(b[1..]);
      assert [b[0]] + b[1..] == b;
    }
  }

  lemma {:induction false} SplitFirstLine(b: Bytes, rest: Bytes)
    requires OneLine(b)
    ensures Split(Line(b) + rest) == [b] + Split(rest)
  {
    var all := Line(b) + rest;
    if b == [] {
      assert all == [NEWLINE] + rest && all[1..] == rest;
    } else {
      assert all[1..] == Line(b[1..]) + rest;
      SplitFirstLine(b[1..], rest);
      assert [b[0]] + b[1..] == b;
    }
  }

  /** Complete lines are read back line by line, whatever follows them. */
  lemma {:induction false} SplitAfterLines(lines: seq<Bytes>, rest: Bytes)
    requires AllOneLine(lines)
    ensures Split(Render(lines) + rest) == lines + Split(rest)
  {
    if lines == [] {
      assert Render(lines) + rest == rest && lines + Split(rest) == Split(rest);
    } else {
      assert Render(lines) + rest == Line(lines[0]) + (Render(lines[1..]) + rest);
      SplitAfterLines(lines[1..], rest);
      SplitFirstLine(lines[0], Render(lines[1..]) + rest);
      assert [lines[0]] + (lines[1..] + Split(rest)) == lines + Split(rest);
    }
  }

  lemma SplitRendered(lines: seq<Bytes>, torn: Bytes)
    requires AllOneLine(lines) && OneLine(torn)
    ensures Split(Render(lines) + torn) == lines + [torn]
  {
    SplitAfterLines(lines, torn);
    SplitOneLine(torn);
  }

  /** The records of some lines and of one more. */
  function RecordsAnd(parse: Reader, lines: seq<Bytes>, line: Bytes): seq<Record> {
    match parse(line)
    case Rec(rec) => Records(parse, lines) + [rec]
    case _ => Records(parse, lines)
  }

  /** The line ends a full read: it does not decode, or parsing it fails otherwise than by rejection. */
  predicate LineFails(parse: Reader, line: Bytes) {
    !Decodes(line) || parse(line).BadValue? || parse(line).TooDeep?
  }

  ghost predicate AllReadable(parse: Reader, lines: seq<Bytes>) {
    forall i :: 0 <= i < |lines| ==> !LineFails(parse, lines[i])
  }

  lemma RecordsSnoc(parse: Reader, lines: seq<Bytes>, line: Bytes)
    ensures Records(parse, lines + [line]) == RecordsAnd(parse, lines, line)
  {
    assert (lines + [line])[..|lines|] == lines;
  }

  // ---------------------------------------------------------------- decoding line by line

  /** No character spans a newline, so a file decodes exactly when each of its lines does. */
  lemma {:induction false} ScanLines(d: Decoder, data: Bytes)
    ensures var lines := Split(data);
      Scan(d, data) == Between <==> Scan(d, lines[0]) == Between && AllDecode(lines[1..])
    decreases |data|
  {
    if data != [] {
      var x, rest := data[0], Split(data[1..]);
      ScanLines(Feed(d, x), data[1..]);
      if x == NEWLINE {
        assert Split(data)[1..] == rest;
        assert AllDecode(rest) <==> Decodes(rest[0]) && AllDecode(rest[1..]) by { AllDecodeFirst(rest); }
        if d != Between { BrokenStays(data[1..]); }
      } else {
        assert Split(data)[0] == [x] + rest[0] && Split(data)[1..] == rest[1..];
        assert ([x] + rest[0])[1..] == rest[0];
      }
    }
  }

  lemma AllDecodeFirst(lines: seq<Bytes>)
    requires lines != []
    ensures AllDecode(lines) <==> Decodes(lines[0]) && AllDecode(lines[1..])
  {
    if Decodes(lines[0]) && AllDecode(lines[1..]) {
      forall i | 0 <= i < |lines| ensures Decodes(lines[i]) {
        assert i > 0 ==> lines[i] == lines[1..][i - 1];
      }
    }
  }

  lemma DecodesLineByLine(data: Bytes)
    ensures Decodes(data) <==> AllDecode(Split(data))
  {
    ScanLines(Between, data);
    AllDecodeFirst(Split(data));
  }

  /** A full read fails exactly when one of the lines does. */
  lemma ReadFailsExactlyWhenALineDoes(parse: Reader, data: Bytes)
    ensures ReadLog(parse, data).Raised? <==> !AllReadable(parse, Split(data))
  {
    DecodesLineByLine(data);
    var lines := Split(data);
    if Decodes(data) && !AnyFails(parse, lines) {
      forall i | 0 <= i < |lines| ensures !LineFails(parse, lines[i]) {}
    } else if AnyFails(parse, lines) {
      var i :| 0 <= i < |lines| && (parse(lines[i]).BadValue? || parse(lines[i]).TooDeep?);
      assert LineFails(parse, lines[i]);
    } else {
      var i :| 0 <= i < |lines| && !Decodes(lines[i]);
      assert LineFails(parse, lines[i]);
    }
  }

  /** The loop: every line that reads as a record, in order; blank and rejected lines are skipped, but the first
      line that fails otherwise ends the read with nothing. */
  method ReadLines(parse: Reader, lines: seq<Bytes>) returns (r: Reading<seq<Record>>)
    ensures r == if AllReadable(parse, lines) then Got(Records(parse, lines)) else Raised
  {
    var out := [];
    for i := 0 to |lines|
      invariant out == Records(parse, lines[..i])
      invariant forall j :: 0 <= j < i ==> !LineFails(parse, lines[j])
    {
      if LineFails(parse, lines[i]) { return Raised; }
      assert lines[..i + 1] == lines[..i] + [lines[i]];
      RecordsSnoc(parse, lines[..i], lines[i]);
      var answer := parse(lines[i]);
      if answer.Rec? { out := out + [answer.record]; }
    }
    assert lines[..|lines|] == lines;
    return Got(out);
  }

  /** `read_jsonl`. */
  method ReadJsonl(parse: Reader, data: Bytes) returns (r: Reading<seq<Record>>)
    ensures r == ReadLog(parse, data)
    ensures r == if AllReadable(parse, Split(data)) then Got(Records(parse, Split(data))) else Raised
  {
    ReadFailsExactlyWhenALineDoes(parse, data);
    r := ReadLines(parse, Split(data));
  }

  // ---------------------------------------------------------------- a crash inside an append

  lemma ReadableSnoc(parse: Reader, lines: seq<Bytes>, line: Bytes)
    requires AllReadable(parse, lines)
    ensures AllReadable(parse, lines + [line]) <==> !LineFails(parse, line)
  {
    assert (lines + [line])[|lines|] == line;
  }

  /** A full read of complete lines followed by one unfinished line. */
  lemma ReadRendered(parse: Reader, lines: seq<Bytes>, torn: Bytes)
    requires AllOneLine(lines) && AllReadable(parse, lines) && OneLine(torn)
    ensures ReadLog(parse, Render(lines) + torn) ==
      if LineFails(parse, torn) then Raised else Got(RecordsAnd(parse, lines, torn))
  {
    SplitRendered(lines, torn);
    RecordsSnoc(parse, lines, torn);
    ReadableSnoc(parse, lines, torn);
    ReadFailsExactlyWhenALineDoes(parse, Render(lines) + torn);
  }

  lemma {:induction false} RenderSnoc(lines: seq<Bytes>, line: Bytes)
    ensures Render(lines + [line]) == Render(lines) + Line(line)
  {
    if lines == [] {
      assert [line][1..] == [];
      assert lines + [line] == [line];
    } else {
      assert (lines + [line])[1..] == lines[1..] + [line];
      RenderSnoc(lines[1..], line);
    }
  }

  /** A full read after complete lines and one more complete line, whether or not that line is text. */
  lemma ReadRenderedLine(parse: Reader, lines: seq<Bytes>, line: Bytes)
    requires AllOneLine(lines) && AllReadable(parse, lines) && OneLine(line) && parse([]) == Skip
    ensures ReadLog(parse, Render(lines) + Line(line)) ==
      if LineFails(parse, line) then Raised else Got(RecordsAnd(parse, lines, line))
  {
    var all := lines + [line];
    RenderSnoc(lines, line);
    assert Render(all) + [] == Render(lines) + Line(line);
    ReadableSnoc(parse, lines, line);
    RecordsSnoc(parse, lines, line);
    if LineFails(parse, line) {
      SplitRendered(all, []);
      ReadFailsExactlyWhenALineDoes(parse, Render(all) + []);
      assert (all + [[]])[|lines|] == line;
    } else {
      ReadRendered(parse, all, []);
    }
  }

  /** The cut falls inside a character: the byte after it continues one. */
  predicate CutsCharacter(line: Bytes, written: nat) {
    written < |line| && IsContinuation(line[written])
  }

  /** After a crash at any byte of an append the log can be read exactly when the cut does not fall inside a
      character. Then all earlier records are read, and the new one exactly when all of it but possibly the
      newline was written. Otherwise no record is read at all, against the promise that a crash only costs the
      partial line. (Reading assumption: the parser rejects every proper prefix of the line that is text.) */
  lemma CrashLosesOnlyThatRecordExactlyBetweenCharacters(parse: Reader, lines: seq<Bytes>, line: Bytes, written: nat)
    requires AllOneLine(lines) && AllReadable(parse, lines) && OneLine(line) && Decodes(line)
    requires written <= |line| + 1 && parse([]) == Skip && parse(line).Rec?
    requires forall o :: 0 <= o < |line| ==> (Decodes(line[..o]) ==> parse(line[..o]) == Skip)
    ensures ReadLog(parse, Render(lines) + Line(line)[..written]) ==
      if CutsCharacter(line, written) then Raised
      else if written < |line| then Got(Records(parse, lines))
      else Got(Records(parse, lines) + [parse(line).record])
  {
    if written <= |line| {
      var torn := line[..written];
      assert Line(line)[..written] == torn;
      assert written == |line| ==> torn == line;
      CutDecodesExactlyBetweenCharacters(line, written);
      ReadRendered(parse, lines, torn);
    } else {
      assert Line(line)[..written] == Line(line);
      ReadRenderedLine(parse, lines, line);
    }
  }

  /** The record `{"é"}` in UTF-8. */
  const ACCENTED: Bytes := [0x7B, 0x22, 0xC3, 0xA9, 0x22, 0x7D]

  /** Concretely: whatever complete records the log holds, a crash after three bytes of that record hides all of them. */
  lemma CutCharacterHidesEverything(parse: Reader, lines: seq<Bytes>)
    requires AllOneLine(lines) && AllReadable(parse, lines)
    ensures Decodes(ACCENTED) && ReadLog(parse, Render(lines) + Line(ACCENTED)[..3]) == Raised
  {
    assert ACCENTED[1..] == [0x22, 0xC3, 0xA9, 0x22, 0x7D];
    assert ACCENTED[1..][1..] == [0xC3, 0xA9, 0x22, 0x7D];
    assert ACCENTED[1..][1..][1..] == [0xA9, 0x22, 0x7D];
    assert ACCENTED[1..][1..][1..][1..] == [0x22, 0x7D];
    assert ACCENTED[1..][1..][1..][1..][1..] == [0x7D];
    assert ACCENTED[1..][1..][1..][1..][1..][1..] == [];
    assert Decodes(ACCENTED);
    var torn := ACCENTED[..3];
    assert Line(ACCENTED)[..3] == torn;
    CutDecodesExactlyBetweenCharacters(ACCENTED, 3);
    ReadRendered(parse, lines, torn);
  }

  /** The next append shares the line of the torn record. A record persisted after a crash is therefore read
      only when the torn bytes and the new line decode and read as one record together; otherwise it is lost,
      against the promise that persisted records never are. */
  lemma AppendAfterTornLine(parse: Reader, lines: seq<Bytes>, torn: Bytes, line: Bytes)
    requires AllOneLine(lines) && AllReadable(parse, lines) && OneLine(torn) && OneLine(line) && parse([]) == Skip
    ensures ReadLog(parse, Render(lines) + torn + Line(line)) ==
      if LineFails(parse, torn + line) then Raised else Got(RecordsAnd(parse, lines, torn + line))
  {
    assert Render(lines) + torn + Line(line) == Render(lines) + Line(torn + line);
    ReadRenderedLine(parse, lines, torn + line);
  }

  /** A log that a cut character made unreadable stays so whatever is appended, because every record starts
      with a brace and not with a continuation byte. */
  lemma UnreadableLogStaysUnreadable(parse: Reader, data: Bytes, appended: seq<Bytes>)
    requires !Decodes(data)
    requires forall i :: 0 <= i < |appended| ==> appended[i] != [] && !IsContinuation(appended[i][0])
    ensures ReadLog(parse, data + Render(appended)) == Raised
  {
    if appended != [] {
      assert Render(appended)[0] == appended[0][0];
    }
    UndecodableStays(data, Render(appended));
  }

  /** So does a log with a complete line that fails for any reason. */
  lemma FailingLineHidesEverything(parse: Reader, lines: seq<Bytes>, rest: Bytes, i: nat)
    requires AllOneLine(lines) && i < |lines| && LineFails(parse, lines[i])
    ensures ReadLog(parse, Render(lines) + rest) == Raised
  {
    SplitAfterLines(lines, rest);
    assert (lines + Split(rest))[i] == lines[i];
    ReadFailsExactlyWhenALineDoes(parse, Render(lines) + rest);
  }

  /** Concretely: a header longer than the head of the listing and a record cut inside a character. The file fails
      to list, and with it the list of all sessions. */
  lemma OneTornSessionHidesAll(parse: Reader, header: Bytes, torn: Bytes, chunk: nat, id: string)
    requires OneLine(header) && OneLine(torn) && |header| > chunk && !Decodes(torn)
    requires PrefixesDoNotParse(parse, [header, torn])
    ensures TailOrFullFields(parse, Line(header) + torn, chunk, id) == Raised
  {
    var data := Line(header) + torn;
    SplitFirstLine(header, torn);
    SplitOneLine(torn);
    assert Split(data) == [header, torn];
    assert LineFails(parse, Split(data)[1]);
    ReadFailsExactlyWhenALineDoes(parse, data);
    LongHeaderFailsToList(parse, data, chunk, id);
  }
}
