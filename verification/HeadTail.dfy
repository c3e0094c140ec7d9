/** Listing a session from the two ends of its file (server/storage/session_file.py, 179-241). */
module HeadTail {
  import opened Selection
  import opened Wrappers
  import opened SessionFile
  import opened Utf8

  /** Putting one byte in front of split data. */
  function Push(x: Byte, pieces: seq<Bytes>): seq<Bytes>
    requires |pieces| >= 1
  {
    if x == NEWLINE then [[]] + pieces else [[x] + pieces[0]] + pieces[1..]
  }

  /** `data.split(b"\n")`. */
  function Split(data: Bytes): (pieces: seq<Bytes>)
    ensures |pieces| >= 1
  {
    if data == [] then [[]] else Push(data[0], Split(data[1..]))
  }

  /** What reading one line gives. Skip: blank, rejected as JSON, or no object. BadValue: a value error that is no
      rejection, as for bytes that are not text or an integer with too many digits. TooDeep: nesting that
      exhausts the interpreter's stack. */
  datatype Answer = Rec(record: Record) | Skip | BadValue | TooDeep

  type Reader = Bytes -> Answer

  /** A full read catches rejections only. */
  predicate AnyFails(parse: Reader, lines: seq<Bytes>) {
    exists i :: 0 <= i < |lines| && (parse(lines[i]).BadValue? || parse(lines[i]).TooDeep?)
  }

  /** A listing catches every value error. */
  predicate AnyTooDeep(parse: Reader, lines: seq<Bytes>) {
    exists i :: 0 <= i < |lines| && parse(lines[i]).TooDeep?
  }

  /** What a read of a file gives: a value, or an error that no caller catches. */
  datatype Reading<T> = Got(value: T) | Raised

  /** Fold of the lines that can be read, later lines winning. */
  function LineFields(parse: Reader, lines: seq<Bytes>): Fields {
    if lines == [] then map[]
    else
      var before := LineFields(parse, lines[..|lines| - 1]);
      match parse(lines[|lines| - 1])
      case Rec(rec) => before + Patch(rec)
      case _ => before
  }

  predicate SeesHeader(parse: Reader, lines: seq<Bytes>) {
    exists i :: 0 <= i < |lines| && parse(lines[i]).Rec? && parse(lines[i]).record.Header?
  }

  /** The records a full read of the file yields. */
  function Records(parse: Reader, lines: seq<Bytes>): seq<Record> {
    if lines == [] then []
    else
      var before := Records(parse, lines[..|lines| - 1]);
      match parse(lines[|lines| - 1])
      case Rec(rec) => before + [rec]
      case _ => before
  }

  function AnswersOf(parse: Reader, lines: seq<Bytes>): seq<Answer> {
    seq(|lines|, i requires 0 <= i < |lines| => parse(lines[i]))
  }

  function AsAnswers(records: seq<Record>): seq<Answer> {
    seq(|records|, i requires 0 <= i < |records| => Rec(records[i]))
  }

  /** The records are those of the lines that read as one, in order. */
  lemma {:induction false} RecordsArePicked(parse: Reader, lines: seq<Bytes>) returns (at: seq<nat>)
    ensures Picks(AnswersOf(parse, lines), AsAnswers(Records(parse, lines)), at)
    ensures forall k: nat :: k < |lines| ==> (k in at <==> parse(lines[k]).Rec?)
  {
    if lines == [] {
      at := [];
    } else {
      var init, last := lines[..|lines| - 1], parse(lines[|lines| - 1]);
      var records := Records(parse, init);
      at := RecordsArePicked(parse, init);
      assert AnswersOf(parse, lines) == AnswersOf(parse, init) + [last];
      if last.Rec? {
        assert AsAnswers(records + [last.record]) == AsAnswers(records) + [last];
        PicksTake(AnswersOf(parse, init), AsAnswers(records), at, last);
        at := at + [|init|];
      } else {
        PicksSkip(AnswersOf(parse, init), AsAnswers(records), at, last);
      }
    }
  }

  /** A full read opens the file as text and parses every line, so one byte that does not decode, or one line
      that fails otherwise than by rejection, takes every record with it. */
  function ReadLog(parse: Reader, data: Bytes): Reading<seq<Record>> {
    if Decodes(data) && !AnyFails(parse, Split(data)) then Got(Records(parse, Split(data))) else Raised
  }

  /** The line fold is the record fold of what a full read yields. */
  lemma {:induction false} LineFieldsAreFieldsOf(parse: Reader, lines: seq<Bytes>)
    ensures LineFields(parse, lines) == FieldsOf(Records(parse, lines))
  {
    if lines != [] {
      var init := lines[..|lines| - 1];
      LineFieldsAreFieldsOf(parse, init);
      match parse(lines[|lines| - 1]) {
        case Rec(rec) => AppendFields(Records(parse, init), rec);
        case _ =>
      }
    }
  }

  lemma {:induction false} LineFieldsAppend(parse: Reader, a: seq<Bytes>, b: seq<Bytes>)
    ensures LineFields(parse, a + b) == LineFields(parse, a) + LineFields(parse, b)
  {
    if b == [] {
      assert a + b == a;
      assert LineFields(parse, a) + map[] == LineFields(parse, a);
    } else {
      assert (a + b)[..|a + b| - 1] == a + b[..|b| - 1];
      LineFieldsAppend(parse, a, b[..|b| - 1]);
    }
  }

  // ---------------------------------------------------------------- cutting the bytes

  /** Which piece a cut falls into, and how far into it. */
  function Cut(data: Bytes, c: nat): (nat, nat)
    requires c <= |data|
  {
    if c == 0 then (0, 0)
    else PushCut(data[0], Cut(data[1..], c - 1))
  }

  function PushCut(x: Byte, at: (nat, nat)): (nat, nat) {
    if x == NEWLINE then (at.0 + 1, at.1) else if at.0 > 0 then at else (0, at.1 + 1)
  }

  ghost predicate CutsAt(whole: seq<Bytes>, front: seq<Bytes>, back: seq<Bytes>, at: (nat, nat)) {
    && at.0 < |whole| && at.1 <= |whole[at.0]|
    && front == whole[..at.0] + [whole[at.0][..at.1]]
    && back == [whole[at.0][at.1..]] + whole[at.0 + 1..]
  }

  lemma PushKeepsCut(x: Byte, whole: seq<Bytes>, front: seq<Bytes>, back: seq<Bytes>, at: (nat, nat))
    requires |whole| >= 1 && |front| >= 1 && CutsAt(whole, front, back, at)
    ensures CutsAt(Push(x, whole), Push(x, front), back, PushCut(x, at))
  {
    var (h, o) := at;
    var all := Push(x, whole);
    if x == NEWLINE {
      assert all[..h + 1] == [[]] + whole[..h];
      assert all[h + 1] == whole[h] && all[h + 2..] == whole[h + 1..];
    } else if h > 0 {
      assert front[0] == whole[0] && front[1..] == whole[1..h] + [whole[h][..o]];
      assert all[..h] == [[x] + whole[0]] + whole[1..h];
      assert all[h] == whole[h] && all[h + 1..] == whole[h + 1..];
    } else {
      assert front == [whole[0][..o]];
      assert all[0][..o + 1] == [x] + whole[0][..o] && all[0][o + 1..] == whole[0][o..];
      assert all[..0] == [] && all[1..] == whole[1..];
    }
  }

  /** Cutting the data anywhere cuts exactly one piece in two. */
  lemma {:induction false} CutSplits(data: Bytes, c: nat)
    requires c <= |data|
    ensures CutsAt(Split(data), Split(data[..c]), Split(data[c..]), Cut(data, c))
  {
    var all := Split(data);
    if c == 0 {
      assert data[..0] == [] && data[0..] == data;
      assert all[..0] == [] && all[0][..0] == [] && all[0][0..] == all[0];
      assert [all[0]] + all[1..] == all;
    } else {
      var rest := data[1..];
      CutSplits(rest, c - 1);
      assert data[..c][1..] == rest[..c - 1] && data[c..] == rest[c - 1..];
      PushKeepsCut(data[0], Split(rest), Split(rest[..c - 1]), Split(rest[c - 1..]), Cut(rest, c - 1));
    }
  }

  /** Position in the data at which piece `h` starts. */
  function Offset(pieces: seq<Bytes>, h: nat): nat
    requires h <= |pieces|
  {
    if h == 0 then 0 else Offset(pieces, h - 1) + |pieces[h - 1]| + 1
  }

  // ---------------------------------------------------------------- the listing

  function HeadPieces(data: Bytes, chunk: nat): seq<Bytes> {
    Split(if |data| > chunk then data[..chunk] else data)
  }

  function TailPieces(data: Bytes, chunk: nat): seq<Bytes> {
    if |data| > chunk then Split(data[|data| - chunk..])[1..] else HeadPieces(data, chunk)
  }

  /** Identity from the head, latest state from the tail. An empty result means no header was seen. */
  function WindowFields(parse: Reader, data: Bytes, chunk: nat): Fields {
    FoldWindows(parse, HeadPieces(data, chunk), TailPieces(data, chunk))
  }

  /** Head lines first, then tail lines on top; nothing when the head shows no header. */
  function FoldWindows(parse: Reader, head: seq<Bytes>, tail: seq<Bytes>): Fields {
    if SeesHeader(parse, head) then LineFields(parse, head) + LineFields(parse, tail) else map[]
  }

  /** A piece of the head, or of the tail if that is read at all, is nested too deep to read. */
  predicate Overflows(parse: Reader, data: Bytes, chunk: nat) {
    || AnyTooDeep(parse, HeadPieces(data, chunk))
    || (SeesHeader(parse, HeadPieces(data, chunk)) && AnyTooDeep(parse, TailPieces(data, chunk)))
  }

  function HeadTailFields(parse: Reader, data: Bytes, chunk: nat): Reading<Fields> {
    if Overflows(parse, data, chunk) then Raised else Got(WindowFields(parse, data, chunk))
  }

  function TailOrFullFields(parse: Reader, data: Bytes, chunk: nat, id: string): Reading<Fields> {
    match HeadTailFields(parse, data, chunk)
    case Raised => Raised
    case Got(cheap) =>
      if cheap != map[] then Got(cheap)
      else match ReadLog(parse, data)
        case Raised => Raised
        case Got(records) =>
          match Fold(records, id) case None => Got(map[]) case Some(snap) => Got(snap.fields)
  }

  /** Reading assumption: no line of the file has a proper prefix that reads as a record,
      and an empty line is skipped. */
  ghost predicate PrefixesDoNotParse(parse: Reader, pieces: seq<Bytes>) {
    && parse([]) == Skip
    && forall i, o :: 0 <= i < |pieces| && 0 <= o < |pieces[i]| ==> !parse(pieces[i][..o]).Rec?
  }

  /** Lines fully inside the front part of a cut. */
  function FrontLines(whole: seq<Bytes>, at: (nat, nat)): (n: nat)
    requires at.0 < |whole|
    ensures n <= |whole|
  {
    if at.1 == |whole[at.0]| then at.0 + 1 else at.0
  }

  /** How many leading lines the head reads: a last line cut off in its inside does not count. */
  function HeadLines(data: Bytes, chunk: nat): (n: nat)
    ensures n <= |Split(data)|
  {
    if |data| <= chunk then |Split(data)|
    else
      CutSplits(data, chunk);
      FrontLines(Split(data), Cut(data, chunk))
  }

  /** The line the tail starts from: always the one after the line it lands in. */
  function TailFrom(data: Bytes, chunk: nat): (n: nat)
    ensures n <= |Split(data)|
  {
    if |data| <= chunk then 0
    else
      CutSplits(data, |data| - chunk);
      Cut(data, |data| - chunk).0 + 1
  }

  lemma LastUnreadable(parse: Reader, lines: seq<Bytes>, torn: Bytes)
    requires !parse(torn).Rec?
    ensures LineFields(parse, lines + [torn]) == LineFields(parse, lines)
    ensures SeesHeader(parse, lines + [torn]) <==> SeesHeader(parse, lines)
  {
    var all := lines + [torn];
    assert all[..|all| - 1] == lines;
    if SeesHeader(parse, lines) {
      var i :| 0 <= i < |lines| && parse(lines[i]).Rec? && parse(lines[i]).record.Header?;
      assert all[i] == lines[i];
    }
    if SeesHeader(parse, all) {
      var i :| 0 <= i < |all| && parse(all[i]).Rec? && parse(all[i]).record.Header?;
      assert lines[i] == all[i];
    }
  }

  /** Two line lists that read the same. */
  ghost predicate SameReading(parse: Reader, a: seq<Bytes>, b: seq<Bytes>) {
    LineFields(parse, a) == LineFields(parse, b) && (SeesHeader(parse, a) <==> SeesHeader(parse, b))
  }

  lemma FrontReadsItsLines(parse: Reader, whole: seq<Bytes>, front: seq<Bytes>, back: seq<Bytes>, at: (nat, nat))
    requires PrefixesDoNotParse(parse, whole) && CutsAt(whole, front, back, at)
    ensures SameReading(parse, front, whole[..FrontLines(whole, at)])
  {
    var (h, o) := at;
    if o == |whole[h]| {
      assert whole[h][..o] == whole[h];
      assert whole[..h] + [whole[h]] == whole[..h + 1];
    } else {
      assert !parse(whole[h][..o]).Rec?;
      LastUnreadable(parse, whole[..h], whole[h][..o]);
    }
  }

  lemma HeadReadsLines(parse: Reader, data: Bytes, chunk: nat)
    requires PrefixesDoNotParse(parse, Split(data)) && chunk < |data|
    ensures SameReading(parse, Split(data[..chunk]), Split(data)[..HeadLines(data, chunk)])
  {
    CutSplits(data, chunk);
    FrontReadsItsLines(parse, Split(data), Split(data[..chunk]), Split(data[chunk..]), Cut(data, chunk));
  }

  lemma BackAfterCut(whole: seq<Bytes>, front: seq<Bytes>, back: seq<Bytes>, at: (nat, nat))
    requires CutsAt(whole, front, back, at)
    ensures |back| >= 1 && back[1..] == whole[at.0 + 1..]
  {
  }

  lemma BackPieces(data: Bytes, c: nat)
    requires c <= |data|
    ensures Cut(data, c).0 + 1 <= |Split(data)| && Split(data[c..])[1..] == Split(data)[Cut(data, c).0 + 1..]
  {
    CutSplits(data, c);
    BackAfterCut(Split(data), Split(data[..c]), Split(data[c..]), Cut(data, c));
  }

  lemma TailFromIs(data: Bytes, chunk: nat)
    requires chunk < |data|
    ensures TailFrom(data, chunk) == Cut(data, |data| - chunk).0 + 1
  {
  }

  lemma SmallListing(parse: Reader, data: Bytes, chunk: nat)
    requires |data| <= chunk
    ensures WindowFields(parse, data, chunk) == FoldWindows(parse, Split(data), Split(data))
    ensures Split(data)[..HeadLines(data, chunk)] == Split(data)
    ensures Split(data)[TailFrom(data, chunk)..] == Split(data)
  {
  }

  lemma FoldsAlike(parse: Reader, head: seq<Bytes>, head': seq<Bytes>, tail: seq<Bytes>)
    requires SameReading(parse, head', head)
    ensures FoldWindows(parse, head', tail) == FoldWindows(parse, head, tail)
  {
  }

  lemma BigPieces(data: Bytes, chunk: nat, n: nat)
    requires chunk < |data| && n == Cut(data, |data| - chunk).0 + 1 && n <= |Split(data)|
    ensures HeadPieces(data, chunk) == Split(data[..chunk]) && TailPieces(data, chunk) == Split(data)[n..]
  {
    var c := |data| - chunk;
    BackPieces(data, c);
    assert TailPieces(data, chunk) == Split(data[c..])[1..];
  }

  lemma BigListing(parse: Reader, data: Bytes, chunk: nat, head: seq<Bytes>, n: nat)
    requires chunk < |data| && SameReading(parse, Split(data[..chunk]), head)
    requires n == Cut(data, |data| - chunk).0 + 1 && n <= |Split(data)|
    ensures WindowFields(parse, data, chunk) == FoldWindows(parse, head, Split(data)[n..])
  {
    BigPieces(data, chunk, n);
    FoldsAlike(parse, head, Split(data[..chunk]), Split(data)[n..]);
  }

  lemma WindowReadsLines(parse: Reader, data: Bytes, chunk: nat)
    requires PrefixesDoNotParse(parse, Split(data))
    ensures WindowFields(parse, data, chunk) ==
      FoldWindows(parse, Split(data)[..HeadLines(data, chunk)], Split(data)[TailFrom(data, chunk)..])
  {
    var head := Split(data)[..HeadLines(data, chunk)];
    if |data| <= chunk {
      SmallListing(parse, data, chunk);
    } else {
      HeadReadsLines(parse, data, chunk);
      TailFromIs(data, chunk);
      BigListing(parse, data, chunk, head, TailFrom(data, chunk));
    }
  }

  /** The listing is the fold of the head lines, then of the tail lines, unless it meets a line it cannot read
      for its depth. */
  lemma ListingReadsWindow(parse: Reader, data: Bytes, chunk: nat)
    requires PrefixesDoNotParse(parse, Split(data))
    ensures HeadTailFields(parse, data, chunk) ==
      if Overflows(parse, data, chunk) then Raised
      else Got(FoldWindows(parse, Split(data)[..HeadLines(data, chunk)], Split(data)[TailFrom(data, chunk)..]))
  {
    WindowReadsLines(parse, data, chunk);
  }

  lemma HeadPiecesAreLines(data: Bytes, chunk: nat, p: Bytes)
    requires p in HeadPieces(data, chunk)
    ensures exists i, o :: 0 <= i < |Split(data)| && 0 <= o <= |Split(data)[i]| && p == Split(data)[i][..o]
  {
    var whole := Split(data);
    if |data| > chunk {
      CutSplits(data, chunk);
      var (h, o) := Cut(data, chunk);
      if p != whole[h][..o] {
        var i :| 0 <= i < h && whole[i] == p;
        assert p == whole[i][..|whole[i]|];
      }
    } else {
      var i :| 0 <= i < |whole| && whole[i] == p;
      assert p == whole[i][..|whole[i]|];
    }
  }

  /** Reading assumption: a prefix is nested no deeper than its line. */
  ghost predicate PrefixesAreNoDeeper(parse: Reader, pieces: seq<Bytes>) {
    forall i, o :: 0 <= i < |pieces| && 0 <= o <= |pieces[i]| ==>
      (parse(pieces[i][..o]).TooDeep? ==> parse(pieces[i]).TooDeep?)
  }

  /** Then a listing overflows only on files with a line that is too deep. */
  lemma OverflowsOnlyOnDeepLines(parse: Reader, data: Bytes, chunk: nat)
    requires PrefixesAreNoDeeper(parse, Split(data))
    requires Overflows(parse, data, chunk)
    ensures AnyTooDeep(parse, Split(data))
  {
    if AnyTooDeep(parse, HeadPieces(data, chunk)) {
      var k :| 0 <= k < |HeadPieces(data, chunk)| && parse(HeadPieces(data, chunk)[k]).TooDeep?;
      DeepHeadPiece(parse, Split(data), data, chunk, HeadPieces(data, chunk)[k]);
    } else {
      TailPiecesAreLines(data, chunk);
      DeepSuffix(parse, Split(data), TailPieces(data, chunk));
    }
  }

  lemma DeepHeadPiece(parse: Reader, pieces: seq<Bytes>, data: Bytes, chunk: nat, p: Bytes)
    requires pieces == Split(data) && PrefixesAreNoDeeper(parse, pieces)
    requires p in HeadPieces(data, chunk) && parse(p).TooDeep?
    ensures AnyTooDeep(parse, pieces)
  {
    HeadPiecesAreLines(data, chunk, p);
    var i, o :| 0 <= i < |pieces| && 0 <= o <= |pieces[i]| && p == pieces[i][..o];
    assert parse(pieces[i]).TooDeep?;
  }

  lemma TailPiecesAreLines(data: Bytes, chunk: nat)
    requires TailPieces(data, chunk) != HeadPieces(data, chunk)
    ensures forall p :: p in TailPieces(data, chunk) ==> p in Split(data)
  {
    if |data| > chunk {
      BackPieces(data, |data| - chunk);
      var n := Cut(data, |data| - chunk).0 + 1;
      BigPieces(data, chunk, n);
      SuffixIn(Split(data), n);
    }
  }

  lemma SuffixIn(pieces: seq<Bytes>, n: nat)
    requires n <= |pieces|
    ensures forall p :: p in pieces[n..] ==> p in pieces
  {
  }

  lemma DeepSuffix(parse: Reader, pieces: seq<Bytes>, back: seq<Bytes>)
    requires AnyTooDeep(parse, back) && forall p :: p in back ==> p in pieces
    ensures AnyTooDeep(parse, pieces)
  {
    var k :| 0 <= k < |back| && parse(back[k]).TooDeep?;
    assert back[k] in pieces;
    var i :| 0 <= i < |pieces| && pieces[i] == back[k];
  }

  /** When the two windows together reach every line, the listing equals the full fold. */
  lemma CoveringListingIsExact(parse: Reader, data: Bytes, chunk: nat)
    requires PrefixesDoNotParse(parse, Split(data))
    requires TailFrom(data, chunk) <= HeadLines(data, chunk)
    requires SeesHeader(parse, Split(data)[..HeadLines(data, chunk)])
    ensures WindowFields(parse, data, chunk) == FieldsOf(Records(parse, Split(data)))
    ensures !Overflows(parse, data, chunk) ==> HeadTailFields(parse, data, chunk) == Got(FieldsOf(Records(parse, Split(data))))
  {
    WindowReadsLines(parse, data, chunk);
    OverlapFolds(parse, Split(data), HeadLines(data, chunk), TailFrom(data, chunk));
    LineFieldsAreFieldsOf(parse, Split(data));
  }

  /** Folding overlapping windows one after the other is folding everything once. */
  lemma OverlapFolds(parse: Reader, pieces: seq<Bytes>, head: nat, tail: nat)
    requires tail <= head <= |pieces|
    ensures LineFields(parse, pieces[..head]) + LineFields(parse, pieces[tail..]) == LineFields(parse, pieces)
  {
    var a, b, c := pieces[..tail], pieces[tail..head], pieces[head..];
    Windows(pieces, head, tail);
    LineFieldsAppend(parse, a, b);
    LineFieldsAppend(parse, b, c);
    LineFieldsAppend(parse, a + b, c);
    MergeTwice(LineFields(parse, a), LineFields(parse, b), LineFields(parse, c));
  }

  lemma Windows(pieces: seq<Bytes>, head: nat, tail: nat)
    requires tail <= head <= |pieces|
    ensures var a, b, c := pieces[..tail], pieces[tail..head], pieces[head..];
      pieces[..head] == a + b && pieces[tail..] == b + c && pieces == (a + b) + c
  {
  }

  lemma MergeTwice(a: Fields, b: Fields, c: Fields)
    ensures (a + b) + (b + c) == (a + b) + c
  {
  }

  lemma {:induction false} CutOffset(data: Bytes, c: nat)
    requires c <= |data|
    ensures var (h, o) := Cut(data, c);
      h < |Split(data)| && o <= |Split(data)[h]| && c == Offset(Split(data), h) + o
  {
    CutSplits(data, c);
    SplitLength(data[..c]);
    var (h, o) := Cut(data, c);
    var pieces := Split(data);
    OffsetPrefix(pieces[..h] + [pieces[h][..o]], pieces, h);
  }

  lemma {:induction false} OffsetPrefix(a: seq<Bytes>, b: seq<Bytes>, h: nat)
    requires h <= |a| && h <= |b| && forall i :: 0 <= i < h ==> a[i] == b[i]
    ensures Offset(a, h) == Offset(b, h)
  {
    if h > 0 { OffsetPrefix(a, b, h - 1); }
  }

  lemma PushLength(x: Byte, pieces: seq<Bytes>)
    requires |pieces| >= 1
    ensures var p := Push(x, pieces);
      Offset(p, |p| - 1) + |p[|p| - 1]| == 1 + Offset(pieces, |pieces| - 1) + |pieces[|pieces| - 1]|
  {
    if x == NEWLINE {
      OffsetShift([[]], pieces, |pieces| - 1);
    } else {
      OffsetGrow(Push(x, pieces), pieces, |pieces| - 1);
    }
  }

  lemma {:induction false} SplitLength(data: Bytes)
    ensures var p := Split(data); |data| == Offset(p, |p| - 1) + |p[|p| - 1]|
  {
    if data != [] {
      SplitLength(data[1..]);
      PushLength(data[0], Split(data[1..]));
    }
  }

  lemma {:induction false} OffsetShift(x: seq<Bytes>, rest: seq<Bytes>, h: nat)
    requires |x| == 1 && h <= |rest|
    ensures Offset(x + rest, h + 1) == |x[0]| + 1 + Offset(rest, h)
  {
    if h > 0 {
      OffsetShift(x, rest, h - 1);
      assert (x + rest)[h] == rest[h - 1];
    } else {
      assert Offset(x + rest, 0) == 0;
    }
  }

  lemma {:induction false} OffsetGrow(all: seq<Bytes>, rest: seq<Bytes>, h: nat)
    requires |all| == |rest| && h < |all| && |all[0]| == |rest[0]| + 1
    requires forall i :: 1 <= i < |all| ==> all[i] == rest[i]
    ensures Offset(all, h) == Offset(rest, h) + (if h > 0 then 1 else 0)
  {
    if h > 0 { OffsetGrow(all, rest, h - 1); }
  }

  lemma {:induction false} OffsetGrows(pieces: seq<Bytes>, i: nat, j: nat)
    requires i < j <= |pieces|
    ensures Offset(pieces, i) + |pieces[i]| < Offset(pieces, j)
  {
    if i + 1 < j { OffsetGrows(pieces, i, j - 1); }
  }

  /** A file of at most one chunk is folded twice, which is the same as once. */
  lemma SmallFileIsExact(parse: Reader, data: Bytes, chunk: nat)
    requires |data| <= chunk && SeesHeader(parse, Split(data))
    ensures HeadTailFields(parse, data, chunk) ==
      if AnyTooDeep(parse, Split(data)) then Raised else Got(FieldsOf(Records(parse, Split(data))))
  {
    LineFieldsAreFieldsOf(parse, Split(data));
    MergeSelf(LineFields(parse, Split(data)));
  }

  lemma MergeSelf(f: Fields)
    ensures f + f == f
  {
  }

  /** Both cuts fall into one line, and the head does not reach that line's end. */
  ghost predicate OneLineStraddles(data: Bytes, chunk: nat)
    requires chunk < |data|
  {
    CutSplits(data, chunk);
    var (h, o) := Cut(data, chunk);
    Cut(data, |data| - chunk).0 == h && o < |Split(data)[h]|
  }

  /** A file of at most two chunks is covered exactly when no single line straddles both cuts,
      so one long line in the middle is enough to leave it out. */
  lemma TwoChunksCoverExactlyUnlessOneLineStraddles(data: Bytes, chunk: nat)
    requires chunk < |data| <= 2 * chunk
    ensures TailFrom(data, chunk) <= HeadLines(data, chunk) <==>
      !OneLineStraddles(data, chunk)
  {
    var pieces := Split(data);
    CutOffset(data, chunk);
    CutOffset(data, |data| - chunk);
    var (h, o) := Cut(data, chunk);
    var (h2, o2) := Cut(data, |data| - chunk);
    if h < h2 { OffsetGrows(pieces, h, h2); }
  }

  /** A file of one header line, one line that writes `k` and straddles both cuts, and an unreadable rest: the
      header shows, but the listing lacks `k`, which the full fold has. */
  lemma StraddlingLineIsMissed(parse: Reader, data: Bytes, chunk: nat, k: Key)
    requires PrefixesDoNotParse(parse, Split(data)) && chunk < |data| <= 2 * chunk
    requires var pieces := Split(data);
      && |pieces| == 3 && parse(pieces[0]).Rec? && parse(pieces[0]).record.Header? && k !in Patch(parse(pieces[0]).record)
      && parse(pieces[1]).Rec? && k in Patch(parse(pieces[1]).record) && !parse(pieces[2]).Rec?
    requires OneLineStraddles(data, chunk) && Cut(data, chunk).0 == 1
    ensures SeesHeader(parse, Split(data)[..HeadLines(data, chunk)])
    ensures k in FieldsOf(Records(parse, Split(data))) && k !in WindowFields(parse, data, chunk)
  {
    var pieces := Split(data);
    CutSplits(data, chunk);
    TailFromIs(data, chunk);
    WindowReadsLines(parse, data, chunk);
    LineFieldsAreFieldsOf(parse, pieces);
    ThreeLines(parse, pieces);
    assert pieces[..1][0] == pieces[0];
  }

  lemma ThreeLines(parse: Reader, pieces: seq<Bytes>)
    requires |pieces| == 3 && parse(pieces[0]).Rec? && parse(pieces[1]).Rec? && !parse(pieces[2]).Rec?
    ensures LineFields(parse, pieces) == Patch(parse(pieces[0]).record) + Patch(parse(pieces[1]).record)
    ensures LineFields(parse, pieces[..1]) == Patch(parse(pieces[0]).record) && LineFields(parse, pieces[2..]) == map[]
  {
    assert pieces[..2][..1] == pieces[..1] && pieces[..1][..0] == [] && pieces[2..][..0] == [];
    assert LineFields(parse, []) == map[];
    assert LineFields(parse, pieces[..2]) == LineFields(parse, pieces[..1]) + Patch(parse(pieces[1]).record);
  }

  /** Field by field, whatever the gap: what the windows give agrees with the full fold exactly when the field is
      written in the tail, or not written in the gap, or the gap repeats the value the head ended with. */
  lemma FieldAgreesExactlyWhen(parse: Reader, data: Bytes, chunk: nat, k: Key)
    requires PrefixesDoNotParse(parse, Split(data))
    requires HeadLines(data, chunk) <= TailFrom(data, chunk)
    requires SeesHeader(parse, Split(data)[..HeadLines(data, chunk)])
    ensures var pieces, head, tail := Split(data), HeadLines(data, chunk), TailFrom(data, chunk);
      var h, g, t := LineFields(parse, pieces[..head]), LineFields(parse, pieces[head..tail]), LineFields(parse, pieces[tail..]);
      SameAt(WindowFields(parse, data, chunk), FieldsOf(Records(parse, pieces)), k)
      <==> k in t || k !in g || (k in h && h[k] == g[k])
  {
    var pieces, head, tail := Split(data), HeadLines(data, chunk), TailFrom(data, chunk);
    WindowReadsLines(parse, data, chunk);
    GapFolds(parse, pieces, head, tail);
    LineFieldsAreFieldsOf(parse, pieces);
    GapMatters(LineFields(parse, pieces[..head]), LineFields(parse, pieces[head..tail]), LineFields(parse, pieces[tail..]), k);
  }

  lemma GapFolds(parse: Reader, pieces: seq<Bytes>, head: nat, tail: nat)
    requires head <= tail <= |pieces|
    ensures LineFields(parse, pieces) ==
      LineFields(parse, pieces[..head]) + LineFields(parse, pieces[head..tail]) + LineFields(parse, pieces[tail..])
  {
    ThreeParts(pieces, head, tail);
    ThreeFolds(parse, pieces[..head], pieces[head..tail], pieces[tail..]);
  }

  lemma ThreeParts(pieces: seq<Bytes>, head: nat, tail: nat)
    requires head <= tail <= |pieces|
    ensures pieces == (pieces[..head] + pieces[head..tail]) + pieces[tail..]
  {
  }

  lemma ThreeFolds(parse: Reader, a: seq<Bytes>, b: seq<Bytes>, c: seq<Bytes>)
    ensures LineFields(parse, (a + b) + c) == (LineFields(parse, a) + LineFields(parse, b)) + LineFields(parse, c)
  {
    LineFieldsAppend(parse, a, b);
    LineFieldsAppend(parse, a + b, c);
  }

  /** What the listing shows for one file whose windows are not too deep. When they cover it: the exact fields,
      even of a file that a full read fails on. When the head shows no header: the full fold (with the file name
      as identity when the log has none), and the error of the full read exactly when that fails. */
  lemma ListingIsExactOrFull(parse: Reader, data: Bytes, chunk: nat, id: string)
    requires PrefixesDoNotParse(parse, Split(data))
    ensures var head := Split(data)[..HeadLines(data, chunk)];
      var records := Records(parse, Split(data));
      && (Overflows(parse, data, chunk) ==> TailOrFullFields(parse, data, chunk, id) == Raised)
      && (!Overflows(parse, data, chunk) && SeesHeader(parse, head)
          && TailFrom(data, chunk) <= HeadLines(data, chunk) && FieldsOf(records) != map[] ==>
            TailOrFullFields(parse, data, chunk, id) == Got(FieldsOf(records)))
      && (!Overflows(parse, data, chunk) && !SeesHeader(parse, head) ==>
            TailOrFullFields(parse, data, chunk, id) ==
              if ReadLog(parse, data).Raised? then Raised
              else Got(if FieldsOf(records) == map[] then map[] else SetDefaultId(FieldsOf(records), id)))
  {
    var head := Split(data)[..HeadLines(data, chunk)];
    WindowReadsLines(parse, data, chunk);
    if SeesHeader(parse, head) && TailFrom(data, chunk) <= HeadLines(data, chunk) {
      CoveringListingIsExact(parse, data, chunk);
    }
    NoRecordsNoFields(Records(parse, Split(data)));
  }

  /** The lines that the two windows read show a header and some field. */
  predicate HeadShows(parse: Reader, data: Bytes, chunk: nat) {
    var head, tail := Split(data)[..HeadLines(data, chunk)], Split(data)[TailFrom(data, chunk)..];
    SeesHeader(parse, head) && LineFields(parse, head) + LineFields(parse, tail) != map[]
  }

  /** Listing a file fails exactly when a window is too deep, or the full read fails and the head does not show
      a complete header. */
  lemma ListingFailsExactlyWhen(parse: Reader, data: Bytes, chunk: nat, id: string)
    requires PrefixesDoNotParse(parse, Split(data))
    ensures TailOrFullFields(parse, data, chunk, id).Raised?
      <==> Overflows(parse, data, chunk) || (ReadLog(parse, data).Raised? && !HeadShows(parse, data, chunk))
  {
    WindowReadsLines(parse, data, chunk);
  }

  /** In particular, a header longer than the head does not show, so such a file fails to list whenever it
      cannot be read as a whole. */
  lemma LongHeaderFailsToList(parse: Reader, data: Bytes, chunk: nat, id: string)
    requires PrefixesDoNotParse(parse, Split(data))
    requires |Split(data)[0]| > chunk && ReadLog(parse, data).Raised?
    ensures TailOrFullFields(parse, data, chunk, id) == Raised
  {
    SplitLength(data);
    var pieces := Split(data);
    if |pieces| > 1 { OffsetGrows(pieces, 0, |pieces| - 1); }
    CutOffset(data, chunk);
    var (h, o) := Cut(data, chunk);
    if h > 0 { OffsetGrows(pieces, 0, h); }
    assert pieces[..HeadLines(data, chunk)] == [];
    ListingFailsExactlyWhen(parse, data, chunk, id);
  }

  /** The rows of a listing: the non-empty fields of the files, in order. */
  function Rows(listed: seq<Reading<Fields>>): seq<Fields> {
    if listed == [] then []
    else
      var before := Rows(listed[..|listed| - 1]);
      match listed[|listed| - 1]
      case Got(fields) => if fields != map[] then before + [fields] else before
      case Raised => before
  }

  function AsReadings(rows: seq<Fields>): seq<Reading<Fields>> {
    seq(|rows|, i requires 0 <= i < |rows| => Got(rows[i]))
  }

  /** The rows are the fields of the files that have some, in the order of the files. */
  lemma {:induction false} RowsArePicked(listed: seq<Reading<Fields>>) returns (at: seq<nat>)
    ensures Picks(listed, AsReadings(Rows(listed)), at)
    ensures forall k: nat :: k < |listed| ==> (k in at <==> listed[k].Got? && listed[k].value != map[])
  {
    if listed == [] {
      at := [];
    } else {
      var init, last := listed[..|listed| - 1], listed[|listed| - 1];
      at := RowsArePicked(init);
      assert listed == init + [last];
      if last.Got? && last.value != map[] {
        assert AsReadings(Rows(init) + [last.value]) == AsReadings(Rows(init)) + [last];
        PicksTake(init, AsReadings(Rows(init)), at, last);
        at := at + [|init|];
      } else {
        PicksSkip(init, AsReadings(Rows(init)), at, last);
      }
    }
  }

  /** The list of all sessions, from what listing each file gives: one file that fails to list hides every
      session, and otherwise the files with fields appear in order. */
  method CollectFieldRows(listed: seq<Reading<Fields>>) returns (rows: Reading<seq<Fields>>)
    ensures rows == if Raised in listed then Raised else Got(Rows(listed))
  {
    var out: seq<Fields> := [];
    for i := 0 to |listed|
      invariant out == Rows(listed[..i])
      invariant forall j :: 0 <= j < i ==> listed[j].Got?
    {
      assert listed[..i + 1][..i] == listed[..i];
      match listed[i] {
        case Raised => return Raised;
        case Got(fields) => if fields != map[] { out := out + [fields]; }
      }
    }
    assert listed[..|listed|] == listed;
    return Got(out);
  }

  lemma NoRecordsNoFields(records: seq<Record>)
    ensures records == [] ==> FieldsOf(records) == map[]
  {
  }

  ghost predicate SameAt(f: Fields, g: Fields, k: Key) {
    (k in f <==> k in g) && (k in f ==> f[k] == g[k])
  }

  lemma GapMatters(h: Fields, g: Fields, t: Fields, k: Key)
    ensures SameAt(h + t, (h + g) + t, k) <==> k in t || k !in g || (k in h && h[k] == g[k])
  {
  }
}
