/**
  * What a CSV file means to the loader, cell by cell, line by line and for whole
  * files in chunks of any size; in particular that cprint's output is read back.
  */
module CsvFiles {
  import opened CsvText
  import opened CsvTrim
  import opened CsvCell
  import opened CsvLoad

  // ---- cells without quotes

  /** raw spells t in a cell without quotes that ends with stop: a backslash makes the next character an ordinary one. */
  predicate Spells(raw: string, t: string, stop: char)
    decreases |raw|
  {
    if raw == [] || t == [] then raw == [] && t == []
    else if raw[0] == BSLASH then stop != BSLASH && |raw| > 1 && raw[1] == t[0] && Spells(raw[2..], t[1..], stop)
    else raw[0] != stop && raw[0] != EOLN && raw[0] == t[0] && Spells(raw[1..], t[1..], stop)
  }

  /** A text with neither the stop, nor a backslash, nor a newline in it spells itself. */
  lemma {:induction false} PlainSpells(t: string, stop: char)
    requires stop !in t && BSLASH !in t && EOLN !in t
    ensures Spells(t, t, stop)
  {
    if t != [] {
      PlainSpells(t[1..], stop);
    }
  }

  lemma {:induction false} UnquotedScans(pre: string, raw: string, t: string, tail: string, stop: char, bufsz: nat, got: string)
    requires Spells(raw, t, stop) && |got| <= bufsz
    ensures var X := pre + raw + tail;
      Scan(X, |pre|, false, stop, bufsz, got)
      == if |got| + |t| <= bufsz then Scan(X, |pre| + |raw|, false, stop, bufsz, got + t)
         else Cell(0, got + t[..bufsz - |got|], false)
    decreases |raw|
  {
    var X := pre + raw + tail;
    if raw == [] {
      assert got + t == got;
    } else {
      var n := if raw[0] == BSLASH then 2 else 1;
      assert X[|pre|] == raw[0] && (n == 2 ==> X[|pre| + 1] == raw[1]);
      if |got| < bufsz {
        assert X == (pre + raw[..n]) + raw[n..] + tail;
        UnquotedScans(pre + raw[..n], raw[n..], t[1..], tail, stop, bufsz, got + [t[0]]);
        assert got + [t[0]] + t[1..] == got + t;
        if |got| + |t| > bufsz {
          assert got + [t[0]] + t[1..][..bufsz - |got| - 1] == got + t[..bufsz - |got|];
        }
      } else {
        assert got + t[..0] == got;
      }
    }
  }

  /**
    * A cell without quotes.  It is read back, and the reader stands behind its
    * separator or at the end of the file, if and only if it fits the buffer.  The
    * error flag is raised exactly when a newline comes before the separator, and the
    * buffer is not full by then.
    */
  lemma UnquotedReadsBack(pre: string, raw: string, t: string, tail: string, isLast: bool, sep: char, bufsz: nat)
    requires bufsz > 0 && Spells(raw, t, Separator(isLast, sep))
    requires raw + tail != [] && (raw + tail)[0] != DQUOTE && (raw + tail)[0] != BSLASH
    requires tail == [] || tail[0] == Separator(isLast, sep) || tail[0] == EOLN
    ensures CellAt(pre + raw + tail, |pre|, sep, isLast, bufsz)
         == if |t| > bufsz then Cell(0, t[..bufsz], false)
            else if tail == [] then Cell(|pre| + |raw|, t, false)
            else if tail[0] == Separator(isLast, sep) then Cell(|pre| + |raw| + 1, t, false)
            else Cell(0, t, |t| < bufsz)
  {
    var X := pre + raw + tail;
    assert X[|pre|] == (raw + tail)[0];
    UnquotedScans(pre, raw, t, tail, Separator(isLast, sep), bufsz, []);
    assert [] + t == t && [] + t[..if |t| > bufsz then bufsz else 0] == t[..if |t| > bufsz then bufsz else 0];
    if tail != [] {
      assert X[|pre| + |raw|] == tail[0];
    }
  }

  // ---- cells as they may be written

  /** A cell of a file: its characters, and the text that they stand for. */
  datatype Written = Written(raw: string, text: string)

  predicate Unquoted(w: Written, stop: char) {
    Spells(w.raw, w.text, stop) && (w.raw + [stop])[0] != DQUOTE && (w.raw + [stop])[0] != BSLASH
  }

  /** A missing value: a backslash and any one character. */
  predicate MissingMark(w: Written) { |w.raw| == 2 && w.raw[0] == BSLASH && w.text == [] }

  predicate Stands(w: Written, stop: char) {
    w.raw == Quoted(w.text) || MissingMark(w) || Unquoted(w, stop)
  }

  /** What is left of the text, if it fits the buffer. */
  function Taken(w: Written, bufsz: nat, trim: bool): (r: Option<string>)
    ensures r.Some? ==> |r.value| <= bufsz
  {
    if w.raw != [] && w.raw[0] == BSLASH then Some([])
    else if |w.text| > bufsz then None
    else if trim then Trimmed(w.text + Zeros(bufsz - |w.text|))
    else Some(w.text)
  }

  /** The reader takes the text of the cell and goes on behind it, or finds that it does not fit. */
  lemma CellReads(pre: string, w: Written, tail: string, isLast: bool, sep: char, bufsz: nat, trim: bool)
    requires bufsz > 0 && Stands(w, Separator(isLast, sep))
    requires if tail == [] then Unquoted(w, Separator(isLast, sep)) && w.raw != [] else tail[0] == Separator(isLast, sep)
    ensures var c := CellFor(pre + w.raw + tail, |pre|, sep, isLast, bufsz, trim);
      match Taken(w, bufsz, trim)
      case None => c.next == 0 && !c.err
      case Some(v) => c == Cell(|pre| + |w.raw| + (if tail == [] then 0 else 1), v, false)
  {
    hide CellAt, Trimmed, Scan, Spells, Escaped;
    var X := pre + w.raw + tail;
    if w.raw + tail != [] {
      assert X[|pre|] == (w.raw + tail)[0];
    }
    if w.raw == Quoted(w.text) {
      assert X == pre + Quoted(w.text) + [Separator(isLast, sep)] + tail[1..];
      QuotedReadsBack(pre, w.text, isLast, sep, tail[1..], bufsz);
    } else if MissingMark(w) {
      MarkReads(X, |pre|, isLast, sep, bufsz);
    } else {
      UnquotedReadsBack(pre, w.raw, w.text, tail, isLast, sep, bufsz);
    }
  }

  lemma MarkReads(X: string, xidx: nat, isLast: bool, sep: char, bufsz: nat)
    requires bufsz > 0 && xidx < |X| && X[xidx] == BSLASH
    ensures CellAt(X, xidx, sep, isLast, bufsz) == Cell(xidx + 3, [], false)
  {}

  // ---- lines and files

  type Line = seq<Written>

  function StopOf(q: Request, j: nat): char { Separator(j + 1 == q.nC, q.sep) }

  /** What is stored of a cell in column j, unless the load fails there. */
  function SlotOf(q: Request, j: nat, w: Written): Option<Option<Slot>>
    requires q.Valid() && j < q.nC
  {
    match Taken(w, q.maxWidth - 1, q.isTrim[j])
    case None => None
    case Some(v) =>
      var buf := v + Zeros(q.maxWidth - |v|);
      if !q.isLoad[j] then Some(None)
      else if buf[0] == NUL && !q.hasNulls[j] then None
      else match q.convert(j, buf)
        case None => None
        case Some(bytes) => Some(Some(Slot(bytes, buf[0] != NUL)))
  }

  /** A cell that fits is stored, or the load fails: for a missing value in a column without any, or in the conversion. */
  lemma CellSlot(pre: string, q: Request, w: Written, tail: string, j: nat)
    requires q.Valid() && q.maxWidth > 1 && j < q.nC && Stands(w, StopOf(q, j))
    requires if tail == [] then Unquoted(w, StopOf(q, j)) && w.raw != [] else tail[0] == StopOf(q, j)
    requires Taken(w, q.maxWidth - 1, q.isTrim[j]).Some?
    ensures ReadSlot(pre + w.raw + tail, q, |pre|, j)
         == match SlotOf(q, j, w)
            case None => Bad
            case Some(s) => Next(|pre| + |w.raw| + (if tail == [] then 0 else 1), s)
  {
    hide CellFor, Stands, Taken, Spells;
    CellReads(pre, w, tail, j + 1 == q.nC, q.sep, q.maxWidth - 1, q.isTrim[j]);
  }

  ghost predicate LineOk(q: Request, line: Line)
    requires q.Valid()
  {
    |line| == q.nC && forall j :: 0 <= j < q.nC ==> Stands(line[j], StopOf(q, j)) && SlotOf(q, j, line[j]).Some?
  }

  ghost predicate LinesOk(q: Request, lines: seq<Line>)
    requires q.Valid()
  {
    forall i :: 0 <= i < |lines| ==> LineOk(q, lines[i])
  }

  lemma LineIs(q: Request, lines: seq<Line>, i: nat)
    requires q.Valid() && LinesOk(q, lines) && i < |lines|
    ensures LineOk(q, lines[i])
  {}

  /** A last line without its newline ends in a cell without quotes that is not empty. */
  ghost predicate MayEnd(q: Request, lines: seq<Line>, open: bool)
    requires q.Valid() && LinesOk(q, lines)
  {
    open ==> lines != [] && var w := lines[|lines| - 1][q.nC - 1]; Unquoted(w, EOLN) && w.raw != []
  }

  /** The characters of the lines from cell j of line i on; if open, without the last newline. */
  ghost function TextFrom(q: Request, lines: seq<Line>, i: nat, j: nat, open: bool): string
    requires q.Valid() && LinesOk(q, lines) && i < |lines| && j < q.nC
    decreases |lines| - i, q.nC - j
  {
    assert LineOk(q, lines[i]);
    lines[i][j].raw +
    if j + 1 < q.nC then [q.sep] + TextFrom(q, lines, i, j + 1, open)
    else if i + 1 < |lines| then [EOLN] + TextFrom(q, lines, i + 1, 0, open)
    else if open then [] else [EOLN]
  }

  ghost function TextLeft(q: Request, lines: seq<Line>, i: nat, open: bool): string
    requires q.Valid() && LinesOk(q, lines) && i <= |lines|
  {
    if i == |lines| then [] else TextFrom(q, lines, i, 0, open)
  }

  /** The row that a line is loaded as, from column j on. */
  function LineRow(q: Request, line: Line, j: nat): (r: Row)
    requires q.Valid() && |line| == q.nC && j <= q.nC && forall c :: 0 <= c < q.nC ==> SlotOf(q, c, line[c]).Some?
    ensures |r| == q.nC - j && forall l :: 0 <= l < |r| ==> r[l] == SlotOf(q, j + l, line[j + l]).value
  {
    seq(q.nC - j, l requires 0 <= l < q.nC - j => SlotOf(q, j + l, line[j + l]).value)
  }

  ghost function LineRows(q: Request, lines: seq<Line>, lo: nat, hi: nat): (r: seq<Row>)
    requires q.Valid() && LinesOk(q, lines) && lo <= hi <= |lines|
    ensures |r| == hi - lo && forall i :: lo <= i < hi ==> LineOk(q, lines[i]) && r[i - lo] == LineRow(q, lines[i], 0)
  {
    assert forall i :: lo <= i < hi ==> LineOk(q, lines[i]);
    seq(hi - lo, l requires 0 <= l < hi - lo => LineRow(q, lines[lo + l], 0))
  }

  /** What follows cell j of line i, behind its separator. */
  ghost function Rest(q: Request, lines: seq<Line>, i: nat, j: nat, open: bool): string
    requires q.Valid() && LinesOk(q, lines) && i < |lines| && j < q.nC
  {
    if j + 1 < q.nC then TextFrom(q, lines, i, j + 1, open) else TextLeft(q, lines, i + 1, open)
  }

  /** Cell j of line i with its separator, if it has one. */
  ghost function CellText(q: Request, lines: seq<Line>, i: nat, j: nat, open: bool): string
    requires q.Valid() && LinesOk(q, lines) && i < |lines| && j < q.nC
  {
    assert LineOk(q, lines[i]);
    lines[i][j].raw + if open && i + 1 == |lines| && j + 1 == q.nC then [] else [StopOf(q, j)]
  }

  lemma TextSplit(q: Request, lines: seq<Line>, i: nat, j: nat, open: bool)
    requires q.Valid() && LinesOk(q, lines) && i < |lines| && j < q.nC
    ensures TextFrom(q, lines, i, j, open) == CellText(q, lines, i, j, open) + Rest(q, lines, i, j, open)
  {
    hide LinesOk;
  }

  lemma TextNonEmpty(q: Request, lines: seq<Line>, i: nat, j: nat, open: bool)
    requires q.Valid() && LinesOk(q, lines) && MayEnd(q, lines, open) && i < |lines| && j < q.nC
    ensures |CellText(q, lines, i, j, open)| > 0
  {
    hide Spells, SlotOf;
  }

  /** One cell, with the rest of the file behind it. */
  lemma CellLoads(pre: string, q: Request, lines: seq<Line>, i: nat, j: nat, open: bool)
    requires q.Valid() && q.maxWidth > 1 && LinesOk(q, lines) && MayEnd(q, lines, open) && i < |lines| && j < q.nC
    ensures LineOk(q, lines[i])
    ensures var X, cell := pre + TextFrom(q, lines, i, j, open), CellText(q, lines, i, j, open);
      && X == (pre + cell) + Rest(q, lines, i, j, open)
      && ReadSlot(X, q, |pre|, j) == Next(|pre + cell|, SlotOf(q, j, lines[i][j]).value)
  {
    hide ReadSlot, Stands, Taken, Spells, TextFrom, TextLeft;
    assert LineOk(q, lines[i]);
    var X, w := pre + TextFrom(q, lines, i, j, open), lines[i][j];
    TextSplit(q, lines, i, j, open);
    var sep := if open && i + 1 == |lines| && j + 1 == q.nC then [] else [StopOf(q, j)];
    var tail := sep + Rest(q, lines, i, j, open);
    assert X == pre + w.raw + tail;
    assert sep == [] ==> tail == [] by {
      NothingLeft(q, lines, open);
    }
    assert Stands(w, StopOf(q, j)) && SlotOf(q, j, w).Some?;
    CellSlot(pre, q, w, tail, j);
  }

  lemma NothingLeft(q: Request, lines: seq<Line>, open: bool)
    requires q.Valid() && LinesOk(q, lines)
    ensures TextLeft(q, lines, |lines|, open) == []
  {}

  function Least(a: nat, b: nat): nat {
    if a < b then a else b
  }

  /** Reading at most k rows, from cell j of line i on. */
  ghost predicate RowsCome(X: string, at: nat, q: Request, lines: seq<Line>, i: nat, j: nat, open: bool, k: nat)
    requires q.Valid() && LinesOk(q, lines) && i < |lines| && j < q.nC && k > 0
  {
    assert LineOk(q, lines[i]);
    var end := Least(i + k, |lines|);
    && |TextLeft(q, lines, end, open)| <= |X|
    && Rows(X, q, at, j, k)
       == Loaded([LineRow(q, lines[i], j)] + LineRows(q, lines, i + 1, end), |X| - |TextLeft(q, lines, end, open)|)
  }

  /** The definition of Rows, inside the file. */
  lemma RowsStep(X: string, q: Request, xidx: nat, col: nat, k: nat)
    requires q.Valid() && col < q.nC && k > 0 && ReadSlot(X, q, xidx, col).Next? && ReadSlot(X, q, xidx, col).xidx <= |X|
    ensures var (x, s) := (ReadSlot(X, q, xidx, col).xidx, ReadSlot(X, q, xidx, col).slot);
      Rows(X, q, xidx, col, k) ==
      if col + 1 < q.nC then if x == |X| then Loaded([], x) else InRow(s, Rows(X, q, x, col + 1, k))
      else if k == 1 || x == |X| then Loaded([[s]], x)
      else Then([[s]], Rows(X, q, x, 0, k - 1))
  {
    hide ReadSlot;
  }

  /** A line that goes on. */
  lemma SameLine(X: string, at: nat, at': nat, q: Request, lines: seq<Line>, i: nat, j: nat, open: bool, k: nat)
    requires q.Valid() && LinesOk(q, lines) && i < |lines| && j + 1 < q.nC && k > 0 && LineOk(q, lines[i])
    requires ReadSlot(X, q, at, j) == Next(at', SlotOf(q, j, lines[i][j]).value) && at' < |X|
    requires RowsCome(X, at', q, lines, i, j + 1, open, k)
    ensures RowsCome(X, at, q, lines, i, j, open, k)
  {
    hide ReadSlot, SlotOf, TextFrom, TextLeft, Rows, LinesOk, Stands;
    RowsStep(X, q, at, j, k);
    var s := SlotOf(q, j, lines[i][j]).value;
    var end := Least(i + k, |lines|);
    var rows := [LineRow(q, lines[i], j + 1)] + LineRows(q, lines, i + 1, end);
    assert rows[1..] == LineRows(q, lines, i + 1, end);
    assert [s] + LineRow(q, lines[i], j + 1) == LineRow(q, lines[i], j);
  }

  /** The last cell of a line. */
  lemma NextLine(X: string, at: nat, at': nat, q: Request, lines: seq<Line>, i: nat, open: bool, k: nat)
    requires q.Valid() && LinesOk(q, lines) && i < |lines| && k > 0 && LineOk(q, lines[i])
    requires ReadSlot(X, q, at, q.nC - 1) == Next(at', SlotOf(q, q.nC - 1, lines[i][q.nC - 1]).value)
    requires at' <= |X| && |X| - at' == |TextLeft(q, lines, i + 1, open)| && (at' == |X| <==> i + 1 == |lines|)
    requires k > 1 && i + 1 < |lines| ==> RowsCome(X, at', q, lines, i + 1, 0, open, k - 1)
    ensures RowsCome(X, at, q, lines, i, q.nC - 1, open, k)
  {
    hide ReadSlot, SlotOf, TextFrom, TextLeft, Rows, LinesOk, Stands;
    var j := q.nC - 1;
    RowsStep(X, q, at, j, k);
    var end := Least(i + k, |lines|);
    var s := SlotOf(q, j, lines[i][j]).value;
    assert [s] == LineRow(q, lines[i], j);
    if k > 1 && i + 1 < |lines| {
      LineIs(q, lines, i + 1);
      assert [LineRow(q, lines[i + 1], 0)] + LineRows(q, lines, i + 2, end) == LineRows(q, lines, i + 1, end);
    } else {
      assert end == i + 1;
      assert [LineRow(q, lines[i], j)] + LineRows(q, lines, i + 1, end) == [[s]];
    }
  }

  /** The lines come back as rows, from the middle of a line on. */
  lemma {:induction false} RowsRead(pre: string, q: Request, lines: seq<Line>, i: nat, j: nat, open: bool, k: nat)
    requires q.Valid() && q.maxWidth > 1 && LinesOk(q, lines) && MayEnd(q, lines, open) && i < |lines| && j < q.nC && k > 0
    ensures RowsCome(pre + TextFrom(q, lines, i, j, open), |pre|, q, lines, i, j, open, k)
    decreases |lines| - i, q.nC - j
  {
    hide ReadSlot, SlotOf, Stands, RowsCome, CellText, LinesOk, MayEnd;
    var X := pre + TextFrom(q, lines, i, j, open);
    var pre' := pre + CellText(q, lines, i, j, open);
    CellLoads(pre, q, lines, i, j, open);
    assert X == pre' + Rest(q, lines, i, j, open);
    if j + 1 < q.nC {
      RowsRead(pre', q, lines, i, j + 1, open, k);
      TextSplit(q, lines, i, j + 1, open);
      TextNonEmpty(q, lines, i, j + 1, open);
      SameLine(X, |pre|, |pre'|, q, lines, i, j, open, k);
    } else {
      if i + 1 < |lines| {
        TextSplit(q, lines, i + 1, 0, open);
        TextNonEmpty(q, lines, i + 1, 0, open);
        if k > 1 {
          RowsRead(pre', q, lines, i + 1, 0, open, k - 1);
        }
      }
      NextLine(X, |pre|, |pre'|, q, lines, i, open, k);
    }
  }

  /** Later lines are at the end of the text. */
  lemma {:induction false} LaterLines(q: Request, lines: seq<Line>, i: nat, j: nat, end: nat, open: bool)
    requires q.Valid() && LinesOk(q, lines) && MayEnd(q, lines, open) && i < end <= |lines| && j < q.nC
    ensures var (t, left) := (TextFrom(q, lines, i, j, open), TextLeft(q, lines, end, open));
      |left| < |t| && t[|t| - |left|..] == left
    decreases |lines| - i, q.nC - j
  {
    hide SlotOf, Stands, CellText, LinesOk, MayEnd;
    TextSplit(q, lines, i, j, open);
    TextNonEmpty(q, lines, i, j, open);
    if j + 1 < q.nC {
      LaterLines(q, lines, i, j + 1, end, open);
    } else if i + 1 < end {
      LaterLines(q, lines, i + 1, 0, end, open);
    }
  }

  /** Chunk after chunk, whatever their size, all the lines are read. */
  lemma {:induction false} ChunksRead(pre: string, q: Request, lines: seq<Line>, i: nat, open: bool, k: nat)
    requires q.Valid() && q.maxWidth > 1 && LinesOk(q, lines) && MayEnd(q, lines, open) && i < |lines| && k > 0
    requires q.header ==> pre != []
    ensures var X := pre + TextFrom(q, lines, i, 0, open);
      ReadAll(X, q, |pre|, k) == Loaded(LineRows(q, lines, i, |lines|), |X|)
    decreases |lines| - i
  {
    hide Rows, TextFrom, SlotOf, Stands, LinesOk, MayEnd;
    LineIs(q, lines, i);
    var X, end := pre + TextFrom(q, lines, i, 0, open), Least(i + k, |lines|);
    RowsRead(pre, q, lines, i, 0, open, k);
    LaterLines(q, lines, i, 0, end, open);
    assert [LineRow(q, lines[i], 0)] + LineRows(q, lines, i + 1, end) == LineRows(q, lines, i, end);
    var at := |X| - |TextLeft(q, lines, end, open)|;
    assert Call(X, q, |pre|, k) == Loaded(LineRows(q, lines, i, end), at);
    if end < |lines| {
      assert X == X[..at] + TextFrom(q, lines, end, 0, open);
      ChunksRead(X[..at], q, lines, end, open, k);
      assert LineRows(q, lines, i, end) + LineRows(q, lines, end, |lines|) == LineRows(q, lines, i, |lines|);
    }
  }

  // ---- a header, and the whole file

  /** The cells of the first line need only fit. */
  ghost predicate HeadOk(q: Request, head: Line)
    requires q.Valid()
  {
    |head| == q.nC && forall j :: 0 <= j < q.nC ==> Stands(head[j], StopOf(q, j)) && Taken(head[j], q.maxWidth - 1, q.isTrim[j]).Some?
  }

  function HeadText(q: Request, head: Line, j: nat): (r: string)
    requires q.Valid() && |head| == q.nC && j < q.nC
    ensures |r| > 0
    decreases q.nC - j
  {
    head[j].raw + [StopOf(q, j)] + if j + 1 < q.nC then HeadText(q, head, j + 1) else []
  }

  lemma {:induction false} HeaderReads(pre: string, q: Request, head: Line, j: nat, rest: string)
    requires q.Valid() && q.maxWidth > 1 && HeadOk(q, head) && j < q.nC
    ensures var X, at := pre + HeadText(q, head, j) + rest, |pre + HeadText(q, head, j)|;
      ReadHeader(X, q, |pre|, j) == if rest == [] then HeaderOnly(at) else HeaderRead(at)
    decreases q.nC - j
  {
    hide CellFor, Stands, Taken;
    var X, w := pre + HeadText(q, head, j) + rest, head[j];
    var later := if j + 1 < q.nC then HeadText(q, head, j + 1) else [];
    var tail := [StopOf(q, j)] + (later + rest);
    assert X == pre + w.raw + tail;
    CellReads(pre, w, tail, j + 1 == q.nC, q.sep, q.maxWidth - 1, q.isTrim[j]);
    if j + 1 < q.nC {
      var pre' := pre + w.raw + [StopOf(q, j)];
      assert X == pre' + HeadText(q, head, j + 1) + rest;
      assert pre' + HeadText(q, head, j + 1) == pre + HeadText(q, head, j);
      HeaderReads(pre', q, head, j + 1, rest);
    }
  }

  ghost function FileText(q: Request, head: Line, lines: seq<Line>, open: bool): string
    requires q.Valid() && HeadOk(q, head) && LinesOk(q, lines)
  {
    (if q.header then HeadText(q, head, 0) else []) + TextLeft(q, lines, 0, open)
  }

  /**
    * Any file of well-formed lines, quoted or not, with or without a header and a
    * newline at its end, is read in chunks of any size as exactly the rows that its
    * cells stand for.
    */
  lemma FileRead(q: Request, head: Line, lines: seq<Line>, open: bool, k: nat)
    requires q.Valid() && q.maxWidth > 1 && HeadOk(q, head) && LinesOk(q, lines) && MayEnd(q, lines, open)
    requires k > 0 && (q.header || lines != [])
    ensures var X := FileText(q, head, lines, open);
      ReadAll(X, q, 0, k) == Loaded(LineRows(q, lines, 0, |lines|), |X|)
  {
    hide Rows, TextFrom, SlotOf, Stands, LinesOk, MayEnd, HeadText, LineRow, LineRows, ReadHeader;
    var X := FileText(q, head, lines, open);
    if q.header {
      var pre := HeadText(q, head, 0);
      var rest := TextLeft(q, lines, 0, open);
      assert [] + pre == pre && X == pre + rest;
      HeaderReads([], q, head, 0, rest);
      if lines == [] {
        NoLines(q, lines);
      } else {
        TextSplit(q, lines, 0, 0, open);
        TextNonEmpty(q, lines, 0, 0, open);
        ChunksRead(pre, q, lines, 0, open, k);
        BehindHeader(X, q, |pre|, k);
      }
    } else {
      assert X == [] + TextFrom(q, lines, 0, 0, open);
      ChunksRead([], q, lines, 0, open, k);
    }
  }

  lemma NoLines(q: Request, lines: seq<Line>)
    requires q.Valid() && LinesOk(q, lines) && lines == []
    ensures LineRows(q, lines, 0, 0) == []
  {}

  /** The first call goes on behind the header. */
  lemma BehindHeader(X: string, q: Request, at: nat, k: nat)
    requires q.Valid() && q.header && k > 0 && 0 < at < |X| && ReadHeader(X, q, 0, 0) == HeaderRead(at)
    requires ReadAll(X, q, at, k).Loaded?
    ensures ReadAll(X, q, 0, k) == ReadAll(X, q, at, k)
  {
    hide Rows, ReadHeader;
    assert Call(X, q, 0, k) == Call(X, q, at, k);
  }

  /** A line with too few cells: where a newline comes before the separator, the load fails. */
  lemma ShortLineFails(pre: string, q: Request, w: Written, post: string, j: nat, k: nat)
    requires q.Valid() && j + 1 < q.nC && k > 0 && q.sep != EOLN && |w.text| + 1 < q.maxWidth
    requires Unquoted(w, q.sep)
    ensures Rows(pre + w.raw + [EOLN] + post, q, |pre|, j, k) == Failed
  {
    hide CellAt, Trimmed, Spells;
    var tail := [EOLN] + post;
    assert w.raw != [] ==> (w.raw + tail)[0] == (w.raw + [q.sep])[0];
    assert pre + w.raw + [EOLN] + post == pre + w.raw + tail;
    UnquotedReadsBack(pre, w.raw, w.text, tail, false, q.sep, q.maxWidth - 1);
  }
}

/** What cprint writes, load_csv_seq reads. */
module CsvRoundTrip {
  import opened CsvText
  import opened CsvTrim
  import opened CsvCell
  import opened CsvPrint
  import opened CsvLoad
  import F = CsvFiles

  /** A load of the printed columns: commas, no header, every column loaded as a string of
      the printed width. */
  ghost predicate Matches(q: Request, cols: seq<Column>) {
    && q.Valid() && q.maxWidth > 1 && q.nC == |cols| && q.sep == ',' && !q.header
    && forall j :: 0 <= j < q.nC ==>
         && q.isLoad[j] && cols[j].width <= q.maxWidth
         && forall buf :: |buf| == q.maxWidth ==> q.convert(j, buf) == Some(buf[..cols[j].width])
  }

  /** A value that can be read back: it fits the buffer, with one byte to spare and no
      space at its ends where cells are trimmed, and is not empty in a column that is
      said to have none missing. */
  predicate Readable(q: Request, c: Column, i: nat, j: nat)
    requires q.Valid() && j < q.nC && i < |c.fields| && (c.nn.Some? ==> i < |c.nn.value|)
  {
    var t := Shown(c, i);
    && (q.hasNulls[j] || t != [])
    && if q.isTrim[j] then |t| + 1 < q.maxWidth && q.maxWidth > 2 && Bare(t) else |t| < q.maxWidth
  }

  ghost predicate AllReadable(q: Request, cols: seq<Column>, n: nat, lb: nat, ub: nat)
    requires Matches(q, cols) && Sized(cols, n) && ub <= n
  {
    forall i, j :: lb <= i < ub && 0 <= j < |cols| ==> Readable(q, cols[j], i, j)
  }

  /** What comes back of a value: its characters, then zeros; an empty string comes back
      as a missing value. */
  function Returned(c: Column, i: nat): Slot
    requires i < |c.fields| && |c.fields[i]| == c.width && (c.nn.Some? ==> i < |c.nn.value|)
  {
    Slot(Shown(c, i) + Zeros(c.width - |Shown(c, i)|), Shown(c, i) != [])
  }

  function ReturnedRow(cols: seq<Column>, n: nat, i: nat, j: nat): (r: Row)
    requires Sized(cols, n) && i < n && j <= |cols|
    ensures |r| == |cols| - j && forall l :: 0 <= l < |r| ==> r[l] == Some(Returned(cols[j + l], i))
  {
    seq(|cols| - j, l requires 0 <= l < |cols| - j => Some(Returned(cols[j + l], i)))
  }

  function ReturnedRows(cols: seq<Column>, n: nat, lb: nat, ub: nat): (r: seq<Row>)
    requires Sized(cols, n) && lb <= ub <= n
    ensures |r| == ub - lb && forall i :: lb <= i < ub ==> r[i - lb] == ReturnedRow(cols, n, i, 0)
  {
    seq(ub - lb, l requires 0 <= l < ub - lb => ReturnedRow(cols, n, lb + l, 0))
  }

  /** A value comes back with its text, and with all its bytes if and only if there were
      only zeros after the text. */
  lemma ValueReturns(c: Column, i: nat)
    requires i < |c.fields| && |c.fields[i]| == c.width && (c.nn.Some? ==> i < |c.nn.value|) && !Missing(c, i)
    ensures Text(Returned(c, i).bytes) == Text(c.fields[i])
    ensures var f := c.fields[i]; Returned(c, i).bytes == f <==> forall k :: |Text(f)| <= k < |f| ==> f[k] == NUL
    ensures Returned(c, i).nn <==> Text(c.fields[i]) != []
  {
    var f := c.fields[i];
    var t := Text(f);
    TextPadded(t, |f| - |t|);
    if forall k :: |t| <= k < |f| ==> f[k] == NUL {
      assert f == t + Zeros(|f| - |t|);
    }
    if Returned(c, i).bytes == f {
      forall k | |t| <= k < |f| ensures f[k] == NUL {
        assert (t + Zeros(|f| - |t|))[k] == NUL;
      }
    }
  }

  /** One cell. */
  lemma CellReturns(pre: string, cols: seq<Column>, i: nat, j: nat, post: string, q: Request)
    requires Matches(q, cols) && j < |cols|
    requires var c := cols[j]; i < |c.fields| && |c.fields[i]| == c.width && (c.nn.Some? ==> i < |c.nn.value|)
    requires Readable(q, cols[j], i, j)
    ensures var t := Shown(cols[j], i);
      ReadSlot(pre + Quoted(t) + [Separator(j + 1 == |cols|, ',')] + post, q, |pre|, j)
      == Next(|pre| + |Quoted(t)| + 1, Some(Returned(cols[j], i)))
  {
    hide CellFor, Quoted, Text;
    var c := cols[j];
    var t := Shown(c, i);
    var X := pre + Quoted(t) + [Separator(j + 1 == |cols|, ',')] + post;
    QuotedReadsBackFor(pre, t, j + 1 == |cols|, ',', post, q.maxWidth - 1, q.isTrim[j]);
    var buf := Buffer(X, q, |pre|, j);
    assert buf == t + Zeros(q.maxWidth - |t|);
    assert buf[..c.width] == t + Zeros(c.width - |t|);
  }

  /** A value comes back, and the reader is behind it, exactly if it is readable. */
  lemma CellReturnsExactly(pre: string, cols: seq<Column>, i: nat, j: nat, post: string, q: Request)
    requires Matches(q, cols) && j < |cols|
    requires var c := cols[j]; i < |c.fields| && |c.fields[i]| == c.width && (c.nn.Some? ==> i < |c.nn.value|)
    ensures var t := Shown(cols[j], i);
      ReadSlot(pre + Quoted(t) + [Separator(j + 1 == |cols|, ',')] + post, q, |pre|, j)
      == Next(|pre| + |Quoted(t)| + 1, Some(Returned(cols[j], i)))
      <==> Readable(q, cols[j], i, j)
  {
    hide CellFor, Quoted, Text, Bare;
    var c := cols[j];
    var t := Shown(c, i);
    var X := pre + Quoted(t) + [Separator(j + 1 == |cols|, ',')] + post;
    var cell := CellOf(X, q, |pre|, j);
    if Readable(q, c, i, j) {
      CellReturns(pre, cols, i, j, post, q);
    } else {
      QuotedReadsBackFor(pre, t, j + 1 == |cols|, ',', post, q.maxWidth - 1, q.isTrim[j]);
      QuotedReadsPart(pre, t, j + 1 == |cols|, ',', post, q.maxWidth - 1, q.isTrim[j]);
      if cell.text != t {
        var buf := Buffer(X, q, |pre|, j);
        assert buf[..c.width][|cell.text|] == NUL;
        assert Returned(c, i).bytes[|cell.text|] == t[|cell.text|];
      }
    }
  }

  /** The printed rows as lines of a file. */
  function LineOf(cols: seq<Column>, n: nat, i: nat): (r: F.Line)
    requires Sized(cols, n) && i < n
    ensures |r| == |cols| && forall j :: 0 <= j < |r| ==> r[j] == F.Written(Quoted(Shown(cols[j], i)), Shown(cols[j], i))
  {
    seq(|cols|, j requires 0 <= j < |cols| => F.Written(Quoted(Shown(cols[j], i)), Shown(cols[j], i)))
  }

  function LinesOf(cols: seq<Column>, n: nat, lb: nat, ub: nat): (r: seq<F.Line>)
    requires Sized(cols, n) && lb <= ub <= n
    ensures |r| == ub - lb && forall i :: 0 <= i < |r| ==> r[i] == LineOf(cols, n, lb + i)
  {
    seq(ub - lb, i requires 0 <= i < ub - lb => LineOf(cols, n, lb + i))
  }

  /** What is stored of a printed value that is readable. */
  lemma PrintedSlot(cols: seq<Column>, n: nat, i: nat, j: nat, q: Request)
    requires Matches(q, cols) && Sized(cols, n) && i < n && j < |cols| && Readable(q, cols[j], i, j)
    ensures F.Stands(LineOf(cols, n, i)[j], F.StopOf(q, j))
    ensures F.SlotOf(q, j, LineOf(cols, n, i)[j]) == Some(Some(Returned(cols[j], i)))
  {
    hide Text, Trimmed, Bare, Escaped, F.Spells;
    var c, w := cols[j], LineOf(cols, n, i)[j];
    if q.isTrim[j] {
      TrimKeeps(w.text, q.maxWidth - 1);
    }
    assert F.Taken(w, q.maxWidth - 1, q.isTrim[j]) == Some(w.text);
    var buf := w.text + Zeros(q.maxWidth - |w.text|);
    assert buf[..c.width] == w.text + Zeros(c.width - |w.text|);
  }

  lemma PrintedLine(cols: seq<Column>, n: nat, i: nat, q: Request)
    requires Matches(q, cols) && Sized(cols, n) && i < n && forall j :: 0 <= j < |cols| ==> Readable(q, cols[j], i, j)
    ensures F.LineOk(q, LineOf(cols, n, i)) && F.LineRow(q, LineOf(cols, n, i), 0) == ReturnedRow(cols, n, i, 0)
  {
    hide F.Stands, F.SlotOf, Returned, Readable, Shown, Quoted;
    forall j | 0 <= j < q.nC
      ensures F.Stands(LineOf(cols, n, i)[j], F.StopOf(q, j))
      ensures F.SlotOf(q, j, LineOf(cols, n, i)[j]) == Some(Some(Returned(cols[j], i)))
    {
      PrintedSlot(cols, n, i, j, q);
    }
  }

  lemma PrintedLines(cols: seq<Column>, n: nat, lb: nat, ub: nat, q: Request)
    requires Matches(q, cols) && Sized(cols, n) && lb <= ub <= n && AllReadable(q, cols, n, lb, ub)
    ensures F.LinesOk(q, LinesOf(cols, n, lb, ub))
    ensures F.LineRows(q, LinesOf(cols, n, lb, ub), 0, ub - lb) == ReturnedRows(cols, n, lb, ub)
  {
    hide F.SlotOf, F.Stands, F.LineRow, Returned, Readable, LineOf, ReturnedRow;
    var lines := LinesOf(cols, n, lb, ub);
    forall i | 0 <= i < ub - lb
      ensures F.LineOk(q, lines[i]) && F.LineRow(q, lines[i], 0) == ReturnedRow(cols, n, lb + i, 0)
    {
      AllReadableAt(q, cols, n, lb, ub, lb + i);
      PrintedLine(cols, n, lb + i, q);
    }
  }

  lemma AllReadableAt(q: Request, cols: seq<Column>, n: nat, lb: nat, ub: nat, i: nat)
    requires Matches(q, cols) && Sized(cols, n) && lb <= i < ub <= n && AllReadable(q, cols, n, lb, ub)
    ensures forall j :: 0 <= j < |cols| ==> Readable(q, cols[j], i, j)
  {
    hide Readable;
  }

  lemma RowSplit(cols: seq<Column>, n: nat, i: nat, j: nat)
    requires Sized(cols, n) && i < n && j < |cols|
    ensures RowText(cols, n, i, j) ==
            Quoted(Shown(cols[j], i)) + [Separator(j + 1 == |cols|, ',')] + if j + 1 < |cols| then RowText(cols, n, i, j + 1) else []
  {
    hide Quoted, Shown;
  }

  lemma TableSplit(cols: seq<Column>, n: nat, i: nat, ub: nat)
    requires Sized(cols, n) && i <= ub <= n && cols != []
    ensures TableText(cols, n, i, ub) == if i == ub then [] else RowText(cols, n, i, 0) + TableText(cols, n, i + 1, ub)
  {
    hide RowText;
  }

  /** The printed text is that of the lines. */
  lemma {:induction false} PrintedText(cols: seq<Column>, n: nat, lb: nat, i: nat, j: nat, ub: nat, q: Request)
    requires Matches(q, cols) && Sized(cols, n) && lb <= i < ub <= n && j < |cols| && F.LinesOk(q, LinesOf(cols, n, lb, ub))
    ensures F.TextFrom(q, LinesOf(cols, n, lb, ub), i - lb, j, false) == RowText(cols, n, i, j) + TableText(cols, n, i + 1, ub)
    decreases ub - i, |cols| - j
  {
    hide F.LineOk, Shown, Quoted, F.LinesOk, F.TextFrom, RowText, TableText;
    var lines := LinesOf(cols, n, lb, ub);
    var cell := Quoted(Shown(cols[j], i)) + [Separator(j + 1 == |cols|, ',')];
    var more := if j + 1 < |cols| then RowText(cols, n, i, j + 1) else [];
    var table := TableText(cols, n, i + 1, ub);
    F.LineIs(q, lines, i - lb);
    F.TextSplit(q, lines, i - lb, j, false);
    assert F.CellText(q, lines, i - lb, j, false) == cell;
    RowSplit(cols, n, i, j);
    TableSplit(cols, n, i + 1, ub);
    if j + 1 < |cols| {
      PrintedText(cols, n, lb, i, j + 1, ub, q);
    } else if i + 1 < ub {
      PrintedText(cols, n, lb, i + 1, 0, ub, q);
    }
    assert F.Rest(q, lines, i - lb, j, false) == more + table;
    hide *;
    assert cell + (more + table) == cell + more + table;
  }

  /** The round trip: what cprint writes, read in chunks of any size, gives the values
      that were written. */
  lemma RoundTrip(cols: seq<Column>, n: nat, lb: nat, ub: nat, q: Request, k: nat)
    requires Matches(q, cols) && Sized(cols, n) && lb < ub <= n && k > 0 && AllReadable(q, cols, n, lb, ub)
    ensures var X := TableText(cols, n, lb, ub);
      ReadAll(X, q, 0, k) == Loaded(ReturnedRows(cols, n, lb, ub), |X|)
  {
    hide ReadAll, RowText, F.TextFrom, F.LinesOk, F.LineRows;
    var lines := LinesOf(cols, n, lb, ub);
    PrintedLines(cols, n, lb, ub, q);
    PrintedText(cols, n, lb, lb, 0, ub, q);
    var head := LineOf(cols, n, lb);
    HeadFits(cols, n, lb, ub, q);
    F.FileRead(q, head, lines, false, k);
    assert [] + F.TextLeft(q, lines, 0, false) == TableText(cols, n, lb, ub);
  }

  lemma HeadFits(cols: seq<Column>, n: nat, lb: nat, ub: nat, q: Request)
    requires Matches(q, cols) && Sized(cols, n) && lb < ub <= n && AllReadable(q, cols, n, lb, ub)
    ensures F.HeadOk(q, LineOf(cols, n, lb))
  {
    hide F.Stands, F.Taken, Returned, Readable;
    forall j | 0 <= j < q.nC
      ensures F.Stands(LineOf(cols, n, lb)[j], F.StopOf(q, j)) && F.Taken(LineOf(cols, n, lb)[j], q.maxWidth - 1, q.isTrim[j]).Some?
    {
      PrintedSlot(cols, n, lb, j, q);
    }
  }
}
