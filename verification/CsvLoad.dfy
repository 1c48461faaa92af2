/**
  * Loading a CSV file in chunks of rows (OPERATORS/LOAD_CSV/src/load_csv_seq.c:51-196).
  */
module CsvLoad {
  import opened CsvText
  import opened CsvTrim
  import opened CsvCell

  /** What a load is asked for. The conversion of a column turns the buffer into the bytes
      to be stored, or fails. */
  datatype Request = Request(
    nC: nat, sep: char, maxWidth: nat, header: bool, isTrim: seq<bool>, isLoad: seq<bool>, hasNulls: seq<bool>,
    convert: (nat, string) -> Option<string>)
  {
    predicate Valid() {
      0 < nC == |isTrim| == |isLoad| == |hasNulls| && 0 < maxWidth <= 65536
    }
  }

  /** What is stored of a value: its bytes, and the marker that it is not missing. */
  datatype Slot = Slot(bytes: string, nn: bool)

  /** A value for every column that is to be loaded. */
  type Row = seq<Option<Slot>>

  datatype Load = Failed | Loaded(rows: seq<Row>, offset: nat)

  datatype Step = Bad | Next(xidx: nat, slot: Option<Slot>)

  /** The cell of column col, trimmed if the request says so. */
  function CellOf(X: string, q: Request, xidx: nat, col: nat): Cell
    requires q.Valid() && col < q.nC
  {
    CellFor(X, xidx, q.sep, col == q.nC - 1, q.maxWidth - 1, q.isTrim[col])
  }

  function Buffer(X: string, q: Request, xidx: nat, col: nat): (buf: string)
    requires q.Valid() && col < q.nC
    ensures |buf| == q.maxWidth
  {
    CellForFits(X, xidx, q.sep, col == q.nC - 1, q.maxWidth - 1, q.isTrim[col]);
    var text := CellOf(X, q, xidx, col).text;
    text + Zeros(q.maxWidth - |text|)
  }

  /** One cell: where to go on, and what is stored. A failure inside get_cell that does not
      raise the error flag sends the reader back to the start of the file. */
  function ReadSlot(X: string, q: Request, xidx: nat, col: nat): Step
    requires q.Valid() && col < q.nC
  {
    var c := CellOf(X, q, xidx, col);
    var buf := Buffer(X, q, xidx, col);
    if c.err then Bad
    else if !q.isLoad[col] then Next(c.next, None)
    else if buf[0] == NUL && !q.hasNulls[col] then Bad
    else match q.convert(col, buf)
      case None => Bad
      case Some(bytes) => Next(c.next, Some(Slot(bytes, buf[0] != NUL)))
  }

  /** The test for the end of the file differs for a column that is not loaded. */
  predicate AtEnd(X: string, q: Request, xidx: nat, col: nat)
    requires q.Valid() && col < q.nC
  {
    if q.isLoad[col] then xidx >= |X| else xidx == |X|
  }

  /** A value before the rest of its row; a row cut short does not count. */
  function InRow(s: Option<Slot>, l: Load): Load {
    if l.Loaded? && l.rows != [] then Loaded([[s] + l.rows[0]] + l.rows[1..], l.offset) else l
  }

  function Then(rows: seq<Row>, l: Load): Load {
    if l.Loaded? then Loaded(rows + l.rows, l.offset) else Failed
  }

  /** Up to k more rows, the first of them from column col on. */
  function Rows(X: string, q: Request, xidx: nat, col: nat, k: nat): Load
    requires q.Valid() && col < q.nC && k > 0
    decreases k, q.nC - col
  {
    match ReadSlot(X, q, xidx, col)
    case Bad => Failed
    case Next(x, s) =>
      if col + 1 < q.nC then
        if AtEnd(X, q, x, col) then Loaded([], x) else InRow(s, Rows(X, q, x, col + 1, k))
      else if k == 1 || AtEnd(X, q, x, col) then Loaded([[s]], x)
      else Then([[s]], Rows(X, q, x, 0, k - 1))
  }

  datatype Header = HeaderBad | HeaderOnly(xidx: nat) | HeaderRead(xidx: nat)

  function ReadHeader(X: string, q: Request, xidx: nat, col: nat): Header
    requires q.Valid() && col < q.nC
    decreases q.nC - col
  {
    var c := CellOf(X, q, xidx, col);
    if c.err then HeaderBad
    else if c.next >= |X| then HeaderOnly(c.next)
    else if col + 1 == q.nC then HeaderRead(c.next)
    else ReadHeader(X, q, c.next, col + 1)
  }

  /** What a call for at most k rows from an offset of the file does. */
  function Call(X: string, q: Request, offset: nat, k: nat): Load
    requires q.Valid() && k > 0
  {
    if |X| == 0 || offset > |X| then Failed
    else if offset == |X| then Loaded([], offset)
    else if q.header && offset == 0 then
      match ReadHeader(X, q, 0, 0)
      case HeaderBad => Failed
      case HeaderOnly(x) => Loaded([], x)
      case HeaderRead(x) => Rows(X, q, x, 0, k)
    else Rows(X, q, offset, 0, k)
  }

  // ---- load_csv_seq

  /** Rows that are complete, and the row being read, before what is still to be read. */
  function Before(rows: seq<Row>, part: Row, l: Load): Load {
    if !l.Loaded? then Failed
    else if l.rows == [] then Loaded(rows, l.offset)
    else Loaded(rows + [part + l.rows[0]] + l.rows[1..], l.offset)
  }

  lemma BeforeNothing(l: Load)
    ensures Before([], [], l) == l
  {
    if l.Loaded? && l.rows != [] {
      assert [] + l.rows[0] == l.rows[0];
      assert [] + [l.rows[0]] + l.rows[1..] == l.rows;
    }
  }

  /** One cell more. */
  lemma OneCell(X: string, q: Request, xidx: nat, col: nat, k: nat, rows: seq<Row>, part: Row)
    requires q.Valid() && col < q.nC && k > 0
    ensures var l := Before(rows, part, Rows(X, q, xidx, col, k));
      match ReadSlot(X, q, xidx, col)
      case Bad => l == Failed
      case Next(x, s) =>
        if col + 1 < q.nC then
          l == if AtEnd(X, q, x, col) then Loaded(rows, x) else Before(rows, part + [s], Rows(X, q, x, col + 1, k))
        else
          l == if k == 1 || AtEnd(X, q, x, col) then Loaded(rows + [part + [s]], x)
               else Before(rows + [part + [s]], [], Rows(X, q, x, 0, k - 1))
  {
    hide ReadSlot, AtEnd;
    match ReadSlot(X, q, xidx, col)
    case Bad =>
    case Next(x, s) =>
      if col + 1 < q.nC {
        if !AtEnd(X, q, x, col) {
          BeforeInRow(rows, part, s, Rows(X, q, x, col + 1, k));
        }
      } else if k > 1 && !AtEnd(X, q, x, col) {
        BeforeThen(rows, part, s, Rows(X, q, x, 0, k - 1));
      }
  }

  lemma BeforeInRow(rows: seq<Row>, part: Row, s: Option<Slot>, l: Load)
    ensures Before(rows, part, InRow(s, l)) == Before(rows, part + [s], l)
  {
    if l.Loaded? && l.rows != [] {
      assert part + ([s] + l.rows[0]) == part + [s] + l.rows[0];
    }
  }

  lemma BeforeThen(rows: seq<Row>, part: Row, s: Option<Slot>, l: Load)
    ensures Before(rows, part, Then([[s]], l)) == Before(rows + [part + [s]], [], l)
  {
    if l.Loaded? {
      assert ([[s]] + l.rows)[1..] == l.rows;
      if l.rows != [] {
        assert [] + l.rows[0] == l.rows[0] && [l.rows[0]] + l.rows[1..] == l.rows;
      }
    }
  }

  /** The rows are in the first places of the columns' buffers. */
  ghost predicate Stored(data: array2<Slot>, q: Request, rows: seq<Row>, part: Row)
    reads data
  {
    && q.Valid() && data.Length0 == q.nC && |rows| <= data.Length1 && (part != [] ==> |rows| < data.Length1)
    && |part| <= q.nC
    && (forall r, c :: 0 <= r < |rows| && 0 <= c < q.nC ==> |rows[r]| == q.nC && Is(data[c, r], rows[r][c], q.isLoad[c]))
    && (forall c :: 0 <= c < |part| ==> Is(data[c, |rows|], part[c], q.isLoad[c]))
  }

  predicate Is(s: Slot, o: Option<Slot>, load: bool) {
    o == if load then Some(s) else None
  }

  /** The first line of the file. */
  method SkipHeader(X: string, q: Request, buf: array<char>, lbuf: array<char>) returns (h: Header)
    requires q.Valid() && buf.Length == q.maxWidth == lbuf.Length && buf != lbuf
    modifies buf, lbuf
    ensures h == ReadHeader(X, q, 0, 0)
  {
    hide CellFor;
    var xidx: nat, col: nat := 0, 0;
    while true
      invariant col < q.nC && ReadHeader(X, q, 0, 0) == ReadHeader(X, q, xidx, col)
      decreases q.nC - col
    {
      var isErr;
      xidx, isErr := GetCell(X, xidx, q.sep, col == q.nC - 1, buf, if q.isTrim[col] then lbuf else null, q.maxWidth - 1);
      if isErr {
        return HeaderBad;
      }
      if xidx >= |X| {
        return HeaderOnly(xidx);
      }
      if col == q.nC - 1 {
        return HeaderRead(xidx);
      }
      col := col + 1;
    }
  }

  /** One cell, into its place. */
  method LoadCell(X: string, q: Request, start: nat, col: nat, row: nat, buf: array<char>, lbuf: array<char>, data: array2<Slot>)
    returns (xidx: nat, ok: bool)
    requires q.Valid() && col < q.nC == data.Length0 && row < data.Length1 && buf.Length == q.maxWidth == lbuf.Length && buf != lbuf
    modifies buf, lbuf, data
    ensures ok <==> ReadSlot(X, q, start, col).Next?
    ensures ok ==> xidx == ReadSlot(X, q, start, col).xidx && Is(data[col, row], ReadSlot(X, q, start, col).slot, q.isLoad[col])
    ensures forall c, r :: 0 <= c < data.Length0 && 0 <= r < data.Length1 && !(c == col && r == row) ==> data[c, r] == old(data[c, r])
    ensures !q.isLoad[col] ==> data[col, row] == old(data[col, row])
  {
    hide CellFor;
    forall i | 0 <= i < q.maxWidth {
      buf[i] := NUL;
    }
    var isErr;
    ghost var cleared := buf[..];
    xidx, isErr := GetCell(X, start, q.sep, col == q.nC - 1, buf, if q.isTrim[col] then lbuf else null, q.maxWidth - 1);
    if isErr {
      return xidx, false;
    }
    BufferIs(X, q, start, col, cleared, buf[..]);
    if !q.isLoad[col] {
      return xidx, true;
    }
    var isValNull := buf[0] == NUL;
    if isValNull && !q.hasNulls[col] {
      return xidx, false;
    }
    var bytes := q.convert(col, buf[..]);
    if bytes.None? {
      return xidx, false;
    }
    data[col, row] := Slot(bytes.value, !isValNull);
    ok := true;
  }

  lemma BufferIs(X: string, q: Request, xidx: nat, col: nat, cleared: string, buf: string)
    requires q.Valid() && col < q.nC && |cleared| == q.maxWidth == |buf| && forall i :: 0 <= i < |cleared| ==> cleared[i] == NUL
    requires var c := CellOf(X, q, xidx, col);
      if Rejected(X, xidx, q.maxWidth - 1) then buf == cleared
      else Holds(buf, c.text, q.maxWidth - 1, cleared[q.maxWidth - 1..])
    ensures buf == Buffer(X, q, xidx, col)
  {
    CellForFits(X, xidx, q.sep, col == q.nC - 1, q.maxWidth - 1, q.isTrim[col]);
  }

  /** load_csv_seq: as many rows as fit the chunk, and where to go on. */
  method LoadCsvSeq(X: string, q: Request, start: nat, chunk: nat, data: array2<Slot>)
    returns (ok: bool, nR: nat, offset: nat)
    requires q.Valid() && chunk > 0 && data.Length0 == q.nC && data.Length1 == chunk
    modifies data
    ensures ok <==> Call(X, q, start, chunk).Loaded?
    ensures ok ==> var l := Call(X, q, start, chunk); nR == |l.rows| && offset == l.offset && Stored(data, q, l.rows, [])
    ensures !ok ==> nR == 0 && offset == start
    ensures forall c, r :: 0 <= c < q.nC && 0 <= r < chunk && !q.isLoad[c] ==> data[c, r] == old(data[c, r])
  {
    hide ReadSlot, Rows, Before, ReadHeader;
    ok, nR, offset := false, 0, start;
    if |X| == 0 || start > |X| {
      return;
    }
    if start == |X| {
      return true, 0, start;
    }
    var buf := new char[q.maxWidth](_ => NUL);
    var lbuf := new char[q.maxWidth](_ => NUL);
    var xidx: nat := start;
    if q.header && start == 0 {
      var h := SkipHeader(X, q, buf, lbuf);
      if h.HeaderBad? {
        return;
      }
      if h.HeaderOnly? {
        return true, 0, h.xidx;
      }
      xidx := h.xidx;
    }
    var row: nat, col: nat := 0, 0;
    ghost var l := Rows(X, q, xidx, 0, chunk);
    ghost var rows: seq<Row>, part: Row := [], [];
    BeforeNothing(l);
    while true
      invariant row == |rows| < chunk && col == |part| < q.nC
      invariant l == Before(rows, part, Rows(X, q, xidx, col, chunk - row))
      invariant Stored(data, q, rows, part)
      invariant forall c, r :: 0 <= c < q.nC && 0 <= r < chunk && !q.isLoad[c] ==> data[c, r] == old(data[c, r])
      decreases chunk - row, q.nC - col
    {
      OneCell(X, q, xidx, col, chunk - row, rows, part);
      ghost var step := ReadSlot(X, q, xidx, col);
      var good;
      xidx, good := LoadCell(X, q, xidx, col, row, buf, lbuf, data);
      if !good {
        return;
      }
      ghost var s := step.slot;
      part := part + [s];
      var ended := if q.isLoad[col] then xidx >= |X| else xidx == |X|;
      col := col + 1;
      if col == q.nC {
        rows, part := rows + [part], [];
        col := 0;
        row := row + 1;
        if row == chunk {
          return true, row, xidx;
        }
      }
      if ended {
        return true, row, xidx;
      }
    }
  }

  // ---- any chunk size

  /** A call that fails for few rows fails for more. */
  lemma {:induction false} FailsAlike(X: string, q: Request, xidx: nat, col: nat, a: nat, b: nat)
    requires q.Valid() && col < q.nC && a > 0 && Rows(X, q, xidx, col, a) == Failed
    ensures Rows(X, q, xidx, col, a + b) == Failed
    decreases a, q.nC - col
  {
    hide ReadSlot, AtEnd;
    match ReadSlot(X, q, xidx, col)
    case Bad =>
    case Next(x, s) =>
      if col + 1 < q.nC {
        FailsAlike(X, q, x, col + 1, a, b);
      } else {
        FailsAlike(X, q, x, 0, a - 1, b);
      }
  }

  /** Where a call has stopped inside the file, its rows are complete and the next rows
      are those that a larger call reads there. */
  lemma {:induction false} RowsResume(X: string, q: Request, xidx: nat, col: nat, a: nat, b: nat)
    requires q.Valid() && col < q.nC && a > 0 && b > 0
    requires var l := Rows(X, q, xidx, col, a); l.Loaded? && l.offset <= |X|
    ensures var l := Rows(X, q, xidx, col, a);
      && (l.offset == |X| ==> Rows(X, q, xidx, col, a + b) == l)
      && (l.offset < |X| ==> |l.rows| == a && Rows(X, q, xidx, col, a + b) == Then(l.rows, Rows(X, q, l.offset, 0, b)))
    decreases a, q.nC - col
  {
    hide ReadSlot;
    match ReadSlot(X, q, xidx, col)
    case Bad =>
    case Next(x, s) =>
      if AtEnd(X, q, x, col) {
      } else if col + 1 < q.nC {
        RowsResume(X, q, x, col + 1, a, b);
        var l := Rows(X, q, x, col + 1, a);
        if l.offset < |X| {
          InRowThen(s, l.rows, Rows(X, q, l.offset, 0, b));
        }
      } else if a > 1 {
        RowsResume(X, q, x, 0, a - 1, b);
        var l := Rows(X, q, x, 0, a - 1);
        if l.offset < |X| {
          ThenThen([[s]], l.rows, Rows(X, q, l.offset, 0, b));
        }
      }
  }

  lemma InRowThen(s: Option<Slot>, rows: seq<Row>, l: Load)
    requires rows != []
    ensures InRow(s, Then(rows, l)) == Then([[s] + rows[0]] + rows[1..], l)
  {
    if l.Loaded? {
      assert (rows + l.rows)[1..] == rows[1..] + l.rows;
      assert [[s] + rows[0]] + (rows[1..] + l.rows) == [[s] + rows[0]] + rows[1..] + l.rows;
    }
  }

  lemma ThenThen(a: seq<Row>, b: seq<Row>, l: Load)
    ensures Then(a, Then(b, l)) == Then(a + b, l)
  {
    if l.Loaded? {
      assert a + (b + l.rows) == a + b + l.rows;
    }
  }

  /** Two calls, the second from where the first has stopped, read what one call reads:
      when the first has not stopped beyond the end of the file, nor at its start in a file
      with a header. */
  lemma CutAnywhere(X: string, q: Request, offset: nat, a: nat, b: nat)
    requires q.Valid() && a > 0 && b > 0
    requires var l := Call(X, q, offset, a); l.Loaded? && l.offset <= |X| && !(q.header && l.offset == 0)
    ensures var l := Call(X, q, offset, a); Call(X, q, offset, a + b) == Then(l.rows, Call(X, q, l.offset, b))
  {
    hide Rows, ReadHeader;
    var l := Call(X, q, offset, a);
    assert Then(l.rows, Loaded([], |X|)) == Loaded(l.rows, |X|);
    if offset < |X| {
      if q.header && offset == 0 {
        var h := ReadHeader(X, q, 0, 0);
        HeaderAt(X, q, 0, 0);
        if h.HeaderRead? {
          RowsResume(X, q, h.xidx, 0, a, b);
        }
      } else {
        RowsResume(X, q, offset, 0, a, b);
      }
    }
  }

  /** A call that stops beyond the end of the file cannot be followed by another one. */
  lemma {:induction false} RowsStop(X: string, q: Request, xidx: nat, col: nat, a: nat, b: nat)
    requires q.Valid() && col < q.nC && a > 0 && q.isLoad[q.nC - 1]
    requires var l := Rows(X, q, xidx, col, a); l.Loaded? && l.offset >= |X|
    ensures Rows(X, q, xidx, col, a + b) == Rows(X, q, xidx, col, a)
    decreases a, q.nC - col
  {
    hide ReadSlot;
    match ReadSlot(X, q, xidx, col)
    case Bad =>
    case Next(x, s) =>
      if AtEnd(X, q, x, col) {
      } else if col + 1 < q.nC {
        RowsStop(X, q, x, col + 1, a, b);
      } else if a > 1 {
        RowsStop(X, q, x, 0, a - 1, b);
      }
  }

  /** With the last column loaded, that is the only thing that can go wrong. */
  lemma CutExactly(X: string, q: Request, offset: nat, a: nat, b: nat)
    requires q.Valid() && a > 0 && b > 0 && q.isLoad[q.nC - 1]
    requires var l := Call(X, q, offset, a); l.Loaded? && !(q.header && l.offset == 0)
    ensures var l := Call(X, q, offset, a);
      Call(X, q, offset, a + b) == Then(l.rows, Call(X, q, l.offset, b)) <==> l.offset <= |X|
  {
    hide Rows, ReadHeader;
    var l := Call(X, q, offset, a);
    if l.offset <= |X| {
      CutAnywhere(X, q, offset, a, b);
    } else if q.header && offset == 0 {
      var h := ReadHeader(X, q, 0, 0);
      if h.HeaderRead? {
        RowsStop(X, q, h.xidx, 0, a, b);
      }
    } else {
      RowsStop(X, q, offset, 0, a, b);
    }
  }

  /** An unquoted cell that begins with a backslash in the last bytes of a file is such a case. */
  lemma BackslashAtEnd(q: Request, a: nat, b: nat)
    requires q.Valid() && a > 0 && b > 0 && q.nC == 1 && !q.header && q.isLoad[0] && q.hasNulls[0]
    requires q.maxWidth > 1 && forall buf :: q.convert(0, buf).Some?
    ensures var l := Call([BSLASH], q, 0, a);
      l.Loaded? && |l.rows| == 1 && l.offset == 3 && Call([BSLASH], q, l.offset, b) == Failed
  {
    var X := [BSLASH];
    assert CellOf(X, q, 0, 0) == Cell(3, [], false);
  }

  /** A file read by calls for k rows at a time. */
  function ReadAll(X: string, q: Request, offset: nat, k: nat): Load
    requires q.Valid() && k > 0
    decreases |X| - offset
  {
    var l := Call(X, q, offset, k);
    if !l.Loaded? || l.offset >= |X| then l
    else if l.offset <= offset then Failed
    else Then(l.rows, ReadAll(X, q, l.offset, k))
  }

  /** Rows that do not fill the chunk do not depend on it. */
  lemma {:induction false} ChunkIsLarge(X: string, q: Request, xidx: nat, col: nat, k: nat, k': nat)
    requires q.Valid() && col < q.nC && k > 0
    requires var l := Rows(X, q, xidx, col, k); l.Loaded? && |l.rows| < k && |l.rows| < k'
    ensures Rows(X, q, xidx, col, k') == Rows(X, q, xidx, col, k)
    decreases k, q.nC - col
  {
    hide ReadSlot, AtEnd;
    match ReadSlot(X, q, xidx, col)
    case Bad =>
    case Next(x, s) =>
      if AtEnd(X, q, x, col) {
      } else if col + 1 < q.nC {
        ChunkIsLarge(X, q, x, col + 1, k, k');
      } else {
        ChunkIsLarge(X, q, x, 0, k - 1, k' - 1);
      }
  }

  /** A file read to its end in chunks gives what one call large enough gives. */
  lemma {:induction false} AnyChunkSize(X: string, q: Request, offset: nat, k: nat, large: nat)
    requires q.Valid() && k > 0
    requires var l := ReadAll(X, q, offset, k); l.Loaded? && l.offset == |X| && |l.rows| < large
    ensures Call(X, q, offset, large) == ReadAll(X, q, offset, k)
    decreases |X| - offset
  {
    hide Rows, ReadHeader, Call;
    var l := Call(X, q, offset, k);
    CallRows(X, q, offset, k, large);
    if l.offset < |X| {
      CutAnywhere(X, q, offset, k, large - k);
      AnyChunkSize(X, q, l.offset, k, large - k);
    } else if |l.rows| == k {
      CutAnywhere(X, q, offset, k, large - k);
      CallAtEnd(X, q, large - k);
      assert l.rows + [] == l.rows;
    }
  }

  lemma CallAtEnd(X: string, q: Request, k: nat)
    requires q.Valid() && k > 0 && X != []
    ensures Call(X, q, |X|, k) == Loaded([], |X|)
  {}

  lemma CallRows(X: string, q: Request, offset: nat, k: nat, k': nat)
    requires q.Valid() && k > 0 && k' > 0 && Call(X, q, offset, k).Loaded?
    ensures var l := Call(X, q, offset, k);
      && X != [] && |l.rows| <= k && (l.offset < |X| ==> |l.rows| == k)
      && (|l.rows| < k && |l.rows| < k' ==> Call(X, q, offset, k') == l)
  {
    hide Rows, ReadHeader;
    var l := Call(X, q, offset, k);
    if offset < |X| {
      if q.header && offset == 0 {
        var h := ReadHeader(X, q, 0, 0);
        HeaderAt(X, q, 0, 0);
        if h.HeaderRead? {
          RowsCount(X, q, h.xidx, 0, k);
          if |l.rows| < k && |l.rows| < k' {
            ChunkIsLarge(X, q, h.xidx, 0, k, k');
          }
        }
      } else {
        RowsCount(X, q, offset, 0, k);
        if |l.rows| < k && |l.rows| < k' {
          ChunkIsLarge(X, q, offset, 0, k, k');
        }
      }
    }
  }

  lemma {:induction false} HeaderAt(X: string, q: Request, xidx: nat, col: nat)
    requires q.Valid() && col < q.nC
    ensures var h := ReadHeader(X, q, xidx, col); h.HeaderOnly? ==> h.xidx >= |X|
    decreases q.nC - col
  {
    hide CellFor;
    var c := CellOf(X, q, xidx, col);
    if !c.err && c.next < |X| && col + 1 < q.nC {
      HeaderAt(X, q, c.next, col + 1);
    }
  }

  lemma {:induction false} RowsCount(X: string, q: Request, xidx: nat, col: nat, k: nat)
    requires q.Valid() && col < q.nC && k > 0 && Rows(X, q, xidx, col, k).Loaded?
    ensures var l := Rows(X, q, xidx, col, k); |l.rows| <= k && (l.offset < |X| ==> |l.rows| == k)
    decreases k, q.nC - col
  {
    hide ReadSlot;
    match ReadSlot(X, q, xidx, col)
    case Bad =>
    case Next(x, s) =>
      if AtEnd(X, q, x, col) {
      } else if col + 1 < q.nC {
        RowsCount(X, q, x, col + 1, k);
      } else if k > 1 {
        RowsCount(X, q, x, 0, k - 1);
      }
  }
}
