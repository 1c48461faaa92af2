/**
  * Printing string columns as CSV and reading CSV back
  * (OPERATORS/PRINT/src/cprint.c, OPERATORS/LOAD_CSV/src/get_cell.c and load_csv_seq.c).
  */
module CsvText {
  const NUL := '\0'
  const DQUOTE := '"'
  const BSLASH := '\\'
  const EOLN := '\n'

  datatype Option<T> = None | Some(value: T)

  function Zeros(n: nat): (r: string)
    ensures |r| == n && forall i :: 0 <= i < n ==> r[i] == NUL
  {
    seq(n, _ => NUL)
  }

  /** What C takes for the string in a field of fixed width. */
  function Text(field: string): (t: string)
    ensures t <= field && NUL !in t && (|t| < |field| ==> field[|t|] == NUL)
  {
    if field == [] || field[0] == NUL then [] else [field[0]] + Text(field[1..])
  }

  lemma TextStops(field: string, k: nat)
    requires k <= |Text(field)|
    ensures k < |Text(field)| <==> k < |field| && field[k] != NUL
    ensures k < |Text(field)| ==> field[k] == Text(field)[k]
  {}

  lemma {:induction false} TextPadded(t: string, n: nat)
    requires NUL !in t
    ensures Text(t + Zeros(n)) == t
  {
    if t != [] {
      assert (t + Zeros(n))[1..] == t[1..] + Zeros(n);
      TextPadded(t[1..], n);
    }
  }

  /** A character as it is printed between quotes. */
  function Escape(c: char): string {
    if c == BSLASH || c == DQUOTE then [BSLASH, c] else [c]
  }

  function Escaped(t: string): string {
    if t == [] then [] else Escape(t[0]) + Escaped(t[1..])
  }

  function Quoted(t: string): string {
    [DQUOTE] + Escaped(t) + [DQUOTE]
  }

  lemma NothingEscaped()
    ensures Escaped([]) == []
  {}

  lemma {:induction false} EscapedSnoc(t: string, c: char)
    ensures Escaped(t + [c]) == Escaped(t) + Escape(c)
  {
    hide Escape;
    if t == [] {
      assert [c][1..] == [] && t + [c] == [c];
    } else {
      EscapedSnoc(t[1..], c);
      assert (t + [c])[1..] == t[1..] + [c];
      assert Escape(t[0]) + (Escaped(t[1..]) + Escape(c)) == Escape(t[0]) + Escaped(t[1..]) + Escape(c);
    }
  }
}

/** The trimming of a cell (UTILS/DEPRECATED/src/trim.c). */
module CsvTrim {
  import opened CsvText

  /** isspace in the C locale. */
  predicate IsSpace(c: char) {
    c == ' ' || c == '\t' || c == '\n' || c == '\r' || c == '\U{0B}' || c == '\U{0C}'
  }

  /** How many characters the loop from the front passes over. */
  function Front(b: string): (k: nat)
    ensures k <= |b| && (forall i :: 0 <= i < k ==> IsSpace(b[i])) && (k < |b| ==> !IsSpace(b[k]))
  {
    if b == [] || !IsSpace(b[0]) then 0 else 1 + Front(b[1..])
  }

  predicate Blank(c: char) { c == NUL || IsSpace(c) }

  /** Where the loop from the back stops: behind the last character that is neither a space nor zero. */
  function Back(b: string): (k: nat)
    ensures k <= |b| && (forall i :: k <= i < |b| ==> Blank(b[i])) && (k > 0 ==> !Blank(b[k - 1]))
  {
    if b == [] || !Blank(b[|b| - 1]) then |b| else Back(b[..|b| - 1])
  }

  function Core(b: string): string {
    if Front(b) <= Back(b) then b[Front(b)..Back(b)] else []
  }

  /** What trim makes of a buffer; it insists on a final zero and on two bytes. */
  function Trimmed(b: string): Option<string> {
    if |b| <= 1 || b[|b| - 1] != NUL then None
    else if Text(b) == [] then Some([])
    else if !IsSpace(b[0]) && !IsSpace(b[|Text(b)| - 1]) then Some(Text(b))
    else Some(Core(b))
  }

  /** Which bytes are to be kept: start..stop, or none. */
  method Bounds(inbuf: array<char>, n: nat) returns (start: nat, stop: nat)
    requires 1 < n <= inbuf.Length && inbuf[n - 1] == NUL
    ensures stop <= n && Trimmed(inbuf[..n]) == Some(if start <= stop then inbuf[..n][start..stop] else [])
  {
    hide Core, Front, Back, Text;
    ghost var b := inbuf[..n];
    var len := 0;
    TextStops(b, 0);
    while inbuf[len] != NUL
      invariant len < n && len <= |Text(b)| && (len == |Text(b)| <==> b[len] == NUL)
      decreases n - len
    {
      len := len + 1;
      TextStops(b, len);
    }
    assert Text(b) == b[0..len];
    start, stop := 0, len;
    if len > 0 && (IsSpace(inbuf[0]) || IsSpace(inbuf[len - 1])) {
      while start < n && IsSpace(inbuf[start])
        invariant start <= n && forall i :: 0 <= i < start ==> IsSpace(b[i])
      {
        start := start + 1;
      }
      stop := n;
      while stop > 0 && (inbuf[stop - 1] == NUL || IsSpace(inbuf[stop - 1]))
        invariant stop <= n && forall i :: stop <= i < n ==> Blank(b[i])
      {
        stop := stop - 1;
      }
      CoreIs(b, start, stop);
    }
  }

  /** trim, into a buffer that the caller has cleared. */
  method Trim(inbuf: array<char>, outbuf: array<char>, n: nat) returns (ok: bool)
    requires inbuf != outbuf && n <= inbuf.Length && n <= outbuf.Length
    requires forall i :: 0 <= i < n ==> outbuf[i] == NUL
    modifies outbuf
    ensures ok <==> Trimmed(inbuf[..n]).Some?
    ensures match Trimmed(inbuf[..n])
            case None => outbuf[..] == old(outbuf[..])
            case Some(t) => |t| <= n && outbuf[..] == t + Zeros(n - |t|) + old(outbuf[n..])
  {
    hide Core, Front, Back, Text, Zeros;
    if n <= 1 || inbuf[n - 1] != NUL {
      return false;
    }
    var start, stop := Bounds(inbuf, n);
    ghost var b := inbuf[..n];
    ghost var t := if start <= stop then b[start..stop] else [];
    assert Trimmed(b) == Some(t) && |t| <= n && (start <= stop ==> |t| == stop - start);
    hide Trimmed;
    var k := 0;
    while start + k < stop
      invariant k <= |t|
      invariant forall i :: 0 <= i < k ==> outbuf[i] == t[i]
      invariant forall i :: k <= i < outbuf.Length ==> outbuf[i] == old(outbuf[i])
    {
      outbuf[k] := inbuf[start + k];
      k := k + 1;
    }
    ok := true;
    Placed(outbuf[..], old(outbuf[..]), t, n);
  }

  lemma Placed(buf: string, buf0: string, t: string, n: nat)
    requires |buf| == |buf0| && |t| <= n <= |buf| && forall i :: 0 <= i < n ==> buf0[i] == NUL
    requires (forall i :: 0 <= i < |t| ==> buf[i] == t[i]) && forall i :: |t| <= i < |buf| ==> buf[i] == buf0[i]
    ensures buf == t + Zeros(n - |t|) + buf0[n..]
  {}

  lemma CoreIs(b: string, start: nat, stop: nat)
    requires start <= |b| && (forall i :: 0 <= i < start ==> IsSpace(b[i])) && (start < |b| ==> !IsSpace(b[start]))
    requires stop <= |b| && (forall i :: stop <= i < |b| ==> Blank(b[i])) && (stop > 0 ==> !Blank(b[stop - 1]))
    ensures Front(b) == start && Back(b) == stop
    ensures Core(b) == if start <= stop then b[start..stop] else []
  {}

  /** No space at either end. */
  predicate Bare(t: string) { t == [] || (!IsSpace(t[0]) && !IsSpace(t[|t| - 1])) }

  predicate Spaces(t: string) { forall i :: 0 <= i < |t| ==> IsSpace(t[i]) }

  /** A text in a cleared buffer. */
  lemma TrimmedText(text: string, n: nat)
    requires NUL !in text && |text| < n && n > 1
    ensures var buf := text + Zeros(n - |text|);
            Trimmed(buf) == Some(if Bare(text) then text else Core(buf))
  {
    hide Core;
    var buf := text + Zeros(n - |text|);
    TextPadded(text, n - |text|);
    assert buf[n - 1] == NUL;
    if text != [] {
      assert buf[0] == text[0] && buf[|text| - 1] == text[|text| - 1];
    }
  }

  /** Trimming takes spaces off both ends, all of them, and nothing else. */
  lemma TrimmedIs(a: string, t: string, b: string, n: nat)
    requires NUL !in t && Spaces(a) && Spaces(b) && Bare(t) && |a| + |t| + |b| < n && n > 1
    ensures Trimmed(a + t + b + Zeros(n - |a + t + b|)) == Some(t)
  {
    hide Core, Front, Back, Trimmed, Text;
    var text := a + t + b;
    var buf := text + Zeros(n - |text|);
    TrimmedText(text, n);
    if Bare(text) {
      BareMiddle(a, t, b);
    } else if t == [] {
      assert text == a + b;
      CoreIs(buf, |text|, 0);
    } else {
      Regions(a, t, b, Zeros(n - |text|));
      CoreIs(buf, |a|, |a| + |t|);
    }
  }

  lemma Regions(a: string, t: string, b: string, zeros: string)
    ensures var buf := a + t + b + zeros;
      && buf[..|a|] == a && buf[|a|..|a| + |t|] == t && buf[|a| + |t|..] == b + zeros
      && (forall i :: 0 <= i < |a| ==> buf[i] == a[i])
      && (forall i :: |a| <= i < |a| + |t| ==> buf[i] == t[i - |a|])
      && (forall i :: |a| + |t| <= i < |buf| ==> buf[i] == (b + zeros)[i - |a| - |t|])
  {}

  lemma BareMiddle(a: string, t: string, b: string)
    requires Spaces(a) && Spaces(b)
    ensures Bare(a + t + b) ==> a + t + b == t
  {
    var text := a + t + b;
    if a != [] {
      assert text[0] == a[0];
    }
    if b != [] {
      assert text[|text| - 1] == b[|b| - 1];
    }
  }

  /** A text survives trimming exactly if it has no space at its ends and leaves room for a zero. */
  lemma TrimKeeps(t: string, n: nat)
    requires NUL !in t && |t| <= n
    ensures Trimmed(t + Zeros(n - |t|)) == Some(t) <==> |t| < n && n > 1 && Bare(t)
  {
    hide Core, Front, Back;
    var buf := t + Zeros(n - |t|);
    if |t| < n && n > 1 {
      TextPadded(t, n - |t|);
      if t != [] && !Bare(t) {
        CoreShorter(t, n);
      }
    } else if |t| == n && n > 1 {
      assert buf[n - 1] == t[n - 1];
    }
  }

  /** What is left is the text itself or something shorter without zeros. */
  lemma TrimShortens(t: string, n: nat)
    requires NUL !in t && |t| <= n
    ensures var r := Trimmed(t + Zeros(n - |t|)); r.Some? ==> r.value == t || (|r.value| < |t| && NUL !in r.value)
  {
    hide Core, Front, Back;
    var buf := t + Zeros(n - |t|);
    TextPadded(t, n - |t|);
    if |t| == n > 1 {
      assert buf[n - 1] == t[n - 1];
    }
    if t != [] && |t| < n && !Bare(t) {
      CoreShorter(t, n);
    }
  }

  lemma CoreShorter(t: string, n: nat)
    requires NUL !in t && |t| < n && t != [] && !Bare(t)
    ensures |Core(t + Zeros(n - |t|))| < |t| && NUL !in Core(t + Zeros(n - |t|))
  {
    hide Front, Back, Text;
    var zeros := Zeros(n - |t|);
    var buf := t + zeros;
    var front, back := Front(buf), Back(buf);
    assert forall i :: |t| <= i < n ==> buf[i] == zeros[i - |t|];
    assert buf[0] == t[0] && buf[|t| - 1] == t[|t| - 1];
    assert front <= back ==> Core(buf) == t[front..back];
  }
}

/** get_cell. */
module CsvCell {
  import opened CsvText
  import opened CsvTrim

  /** Where to go on in the file (0 after a failure), what was put into the buffer,
      and whether the error flag was raised. */
  datatype Cell = Cell(next: nat, text: string, err: bool)

  /** Bytes past the end of the file read as zero. */
  function At(X: string, i: nat): char {
    if i < |X| then X[i] else NUL
  }

  function Separator(isLast: bool, sep: char): char {
    if isLast then EOLN else sep
  }

  /** The scanning loop, from position i with got in the buffer. */
  function Scan(X: string, i: nat, quoted: bool, stop: char, bufsz: nat, got: string): Cell
    decreases |X| - i
  {
    if i > |X| then Cell(0, got, false)
    else if i == |X| then Cell(i, got, false)
    else if X[i] == (if quoted then DQUOTE else stop) then
      if !quoted then Cell(i + 1, got, false)
      else if i + 1 >= |X| || X[i + 1] != stop then Cell(0, got, false)
      else Cell(i + 2, got, false)
    else if X[i] == BSLASH then
      if i + 1 >= |X| || |got| >= bufsz then Cell(0, got, false)
      else Scan(X, i + 2, quoted, stop, bufsz, got + [X[i + 1]])
    else if |got| >= bufsz then Cell(0, got, false)
    else if !quoted && X[i] == EOLN then Cell(0, got, true)
    else Scan(X, i + 1, quoted, stop, bufsz, got + [X[i]])
  }

  predicate Rejected(X: string, xidx: nat, bufsz: nat) {
    |X| == 0 || xidx == |X| || bufsz == 0
  }

  /** The cell at a position of the file, untrimmed. */
  function CellAt(X: string, xidx: nat, sep: char, isLast: bool, bufsz: nat): Cell {
    if Rejected(X, xidx, bufsz) then Cell(0, [], false)
    else if At(X, xidx) == BSLASH then Cell(xidx + 3, [], false)
    else if At(X, xidx) == DQUOTE then Scan(X, xidx + 1, true, Separator(isLast, sep), bufsz, [])
    else Scan(X, xidx, false, Separator(isLast, sep), bufsz, [])
  }

  lemma {:induction false} ScanFits(X: string, i: nat, quoted: bool, stop: char, bufsz: nat, got: string)
    requires |got| <= bufsz
    ensures |Scan(X, i, quoted, stop, bufsz, got).text| <= bufsz
    decreases |X| - i
  {
    if i < |X| && X[i] != (if quoted then DQUOTE else stop) && |got| < bufsz {
      if X[i] == BSLASH {
        if i + 1 < |X| {
          ScanFits(X, i + 2, quoted, stop, bufsz, got + [X[i + 1]]);
        }
      } else if quoted || X[i] != EOLN {
        ScanFits(X, i + 1, quoted, stop, bufsz, got + [X[i]]);
      }
    }
  }

  lemma CellFits(X: string, xidx: nat, sep: char, isLast: bool, bufsz: nat)
    ensures |CellAt(X, xidx, sep, isLast, bufsz).text| <= bufsz
  {
    ScanFits(X, xidx + 1, true, Separator(isLast, sep), bufsz, []);
    ScanFits(X, xidx, false, Separator(isLast, sep), bufsz, []);
  }

  /** What the buffer holds when got has been put into its first bufsz bytes. */
  ghost predicate Holds(buf: string, got: string, bufsz: nat, rest: string) {
    |got| <= bufsz && buf == got + Zeros(bufsz - |got|) + rest
  }

  lemma HoldsMore(buf: string, got: string, bufsz: nat, rest: string, c: char)
    requires Holds(buf, got, bufsz, rest) && |got| < bufsz
    ensures |got| < |buf| && Holds(buf[|got| := c], got + [c], bufsz, rest)
  {}

  /**
    * The cell at a position of the file.  Trimming comes last; a cell that cannot be
    * read, or not be trimmed, leaves an empty buffer and sends the reader to the
    * start of the file.
    */
  function CellFor(X: string, xidx: nat, sep: char, isLast: bool, bufsz: nat, trim: bool): Cell {
    CellFits(X, xidx, sep, isLast, bufsz);
    var c := CellAt(X, xidx, sep, isLast, bufsz);
    if !trim then c
    else if c.next == 0 then Cell(0, [], c.err)
    else if At(X, xidx) == BSLASH then c
    else match Trimmed(c.text + Zeros(bufsz - |c.text|))
      case None => Cell(0, [], c.err)
      case Some(t) => Cell(c.next, t, c.err)
  }

  /** The cell goes into the buffer, filled up with zeros. */
  method ReadCell(X: string, start: nat, sep: char, isLast: bool, buf: array<char>, bufsz: nat) returns (xidx: nat, isErr: bool)
    requires bufsz <= buf.Length
    modifies buf
    ensures var c := CellAt(X, start, sep, isLast, bufsz); xidx == c.next && isErr == c.err
    ensures Rejected(X, start, bufsz) ==> buf[..] == old(buf[..])
    ensures !Rejected(X, start, bufsz) ==>
      Holds(buf[..], CellAt(X, start, sep, isLast, bufsz).text, bufsz, old(buf[bufsz..]))
  {
    hide Holds;
    xidx, isErr := 0, false;
    if |X| == 0 || start == |X| || bufsz == 0 {
      return;
    }
    ghost var rest := buf[bufsz..];
    forall i | 0 <= i < bufsz {
      buf[i] := NUL;
    }
    assert Holds(buf[..], [], bufsz, rest) by {
      Cleared(buf[..], bufsz, rest);
    }
    ghost var c := CellAt(X, start, sep, isLast, bufsz);
    if At(X, start) == BSLASH {
      return start + 3, false;
    }
    xidx := start;
    var startDquote, stop := false, Separator(isLast, sep);
    var lastChar := stop;
    if At(X, start) == DQUOTE {
      startDquote, lastChar := true, DQUOTE;
      xidx := start + 1;
    }
    var bufidx := 0;
    ghost var got := "";
    while true
      invariant bufidx == |got| && lastChar == if startDquote then DQUOTE else stop
      invariant Holds(buf[..], got, bufsz, rest)
      invariant c == Scan(X, xidx, startDquote, stop, bufsz, got)
      decreases |X| - xidx
    {
      if xidx > |X| {
        return 0, false;
      }
      if xidx == |X| {
        return xidx, false;
      }
      if X[xidx] == lastChar {
        xidx := xidx + 1;
        if startDquote {
          if xidx >= |X| || X[xidx] != stop {
            return 0, false;
          }
          xidx := xidx + 1;
        }
        return xidx, false;
      }
      if X[xidx] == BSLASH {
        xidx := xidx + 1;
        if xidx >= |X| || bufidx >= bufsz {
          return 0, false;
        }
        HoldsMore(buf[..], got, bufsz, rest, X[xidx]);
        buf[bufidx] := X[xidx];
        got := got + [X[xidx]];
        bufidx, xidx := bufidx + 1, xidx + 1;
        continue;
      }
      if bufidx >= bufsz {
        return 0, false;
      }
      if !startDquote && X[xidx] == EOLN {
        return 0, true;
      }
      HoldsMore(buf[..], got, bufsz, rest, X[xidx]);
      buf[bufidx] := X[xidx];
      got := got + [X[xidx]];
      bufidx, xidx := bufidx + 1, xidx + 1;
    }
  }

  lemma CellForFits(X: string, xidx: nat, sep: char, isLast: bool, bufsz: nat, trim: bool)
    ensures |CellFor(X, xidx, sep, isLast, bufsz, trim).text| <= bufsz
  {
    CellFits(X, xidx, sep, isLast, bufsz);
  }

  /** get_cell; without a second buffer nothing is trimmed. */
  method GetCell(X: string, start: nat, sep: char, isLast: bool, buf: array<char>, lbuf: array?<char>, bufsz: nat)
    returns (xidx: nat, isErr: bool)
    requires bufsz <= buf.Length && (lbuf != null ==> lbuf != buf && bufsz <= lbuf.Length)
    modifies buf, lbuf
    ensures var c := CellFor(X, start, sep, isLast, bufsz, lbuf != null); xidx == c.next && isErr == c.err
    ensures Rejected(X, start, bufsz) ==> buf[..] == old(buf[..])
    ensures !Rejected(X, start, bufsz) ==>
      Holds(buf[..], CellFor(X, start, sep, isLast, bufsz, lbuf != null).text, bufsz, old(buf[bufsz..]))
  {
    hide CellAt, Trimmed, Holds;
    CellFits(X, start, sep, isLast, bufsz);
    if Rejected(X, start, bufsz) {
      RejectedCell(X, start, sep, isLast, bufsz);
    }
    if At(X, start) == BSLASH {
      NullCell(X, start, sep, isLast, bufsz);
    }
    if lbuf == null {
      xidx, isErr := ReadCell(X, start, sep, isLast, buf, bufsz);
      return;
    }
    xidx, isErr := ReadCell(X, start, sep, isLast, lbuf, bufsz);
    ghost var full := lbuf[..];
    if |X| == 0 || start == |X| || bufsz == 0 {
      return;
    }
    ghost var c := CellAt(X, start, sep, isLast, bufsz);
    forall i | 0 <= i < bufsz {
      buf[i] := NUL;
    }
    Cleared(buf[..], bufsz, old(buf[bufsz..]));
    if xidx == 0 || At(X, start) == BSLASH {
      return;
    }
    HoldsText(full, c.text, bufsz, old(lbuf[bufsz..]));
    assert full[..bufsz] == lbuf[..bufsz];
    assert lbuf[..bufsz] == c.text + Zeros(bufsz - |c.text|);
    var ok := Trim(lbuf, buf, bufsz);
    if !ok {
      xidx := 0;
    } else {
      HoldsText(buf[..], Trimmed(lbuf[..bufsz]).value, bufsz, old(buf[bufsz..]));
    }
  }

  lemma RejectedCell(X: string, xidx: nat, sep: char, isLast: bool, bufsz: nat)
    requires Rejected(X, xidx, bufsz)
    ensures CellAt(X, xidx, sep, isLast, bufsz) == Cell(0, [], false)
  {}

  lemma NullCell(X: string, xidx: nat, sep: char, isLast: bool, bufsz: nat)
    requires At(X, xidx) == BSLASH
    ensures CellAt(X, xidx, sep, isLast, bufsz).text == []
  {}

  lemma HoldsText(buf: string, got: string, bufsz: nat, rest: string)
    ensures Holds(buf, got, bufsz, rest) <==> |got| <= bufsz && buf == got + Zeros(bufsz - |got|) + rest
    ensures Holds(buf, got, bufsz, rest) ==> buf[..bufsz] == got + Zeros(bufsz - |got|)
  {}

  lemma Cleared(buf: string, bufsz: nat, rest: string)
    requires |buf| == bufsz + |rest| && buf[bufsz..] == rest && forall i :: 0 <= i < bufsz ==> buf[i] == NUL
    ensures Holds(buf, [], bufsz, rest)
  {}

  /** One printed character. */
  lemma ScanChar(X: string, i: nat, c: char, stop: char, bufsz: nat, got: string)
    requires i + |Escape(c)| <= |X| && X[i..i + |Escape(c)|] == Escape(c) && |got| <= bufsz
    ensures Scan(X, i, true, stop, bufsz, got)
         == if |got| < bufsz then Scan(X, i + |Escape(c)|, true, stop, bufsz, got + [c]) else Cell(0, got, false)
  {
    assert X[i] == Escape(c)[0];
    if |Escape(c)| == 2 {
      assert X[i + 1] == Escape(c)[1];
    }
  }

  /** The text between quotes, from the character that follows pre. */
  lemma {:induction false} QuotedScans(pre: string, t: string, stop: char, post: string, bufsz: nat, got: string)
    requires |got| <= bufsz
    ensures var X := pre + Escaped(t) + [DQUOTE, stop] + post;
      Scan(X, |pre|, true, stop, bufsz, got)
      == if |got| + |t| <= bufsz then Cell(|pre| + |Escaped(t)| + 2, got + t, false)
         else Cell(0, got + t[..bufsz - |got|], false)
    decreases |t|
  {
    hide Scan, Escape, Escaped;
    if t == [] {
      ScanEnd(pre, stop, post, bufsz, got);
      assert got + t == got;
    } else {
      var c, rest := t[0], t[1..];
      var end := [DQUOTE, stop] + post;
      Peeled(pre, t, end);
      assert pre + Escaped(t) + [DQUOTE, stop] + post == pre + Escaped(t) + end;
      assert pre + Escape(c) + Escaped(rest) + [DQUOTE, stop] + post == pre + Escape(c) + Escaped(rest) + end;
      ScanChar(pre + Escaped(t) + [DQUOTE, stop] + post, |pre|, c, stop, bufsz, got);
      if |got| < bufsz {
        QuotedScans(pre + Escape(c), rest, stop, post, bufsz, got + [c]);
        assert got + [c] + rest == got + t;
        if |got| + |t| > bufsz {
          assert got + [c] + rest[..bufsz - |got| - 1] == got + t[..bufsz - |got|];
        }
      } else {
        assert got + t[..0] == got;
      }
    }
  }

  lemma ScanEnd(pre: string, stop: char, post: string, bufsz: nat, got: string)
    ensures Scan(pre + Escaped([]) + [DQUOTE, stop] + post, |pre|, true, stop, bufsz, got) == Cell(|pre| + |Escaped([])| + 2, got, false)
  {
    var X := pre + Escaped([]) + [DQUOTE, stop] + post;
    assert X[|pre|] == DQUOTE && X[|pre| + 1] == stop;
  }

  lemma Peeled(pre: string, t: string, tail: string)
    requires t != []
    ensures |Escaped(t)| == |Escape(t[0])| + |Escaped(t[1..])|
    ensures (pre + Escaped(t) + tail)[|pre|..|pre| + |Escape(t[0])|] == Escape(t[0])
    ensures pre + Escaped(t) + tail == pre + Escape(t[0]) + Escaped(t[1..]) + tail
  {
    hide Escape;
    assert Escaped(t) == Escape(t[0]) + Escaped(t[1..]);
  }

  /** A printed string is read back, and the scan stops just past its separator, if and
      only if the string fits the buffer. */
  lemma QuotedReadsBack(pre: string, t: string, isLast: bool, sep: char, post: string, bufsz: nat)
    requires bufsz > 0
    ensures var X := pre + Quoted(t) + [Separator(isLast, sep)] + post;
      var c := CellAt(X, |pre|, sep, isLast, bufsz);
      && (c == Cell(|pre| + |Quoted(t)| + 1, t, false) <==> |t| <= bufsz)
      && (|t| > bufsz ==> c == Cell(0, t[..bufsz], false))
      && At(X, |pre|) == DQUOTE
  {
    var stop := Separator(isLast, sep);
    var X := pre + Quoted(t) + [stop] + post;
    assert X == (pre + [DQUOTE]) + Escaped(t) + [DQUOTE, stop] + post;
    QuotedScans(pre + [DQUOTE], t, stop, post, bufsz, []);
    assert X[|pre|] == DQUOTE;
  }

  /** The same with trimming: if and only if there is room for one zero more and no space at the ends. */
  lemma QuotedReadsBackFor(pre: string, t: string, isLast: bool, sep: char, post: string, bufsz: nat, trim: bool)
    requires bufsz > 0 && NUL !in t
    ensures var X := pre + Quoted(t) + [Separator(isLast, sep)] + post;
      CellFor(X, |pre|, sep, isLast, bufsz, trim) == Cell(|pre| + |Quoted(t)| + 1, t, false)
      <==> if trim then |t| < bufsz && bufsz > 1 && Bare(t) else |t| <= bufsz
  {
    hide CellAt, Quoted, Trimmed, Bare;
    QuotedReadsBack(pre, t, isLast, sep, post, bufsz);
    if trim && |t| <= bufsz {
      TrimKeeps(t, bufsz);
    }
  }

  /** Whatever comes back of a printed string, it is a part of it that has no zeros. */
  lemma QuotedReadsPart(pre: string, t: string, isLast: bool, sep: char, post: string, bufsz: nat, trim: bool)
    requires bufsz > 0 && NUL !in t
    ensures var X := pre + Quoted(t) + [Separator(isLast, sep)] + post;
      var c := CellFor(X, |pre|, sep, isLast, bufsz, trim);
      !c.err && (c.text == t || (|c.text| < |t| && NUL !in c.text))
  {
    hide CellAt, Quoted, Trimmed, Bare;
    QuotedReadsBack(pre, t, isLast, sep, post, bufsz);
    if trim && |t| <= bufsz {
      TrimShortens(t, bufsz);
    }
  }
}

/** cprint, for string columns and no HTML. */
module CsvPrint {
  import opened CsvText

  /** Fields of fixed width; with markers of the values that are there, unless none is missing. */
  datatype Column = Column(width: nat, fields: seq<string>, nn: Option<seq<bool>>)

  predicate Sized(cols: seq<Column>, n: nat) {
    forall j :: 0 <= j < |cols| ==>
      && |cols[j].fields| >= n && (forall i :: 0 <= i < n ==> |cols[j].fields[i]| == cols[j].width)
      && (cols[j].nn.Some? ==> |cols[j].nn.value| >= n)
  }

  predicate Missing(c: Column, i: nat)
    requires c.nn.Some? ==> i < |c.nn.value|
  {
    c.nn.Some? && !c.nn.value[i]
  }

  /** What is printed of a value, before escaping: nothing for a missing one. */
  function Shown(c: Column, i: nat): (t: string)
    requires i < |c.fields| && (c.nn.Some? ==> i < |c.nn.value|)
    ensures NUL !in t
  {
    if Missing(c, i) then [] else Text(c.fields[i])
  }

  /** A row from column j on: quoted cells, commas between them, a newline at the end. */
  function RowText(cols: seq<Column>, n: nat, i: nat, j: nat): string
    requires Sized(cols, n) && i < n && j < |cols|
    decreases |cols| - j
  {
    Quoted(Shown(cols[j], i)) +
    if j + 1 == |cols| then [EOLN] else [','] + RowText(cols, n, i, j + 1)
  }

  function TableText(cols: seq<Column>, n: nat, lb: nat, ub: nat): string
    requires Sized(cols, n) && lb <= ub <= n && cols != []
    decreases ub - lb
  {
    if lb == ub then [] else RowText(cols, n, lb, 0) + TableText(cols, n, lb + 1, ub)
  }

  /** A value in a column too narrow to be printed. */
  predicate Narrow(c: Column, i: nat)
    requires c.nn.Some? ==> i < |c.nn.value|
  {
    !Missing(c, i) && c.width <= 1
  }

  /** The SC case: characters up to the first zero, or the width, escaped. */
  method PrintField(field: string) returns (out: string)
    ensures out == Quoted(Text(field))
  {
    hide Text, Escaped;
    out := [DQUOTE];
    var k := 0;
    ghost var text := Text(field);
    assert text[..0] == [];
    NothingEscaped();
    while k < |field| && field[k] != NUL
      invariant k <= |text| && out == [DQUOTE] + Escaped(text[..k])
    {
      TextStops(field, k);
      EscapedSnoc(text[..k], field[k]);
      assert text[..k + 1] == text[..k] + [field[k]];
      if field[k] == BSLASH || field[k] == DQUOTE {
        out := out + [BSLASH];
      }
      out := out + [field[k]];
      k := k + 1;
    }
    TextStops(field, k);
    assert text[..k] == text;
    out := out + [DQUOTE];
  }

  /** The first j cells of a row have been printed. */
  ghost predicate Printed(cols: seq<Column>, n: nat, i: nat, j: nat, out: string)
    requires Sized(cols, n) && i < n && j <= |cols| && cols != []
  {
    RowText(cols, n, i, 0)
    == if j == |cols| then out + [EOLN] else out + (if j > 0 then [','] else []) + RowText(cols, n, i, j)
  }

  lemma PrintedNone(cols: seq<Column>, n: nat, i: nat)
    requires Sized(cols, n) && i < n && cols != []
    ensures Printed(cols, n, i, 0, [])
  {
    hide RowText;
    assert [] + [] + RowText(cols, n, i, 0) == RowText(cols, n, i, 0);
  }

  lemma PrintedCell(cols: seq<Column>, n: nat, i: nat, j: nat, before: string, out: string)
    requires Sized(cols, n) && i < n && j < |cols| && Printed(cols, n, i, j, before)
    requires out == before + (if j > 0 then [','] else []) +
                    if Missing(cols[j], i) then [DQUOTE, DQUOTE] else Quoted(Text(cols[j].fields[i]))
    ensures Printed(cols, n, i, j + 1, out)
  {
    var comma := if j > 0 then [','] else [];
    var cell := Quoted(Shown(cols[j], i));
    assert Quoted([]) == [DQUOTE, DQUOTE];
    hide Quoted, Text, Missing;
    if j + 1 == |cols| {
      Regroup(before + comma, cell, [EOLN], []);
    } else {
      Regroup(before + comma, cell, [','], RowText(cols, n, i, j + 1));
    }
  }

  /** A row; stops at a value in a column of width 1 or 0. */
  method PrintRow(cols: seq<Column>, n: nat, i: nat) returns (out: string, ok: bool)
    requires Sized(cols, n) && i < n && cols != []
    ensures ok <==> forall j :: 0 <= j < |cols| ==> !Narrow(cols[j], i)
    ensures ok ==> out == RowText(cols, n, i, 0)
  {
    hide Quoted, Shown, Text, Printed, RowText;
    out, ok := "", true;
    var j := 0;
    PrintedNone(cols, n, i);
    while j < |cols|
      invariant 0 <= j <= |cols|
      invariant forall l :: 0 <= l < j ==> !Narrow(cols[l], i)
      invariant Printed(cols, n, i, j, out)
    {
      ghost var before := out;
      if j > 0 {
        out := out + [','];
      }
      if cols[j].nn.Some? && !cols[j].nn.value[i] {
        out := out + [DQUOTE, DQUOTE];
      } else {
        if cols[j].width <= 1 {
          return out, false;
        }
        var cell := PrintField(cols[j].fields[i]);
        out := out + cell;
      }
      assert before + [] == before;
      PrintedCell(cols, n, i, j, before, out);
      j := j + 1;
    }
    PrintedAll(cols, n, i, out);
    out := out + [EOLN];
  }

  lemma PrintedAll(cols: seq<Column>, n: nat, i: nat, out: string)
    requires Sized(cols, n) && i < n && cols != [] && Printed(cols, n, i, |cols|, out)
    ensures out + [EOLN] == RowText(cols, n, i, 0)
  {}

  lemma Regroup(a: string, b: string, c: string, d: string)
    ensures a + (b + (c + d)) == a + b + c + d
    ensures d == [] ==> a + (b + c) == a + b + c
  {}

  ghost predicate AllWide(cols: seq<Column>, n: nat, lb: nat, ub: nat)
    requires Sized(cols, n) && ub <= n
  {
    forall i, j :: lb <= i < ub && 0 <= j < |cols| ==> !Narrow(cols[j], i)
  }

  /** cprint: rows lb to ub. It fails if there is nothing to print or a value in a
      column too narrow. */
  method Print(cols: seq<Column>, n: nat, lb: nat, ub: nat) returns (out: string, ok: bool)
    requires Sized(cols, n) && ub <= n
    ensures ok <==> cols != [] && lb < ub && AllWide(cols, n, lb, ub)
    ensures ok ==> out == TableText(cols, n, lb, ub)
  {
    hide RowText, Narrow;
    out, ok := "", false;
    if cols == [] || ub <= lb {
      return;
    }
    var i := lb;
    while i < ub
      invariant lb <= i <= ub && AllWide(cols, n, lb, i)
      invariant out + TableText(cols, n, i, ub) == TableText(cols, n, lb, ub)
    {
      var row, wide := PrintRow(cols, n, i);
      out := out + row;
      if !wide {
        return;
      }
      i := i + 1;
    }
    ok := true;
  }
}
