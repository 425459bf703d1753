/**
 `wifi_getApAssociatedDeviceDiagnosticResult`: one record per line of the station table, with
 columns cut out by `strtok` and two of them cut again by a second `strtok`.
 */
module Stations {
  import opened CText
  import opened CBuffers
  import opened CTypes
  import opened Capture

  const BUFFER_SIZE: nat := 2048
  const LINE_SIZE: nat := 200
  const BLANK: set<char> := {' '}
  const MEGA: set<char> := {'M'}

  /** The fields of a record that come from the table; `active` tells a filled record. */
  datatype Row = Row(authenticationState: int, downlinkRate: int, uplinkRate: int, active: bool)

  const ZERO_ROW := Row(0, 0, 0, false)

  // ---------------------------------------------------------------- what a line means

  /** The pieces `fgets` cuts the table into. */
  function Lines(s: string, i: nat): seq<string>
    requires i <= |s|
    decreases |s| - i
  {
    if i == |s| then [] else [s[i..ChunkEnd(s, i, LINE_SIZE)]] + Lines(s, ChunkEnd(s, i, LINE_SIZE))
  }

  function Columns(line: string): seq<string> { Tokens(line, BLANK) }

  /** A rate column must have a character besides `M`, or the code hands NULL to `atoi`. */
  predicate RateReadable(cols: seq<string>, k: nat) {
    k < |cols| ==> TokenStart(cols[k], MEGA) < |cols[k]|
  }

  predicate Readable(line: string) {
    RateReadable(Columns(line), 3) && RateReadable(Columns(line), 4)
  }

  function Rate(cols: seq<string>, k: nat): int {
    if k < |cols| then Atoi(HeadToken(cols[k], MEGA)) else 0
  }

  function RowOfColumns(cols: seq<string>): Row {
    Row(if 5 < |cols| then Atoi(cols[5]) - 100 else 0, Rate(cols, 3), Rate(cols, 4), true)
  }

  function RowOf(line: string): Row { RowOfColumns(Columns(line)) }

  // ---------------------------------------------------------------- the code

  /** After `k` calls of `strtok`: the columns taken so far are strings at `offs`, in order and
      apart, and the others are still ahead of `save`. */
  ghost predicate Cut(b: seq<char>, save: nat, cols: seq<string>, offs: seq<nat>, k: nat) {
    && Terminated(b, save)
    && |offs| == (if k < |cols| then k else |cols|)
    && Tokens(CStr(b, save), BLANK) == cols[|offs|..]
    && (forall j :: 0 <= j < |offs| ==> IsColumn(b, offs[j], cols[j]) && offs[j] + |cols[j]| <= save)
    && (forall j :: 0 < j < |offs| ==> offs[j - 1] + |cols[j - 1]| < offs[j])
  }

  ghost predicate IsColumn(b: seq<char>, p: nat, t: string) {
    Terminated(b, p) && CStr(b, p) == t
  }

  lemma {:induction false} ColumnKept(b: seq<char>, save: nat, cols: seq<string>, offs: seq<nat>, k: nat,
      found: bool, tok: nat, b': seq<char>, save': nat, j: nat)
    requires Cut(b, save, cols, offs, k) && j < |offs|
    requires TokenTaken(b, save, BLANK, found, tok, b', save')
    ensures IsColumn(b', offs[j], cols[j])
    ensures found ==> offs[j] + |cols[j]| < tok
  {
    assert IsColumn(b, offs[j], cols[j]);
    CStrFacts(b, offs[j]);
    CStrFacts(b, save);
    CStrKept(b, b', offs[j]);
  }

  lemma {:induction false} TailOf(cols: seq<string>, i: nat)
    requires i < |cols|
    ensures cols[i..] == [cols[i]] + cols[i + 1..]
  {
  }

  lemma {:induction false} ColumnsAhead(b: seq<char>, save: nat, cols: seq<string>, offs: seq<nat>, k: nat,
      found: bool, tok: nat, b': seq<char>, save': nat)
    requires Cut(b, save, cols, offs, k)
    requires TokenTaken(b, save, BLANK, found, tok, b', save')
    ensures found == (k < |cols|)
    ensures Terminated(b', save')
    ensures found ==> IsColumn(b', tok, cols[k]) && tok + |cols[k]| <= save'
    ensures Tokens(CStr(b', save'), BLANK) == if found then cols[k + 1..] else []
  {
    var s := CStr(b, save);
    if found {
      assert Tokens(s, BLANK) == [HeadToken(s, BLANK)] + Tokens(TailText(s, BLANK), BLANK);
      TailOf(cols, |offs|);
    }
  }

  lemma {:induction false} ColumnsKept(b: seq<char>, save: nat, cols: seq<string>, offs: seq<nat>, k: nat,
      found: bool, tok: nat, b': seq<char>, save': nat)
    requires Cut(b, save, cols, offs, k)
    requires TokenTaken(b, save, BLANK, found, tok, b', save')
    ensures forall j :: 0 <= j < |offs| ==>
              && IsColumn(b', offs[j], cols[j]) && offs[j] + |cols[j]| <= save'
              && (found ==> offs[j] + |cols[j]| < tok)
  {
    forall j | 0 <= j < |offs| ensures IsColumn(b', offs[j], cols[j]) && (found ==> offs[j] + |cols[j]| < tok) {
      ColumnKept(b, save, cols, offs, k, found, tok, b', save', j);
    }
  }

  lemma {:induction false} CutStep(b: seq<char>, save: nat, cols: seq<string>, offs: seq<nat>, k: nat,
      found: bool, tok: nat, b': seq<char>, save': nat)
    requires Cut(b, save, cols, offs, k)
    requires TokenTaken(b, save, BLANK, found, tok, b', save')
    ensures found == (k < |cols|)
    ensures Cut(b', save', cols, if found then offs + [tok] else offs, k + 1)
  {
    ColumnsAhead(b, save, cols, offs, k, found, tok, b', save');
    ColumnsKept(b, save, cols, offs, k, found, tok, b', save');
    if found {
      OneMore(b', cols, offs, tok, save');
    } else {
      NoMore(b', cols, offs, k, save');
    }
  }

  lemma {:induction false} NoMore(b: seq<char>, cols: seq<string>, offs: seq<nat>, k: nat, save: nat)
    requires |offs| == |cols| <= k && Terminated(b, save) && Tokens(CStr(b, save), BLANK) == []
    requires forall j :: 0 <= j < |offs| ==> IsColumn(b, offs[j], cols[j]) && offs[j] + |cols[j]| <= save
    requires forall j :: 0 < j < |offs| ==> offs[j - 1] + |cols[j - 1]| < offs[j]
    ensures Cut(b, save, cols, offs, k + 1)
  {
  }

  lemma {:induction false} OneMore(b: seq<char>, cols: seq<string>, offs: seq<nat>, tok: nat, save: nat)
    requires |offs| < |cols| && IsColumn(b, tok, cols[|offs|]) && tok + |cols[|offs|]| <= save
    requires Terminated(b, save) && Tokens(CStr(b, save), BLANK) == cols[|offs| + 1..]
    requires forall j :: 0 <= j < |offs| ==> IsColumn(b, offs[j], cols[j]) && offs[j] + |cols[j]| < tok
    requires forall j :: 0 < j < |offs| ==> offs[j - 1] + |cols[j - 1]| < offs[j]
    ensures Cut(b, save, cols, offs + [tok], |offs| + 1)
  {
  }

  /** The next column, if there is one. */
  method NextColumn(strtok: Strtok, ghost cols: seq<string>, ghost offs: seq<nat>, ghost k: nat)
    returns (found: bool, tok: nat, ghost offs': seq<nat>)
    requires Cut(strtok.buf[..], strtok.save, cols, offs, k)
    modifies strtok, strtok.buf
    ensures found == (k < |cols|)
    ensures offs <= offs' && |offs'| == (if found then |offs| + 1 else |offs|)
    ensures found ==> |offs'| == k + 1 && offs'[k] == tok
    ensures Cut(strtok.buf[..], strtok.save, cols, offs', k + 1)
  {
    ghost var b, p := strtok.buf[..], strtok.save;
    found, tok := strtok.Next(BLANK);
    CutStep(b, p, cols, offs, k, found, tok, strtok.buf[..], strtok.save);
    offs' := if found then offs + [tok] else offs;
  }

  lemma {:induction false} ColumnAt(b: seq<char>, save: nat, cols: seq<string>, offs: seq<nat>, k: nat, j: nat)
    requires Cut(b, save, cols, offs, k) && j < |offs|
    ensures Terminated(b, offs[j]) && CStr(b, offs[j]) == cols[j]
    ensures j > 0 ==> offs[j - 1] + |cols[j - 1]| < offs[j]
  {
    assert IsColumn(b, offs[j], cols[j]);
  }

  method ParseRow(buf: array<char>) returns (row: Row)
    requires Terminated(buf[..], 0) && Readable(CStr(buf[..], 0))
    modifies buf
    ensures row == RowOf(old(CStr(buf[..], 0)))
  {
    var strtok := new Strtok(buf);
    ghost var cols := Columns(CStr(buf[..], 0));
    ghost var offs := FirstColumns(strtok, cols);
    var hasTx: bool, txrate: nat, hasRx: bool, rxrate: nat, hasRssi: bool, rssi: nat;
    hasTx, txrate, offs := NextColumn(strtok, cols, offs, 3);
    hasRx, rxrate, offs := NextColumn(strtok, cols, offs, 4);
    hasRssi, rssi, offs := NextColumn(strtok, cols, offs, 5);
    row := ReadFields(strtok, cols, offs, hasTx, txrate, hasRx, rxrate, hasRssi, rssi);
  }

  /** The first three columns: address, association id, channel. */
  method FirstColumns(strtok: Strtok, ghost cols: seq<string>) returns (ghost offs: seq<nat>)
    requires strtok.save == 0 && Terminated(strtok.buf[..], 0)
    requires cols == Columns(CStr(strtok.buf[..], 0))
    modifies strtok, strtok.buf
    ensures Cut(strtok.buf[..], strtok.save, cols, offs, 3)
  {
    assert cols[0..] == cols;
    var hasMac: bool, mac: nat, hasAid: bool, aid: nat, hasChan: bool, chan: nat;
    hasMac, mac, offs := NextColumn(strtok, cols, [], 0);
    hasAid, aid, offs := NextColumn(strtok, cols, offs, 1);
    hasChan, chan, offs := NextColumn(strtok, cols, offs, 2);
  }

  /** The numbers of a record, read once the columns are cut: signal first, then the rates, each
      after a second `strtok` inside its own column. */
  method ReadFields(strtok: Strtok, ghost cols: seq<string>, ghost offs: seq<nat>,
                    hasTx: bool, txrate: nat, hasRx: bool, rxrate: nat, hasRssi: bool, rssi: nat) returns (row: Row)
    requires Cut(strtok.buf[..], strtok.save, cols, offs, 6)
    requires RateReadable(cols, 3) && RateReadable(cols, 4)
    requires hasTx == (3 < |cols|) && (hasTx ==> offs[3] == txrate)
    requires hasRx == (4 < |cols|) && (hasRx ==> offs[4] == rxrate)
    requires hasRssi == (5 < |cols|) && (hasRssi ==> offs[5] == rssi)
    modifies strtok, strtok.buf
    ensures row == RowOfColumns(cols)
  {
    var signal := 0;
    if hasRssi {
      ColumnAt(strtok.buf[..], strtok.save, cols, offs, 6, 5);
      signal := Atoi(CStr(strtok.buf[..], rssi)) - 100;
    }
    if hasTx {
      ColumnAt(strtok.buf[..], strtok.save, cols, offs, 6, 3);
    }
    if hasRx {
      ColumnAt(strtok.buf[..], strtok.save, cols, offs, 6, 4);
    }
    ghost var tx, rx := if hasTx then cols[3] else [], if hasRx then cols[4] else [];
    var down: int, up: int := ReadRates(strtok, hasTx, txrate, tx, hasRx, rxrate, rx);
    row := Row(signal, down, up, true);
  }

  /** The two rates, from columns `tx` and `rx`, the second behind the first. */
  method ReadRates(strtok: Strtok, hasTx: bool, txrate: nat, ghost tx: string,
                   hasRx: bool, rxrate: nat, ghost rx: string)
    returns (down: int, up: int)
    requires hasTx ==> IsColumn(strtok.buf[..], txrate, tx) && TokenStart(tx, MEGA) < |tx|
    requires hasRx ==> IsColumn(strtok.buf[..], rxrate, rx) && TokenStart(rx, MEGA) < |rx|
    requires hasTx && hasRx ==> txrate + |tx| < rxrate
    modifies strtok, strtok.buf
    ensures down == if hasTx then Atoi(HeadToken(tx, MEGA)) else 0
    ensures up == if hasRx then Atoi(HeadToken(rx, MEGA)) else 0
  {
    down, up := 0, 0;
    ghost var b := strtok.buf[..];
    if hasTx {
      down := RateNumber(strtok, txrate);
    }
    if hasRx {
      CStrKept(b, strtok.buf[..], rxrate);
      up := RateNumber(strtok, rxrate);
    }
  }

  /** `atoi(strtok(rate, "M"))`, which writes inside the rate token only: neither in front of it
      nor on its own NUL or behind. */
  method RateNumber(strtok: Strtok, rate: nat) returns (number: int)
    requires Terminated(strtok.buf[..], rate)
    requires TokenStart(CStr(strtok.buf[..], rate), MEGA) < |CStr(strtok.buf[..], rate)|
    modifies strtok, strtok.buf
    ensures number == Atoi(HeadToken(old(CStr(strtok.buf[..], rate)), MEGA))
    ensures KeptOutside(old(strtok.buf[..]), strtok.buf[..], rate)
  {
    ghost var b := strtok.buf[..];
    var found: bool, tok: nat := strtok.First(rate, MEGA);
    TokenWritesInside(b, rate, MEGA, found, tok, strtok.buf[..], strtok.save);
    return Atoi(CStr(strtok.buf[..], tok));
  }

  /** The count `wc -l` printed, stored in an unsigned int. */
  function RowCount(text: string): Uint32 { Wrap(Atoi(text)) }

  /** The array the caller gets: one record per line as far as lines and array go, zeros after. */
  ghost predicate Filled(rows: seq<Row>, lines: seq<string>) {
    forall k :: 0 <= k < |rows| ==> rows[k] == if k < |lines| then RowOf(lines[k]) else ZERO_ROW
  }

  method GetAssociatedDevices(apIndex: int, count: Pipe, table: Pipe)
    returns (status: int, rows: array?<Row>, size: nat)
    requires count != table
    requires count.Valid() && count.pos == 0 && !count.eof
    requires table.Valid() && table.pos == 0 && !table.eof
    requires forall k :: 0 <= k < |Lines(table.output, 0)| && k < RowCount(Captured(count.output, BUFFER_SIZE)) ==>
               Readable(Lines(table.output, 0)[k])
    modifies count, table
    ensures apIndex < 0 ==> status == RETURN_ERR && rows == null && size == 0
    ensures apIndex >= 0 ==> status == RETURN_OK && size == RowCount(Captured(count.output, BUFFER_SIZE))
    ensures apIndex >= 0 ==> (rows == null <==> size == 0)
    ensures rows != null ==> fresh(rows) && rows.Length == size && Filled(rows[..], Lines(table.output, 0))
  {
    rows, size := null, 0;
    if apIndex < 0 {
      return RETURN_ERR, rows, size;
    }
    var buf := new char[BUFFER_SIZE];
    Syscmd(count, buf);
    size := RowCount(CStr(buf[..], 0));
    if size <= 0 {
      return RETURN_OK, rows, size;
    }
    var dev := new Row[size](_ => ZERO_ROW);
    rows := dev;
    ReadTable(table, buf, dev);
    return RETURN_OK, rows, size;
  }

  method ReadTable(table: Pipe, buf: array<char>, dev: array<Row>)
    requires table.Valid() && table.pos == 0 && !table.eof
    requires buf.Length == BUFFER_SIZE
    requires forall k :: 0 <= k < dev.Length ==> dev[k] == ZERO_ROW
    requires forall k :: 0 <= k < |Lines(table.output, 0)| && k < dev.Length ==> Readable(Lines(table.output, 0)[k])
    modifies table, buf, dev
    ensures Filled(dev[..], Lines(table.output, 0))
  {
    ghost var lines := Lines(table.output, 0);
    var assocCnt := 0;
    while !table.eof
      invariant table.Valid()
      invariant FilledTo(dev[..], lines, assocCnt)
      invariant lines[assocCnt..] == Lines(table.output, table.pos)
      decreases |table.output| - table.pos, !table.eof
    {
      var got := NextLine(table, buf, lines, assocCnt);
      if !got {
        break;
      }
      if assocCnt >= dev.Length {
        break;
      }
      var row := ParseRow(buf);
      FillNext(dev[..], lines, assocCnt);
      ghost var filled := dev[..][assocCnt := row];
      dev[assocCnt] := row;
      assert dev[..] == filled;
      assocCnt := assocCnt + 1;
    }
  }

  /** The first `n` records are filled from their lines, the others are empty. */
  ghost predicate FilledTo(rows: seq<Row>, lines: seq<string>, n: nat) {
    && n <= |lines| && n <= |rows|
    && forall k :: 0 <= k < |rows| ==> rows[k] == if k < n then RowOf(lines[k]) else ZERO_ROW
  }

  lemma {:induction false} FillNext(rows: seq<Row>, lines: seq<string>, n: nat)
    requires FilledTo(rows, lines, n) && n < |rows| && n < |lines|
    ensures FilledTo(rows[n := RowOf(lines[n])], lines, n + 1)
  {
  }

  /** One `fgets`: the next piece of the table, or the end of it. */
  method NextLine(table: Pipe, buf: array<char>, ghost lines: seq<string>, ghost k: nat) returns (got: bool)
    requires table.Valid() && buf.Length == BUFFER_SIZE
    requires k <= |lines| && lines[k..] == Lines(table.output, table.pos)
    modifies table, buf
    ensures table.Valid() && old(table.pos) <= table.pos
    ensures !got ==> table.eof && table.pos == old(table.pos)
    ensures got ==> old(table.pos) < table.pos && k < |lines| && lines[k + 1..] == Lines(table.output, table.pos)
    ensures got ==> Terminated(buf[..], 0) && CStr(buf[..], 0) == lines[k]
  {
    ghost var from := table.pos;
    got := table.Gets(buf, 0, LINE_SIZE);
    if got {
      ReadLine(table, buf, from, lines, k);
    }
  }

  /** The line `fgets` just read is the next piece of the table. */
  lemma {:induction false} ReadLine(table: Pipe, buf: array<char>, from: nat, lines: seq<string>, k: nat)
    requires table.Valid() && from < table.pos == ChunkEnd(table.output, from, LINE_SIZE)
    requires k <= |lines| && lines[k..] == Lines(table.output, from)
    requires buf.Length == BUFFER_SIZE && buf[table.pos - from] == '\0'
    requires forall j :: from <= j < table.pos ==> table.output[j] == buf[0 + (j - from)]
    ensures k < |lines| && Terminated(buf[..], 0) && CStr(buf[..], 0) == lines[k]
    ensures lines[k + 1..] == Lines(table.output, table.pos)
  {
    CStrIsSlice(buf[..], 0, table.output, from, table.pos);
    assert lines[k..][0] == lines[k];
    assert lines[k..][1..] == lines[k + 1..];
  }

  // ---------------------------------------------------------------- a table of lines

  /** The line and its newline are read by one `fgets`. */
  predicate Fits(l: string) { |l| <= 198 }

  /** Where `fgets` stops in a newline-free line `l` that stands behind `front`. */
  lemma {:induction false} FirstPiece(front: string, l: string, more: string)
    requires Free(l, NEWLINE)
    ensures var s := front + (l + "\n" + more);
            var e := ChunkEnd(s, |front|, LINE_SIZE);
            && e == |front| + (if Fits(l) then |l| + 1 else LINE_SIZE - 1)
            && s[|front|..e] == if Fits(l) then l + "\n" else l[..LINE_SIZE - 1]
  {
    var s := front + (l + "\n" + more);
    assert forall i :: 0 <= i < |l| ==> s[|front| + i] == l[i];
    assert forall i :: |front| <= i < |front| + |l| ==> s[i] == l[i - |front|];
    UntilIs(s, |front|, |front| + |l|, NEWLINE);
  }

  /** The pieces of a text are the first line, if it fits, or its beginning, and the pieces of
      what is behind that. */
  lemma {:induction false} PiecesOfLine(front: string, l: string, more: string)
    requires Free(l, NEWLINE)
    ensures Fits(l) ==> Lines(front + (l + "\n" + more), |front|)
                        == [l + "\n"] + Lines(front + (l + "\n") + more, |front + (l + "\n")|)
    ensures !Fits(l) ==>
              var piece, rest := l[..LINE_SIZE - 1], l[LINE_SIZE - 1..];
              Lines(front + (l + "\n" + more), |front|)
              == [piece] + Lines(front + piece + (rest + "\n" + more), |front + piece|)
  {
    FirstPiece(front, l, more);
    if Fits(l) {
      assert front + (l + "\n" + more) == front + (l + "\n") + more;
    } else {
      LineParts(l, more);
      assert front + (l[..LINE_SIZE - 1] + (l[LINE_SIZE - 1..] + "\n" + more))
          == front + l[..LINE_SIZE - 1] + (l[LINE_SIZE - 1..] + "\n" + more);
    }
  }

  lemma {:induction false} LineParts(l: string, more: string)
    requires !Fits(l)
    ensures l + "\n" + more == l[..LINE_SIZE - 1] + (l[LINE_SIZE - 1..] + "\n" + more)
  {
  }

  ghost predicate NewlineFree(ls: seq<string>) {
    forall k :: 0 <= k < |ls| ==> Free(ls[k], NEWLINE)
  }

  ghost predicate AllFit(ls: seq<string>) {
    forall k :: 0 <= k < |ls| ==> Fits(ls[k])
  }

  lemma {:induction false} TailFacts(ls: seq<string>)
    requires ls != []
    ensures NewlineFree(ls) ==> Free(ls[0], NEWLINE) && NewlineFree(ls[1..])
    ensures AllFit(ls) <==> Fits(ls[0]) && AllFit(ls[1..])
    ensures JoinLines(ls) == ls[0] + "\n" + JoinLines(ls[1..])
  {
    assert forall k :: 0 < k < |ls| ==> ls[k] == ls[1..][k - 1];
  }

  /** The rest of a line that did not fit, in front of the lines behind it. */
  lemma {:induction false} RestOfLine(ls: seq<string>) returns (rest: seq<string>)
    requires ls != [] && NewlineFree(ls) && !Fits(ls[0])
    ensures |rest| == |ls| && NewlineFree(rest) && |JoinLines(rest)| < |JoinLines(ls)|
    ensures JoinLines(rest) == ls[0][LINE_SIZE - 1..] + "\n" + JoinLines(ls[1..])
  {
    rest := [ls[0][LINE_SIZE - 1..]] + ls[1..];
    assert rest[1..] == ls[1..];
  }

  /** `fgets` delivers at least a piece per line, and no more exactly when every line fits. */
  lemma {:induction false} WhenPiecesAreLines(front: string, ls: seq<string>)
    requires NewlineFree(ls)
    ensures |Lines(front + JoinLines(ls), |front|)| >= |ls|
    ensures |Lines(front + JoinLines(ls), |front|)| == |ls| <==> AllFit(ls)
    decreases |JoinLines(ls)|
  {
    if ls != [] {
      TailFacts(ls);
      PiecesOfLine(front, ls[0], JoinLines(ls[1..]));
      if Fits(ls[0]) {
        WhenPiecesAreLines(front + (ls[0] + "\n"), ls[1..]);
      } else {
        var rest := RestOfLine(ls);
        WhenPiecesAreLines(front + ls[0][..LINE_SIZE - 1], rest);
      }
    }
  }

  /** Up to line k the pieces are the lines exactly when those lines fit; the lines behind do not
      matter. */
  lemma {:induction false} LinesOfTable(front: string, ls: seq<string>, k: nat)
    requires k < |ls| && NewlineFree(ls)
    ensures var pieces := Lines(front + JoinLines(ls), |front|);
            && |pieces| > k
            && ((forall j :: 0 <= j <= k ==> pieces[j] == ls[j] + "\n") <==> forall j :: 0 <= j <= k ==> Fits(ls[j]))
    decreases |ls|
  {
    WhenPiecesAreLines(front, ls);
    TailFacts(ls);
    PiecesOfLine(front, ls[0], JoinLines(ls[1..]));
    assert forall j :: 0 < j < |ls| ==> ls[j] == ls[1..][j - 1];
    if Fits(ls[0]) && k > 0 {
      LinesOfTable(front + (ls[0] + "\n"), ls[1..], k - 1);
    }
  }

  /** A rate that starts with a digit is readable, and cutting it at `M` does not change its number. */
  lemma {:induction false} RateOfDigits(t: string)
    requires t != [] && IsDigit(t[0])
    ensures TokenStart(t, MEGA) < |t| && Atoi(HeadToken(t, MEGA)) == Atoi(t)
  {
    SkipIs(t, 0, 0, MEGA);
    DigitsComeFirst(t);
    var u := HeadToken(t, MEGA);
    assert u == t[..TokenEnd(t, MEGA)];
    ScanOfPrefix(t, TokenEnd(t, MEGA));
    ScanWithoutSign(t);
    ScanWithoutSign(u);
  }

  lemma {:induction false} DigitsComeFirst(t: string)
    requires t != [] && IsDigit(t[0])
    ensures 0 < Skip(t, 0, DIGITS) <= TokenEnd(t, MEGA)
  {
    var n, e := Skip(t, 0, DIGITS), TokenEnd(t, MEGA);
    SkipIs(t, 0, 0, DIGITS);
    SkipIs(t, 0, n, DIGITS);
    FirstTokenFacts(t, MEGA);
  }

  /** Row k is filled from the k-th line's own columns: when the lines up to it fit, any
      blank-separated line of at least six columns whose rate columns start with a digit gives its
      signal and its two rates. */
  lemma {:induction false} RowComesFromItsOwnLine(ls: seq<string>, k: nat, gaps: seq<string>, cols: seq<string>)
    requires k < |ls| && NewlineFree(ls) && forall j :: 0 <= j <= k ==> Fits(ls[j])
    requires |cols| >= 6 && WellSpaced(gaps, cols, {' '}) && Interleave(gaps, cols) == ls[k] + "\n"
    requires IsDigit(cols[3][0]) && IsDigit(cols[4][0])
    ensures var pieces := Lines(JoinLines(ls), 0);
            && k < |pieces|
            && Readable(pieces[k])
            && RowOf(pieces[k]) == Row(Atoi(cols[5]) - 100, Atoi(cols[3]), Atoi(cols[4]), true)
  {
    LinesOfTable([], ls, k);
    assert [] + JoinLines(ls) == JoinLines(ls);
    TokensOfInterleave(gaps, cols, BLANK);
    RateOfDigits(cols[3]);
    RateOfDigits(cols[4]);
  }

  /** Leading `M`s do not hide a rate. */
  lemma {:induction false} RateBehindMs(ms: string, t: string)
    requires (forall i :: 0 <= i < |ms| ==> ms[i] == 'M') && t != [] && IsDigit(t[0])
    ensures TokenStart(ms + t, MEGA) < |ms + t| && Atoi(HeadToken(ms + t, MEGA)) == Atoi(t)
  {
    var e := TokenEnd(t, MEGA);
    RateOfDigits(t);
    FirstTokenFacts(t, MEGA);
    SkipIs(t, 0, 0, MEGA);
    assert forall i :: |ms| <= i < |ms + t| ==> (ms + t)[i] == t[i - |ms|];
    FirstTokenIs(ms + t, |ms|, |ms| + e, MEGA);
    assert (ms + t)[|ms|..|ms| + e] == t[..e];
  }

  // ---------------------------------------------------------------- the whole call

  /** The size is the count that was printed. */
  lemma {:induction false} RowCountOfPrinted(pad: nat, n: nat)
    requires n < TWO32 && pad <= 2035
    ensures RowCount(CountText(pad, n)) == n
    ensures RowCount(Captured(CountText(pad, n), BUFFER_SIZE)) == n
  {
    CountIsCaptured(pad, n, BUFFER_SIZE);
  }

  /** A count that was printed and a table whose lines fit give the caller an array of that size:
      each line's record in turn, as far as lines and array go, and empty records behind. */
  lemma {:induction false} TableIsDelivered(pad: nat, n: nat, ls: seq<string>, rows: seq<Row>)
    requires n < TWO32 && pad <= 2035 && NewlineFree(ls) && AllFit(ls)
    requires |rows| == RowCount(Captured(CountText(pad, n), BUFFER_SIZE))
    requires Filled(rows, Lines(JoinLines(ls), 0))
    ensures |rows| == n
    ensures forall k :: 0 <= k < n ==> rows[k] == if k < |ls| then RowOf(ls[k] + "\n") else Row(0, 0, 0, false)
  {
    RowCountOfPrinted(pad, n);
    WhenPiecesAreLines([], ls);
    assert [] + JoinLines(ls) == JoinLines(ls);
    if ls != [] {
      LinesOfTable([], ls, |ls| - 1);
    }
  }

  // ---------------------------------------------------------------- a line that is too long

  lemma {:induction false} TwoLines(a: string, b: string)
    ensures JoinLines([a, b]) == [] + (a + "\n" + (b + "\n" + []))
  {
    assert [a, b][1..] == [b] && [b][1..] == [];
    assert JoinLines([b]) == b + "\n" + [];
  }

  lemma {:induction false} PieceOfNewline(front: string, more: string)
    ensures Lines(front + ([] + "\n" + more), |front|) == ["\n"] + Lines(front + "\n" + more, |front + "\n"|)
  {
    PiecesOfLine(front, [], more);
    assert [] + "\n" == "\n";
  }

  lemma {:induction false} PieceOfLong(long: string, more: string)
    requires |long| == LINE_SIZE - 1 && Free(long, NEWLINE)
    ensures Lines([] + (long + "\n" + more), 0) == [long] + Lines(long + ([] + "\n" + more), |long|)
  {
    PiecesOfLine([], long, more);
    assert long[..LINE_SIZE - 1] == long && long[LINE_SIZE - 1..] == [];
    assert [] + long == long;
  }

  lemma {:induction false} LongLinePieces(long: string, l: string)
    requires |long| == LINE_SIZE - 1 && Free(long, NEWLINE) && Free(l, NEWLINE) && Fits(l)
    ensures Lines(JoinLines([long, l]), 0) == [long, "\n", l + "\n"]
  {
    TwoLines(long, l);
    PieceOfLong(long, l + "\n" + []);
    PieceOfNewline(long, l + "\n" + []);
    PiecesOfLine(long + "\n", l, []);
  }

  lemma {:induction false} NewlineRow()
    ensures RowOf("\n") == Row(0, 0, 0, true)
  {
    FirstToken([], "\n", [], BLANK);
    assert [] + "\n" + [] == "\n";
  }

  /** A first line of 199 characters, one too long, shifts the rows: row 1 comes from its newline
      alone and has zeros for the numbers of whatever station the second line describes. */
  lemma {:induction false} LongLineShiftsRows(long: string, l: string, gaps: seq<string>, cols: seq<string>)
    requires |long| == 199 && Free(long, NEWLINE) && Free(l, NEWLINE) && Fits(l)
    requires |cols| >= 6 && WellSpaced(gaps, cols, {' '}) && Interleave(gaps, cols) == l + "\n"
    requires IsDigit(cols[3][0]) && IsDigit(cols[4][0])
    ensures var pieces := Lines(JoinLines([long, l]), 0);
            && |pieces| == 3 && RowOf(pieces[1]) == Row(0, 0, 0, true)
            && RowOf(l + "\n") == Row(Atoi(cols[5]) - 100, Atoi(cols[3]), Atoi(cols[4]), true)
  {
    LongLinePieces(long, l);
    NewlineRow();
    TokensOfInterleave(gaps, cols, BLANK);
    RateOfDigits(cols[3]);
    RateOfDigits(cols[4]);
  }
}
