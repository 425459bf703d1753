/** `wifi_getBasicTrafficStats`: find four labelled counters in the output of `ifconfig`. */
module TrafficStats {
  import opened CText
  import opened CBuffers
  import opened CTypes
  import opened Capture

  const BUFFER_SIZE: nat := 1280

  function Labels(): seq<string> { ["RX packets:", "TX packets:", "RX bytes:", "TX bytes:"] }

  datatype Stats = Stats(packetsReceived: int, packetsSent: int, bytesReceived: int, bytesSent: int, associations: int)

  /** One `strstr` and the `atoi` behind the label: was it found, the text from it on, the number. */
  function Locate(text: string, mark: string): (bool, string, int) {
    match Find(text, mark)
    case None => (false, [], 0)
    case Some(p) => (true, text[p..], Atoi(text[p + |mark|..]))
  }

  /** The numbers behind the labels from the i-th on, each label searched from where the one
      before was found, up to the first label that is missing. */
  function Counters(labels: seq<string>, text: string, i: nat): (cs: seq<int>)
    requires i <= |labels|
    ensures |cs| <= |labels| - i
    decreases |labels| - i
  {
    if i == |labels| then []
    else
      var (found, rest, value) := Locate(text, labels[i]);
      if found then [value] + Counters(labels, rest, i + 1) else []
  }

  /** The i-th counter, or the zero the record was cleared to. */
  function Field(cs: seq<int>, i: nat): int { if i < |cs| then cs[i] else 0 }

  lemma {:induction false} ShiftFields(v: int, cs: seq<int>)
    ensures Field([v] + cs, 0) == v && Field([v] + cs, 1) == Field(cs, 0)
    ensures Field([v] + cs, 2) == Field(cs, 1) && Field([v] + cs, 3) == Field(cs, 2)
  {
  }

  function Associations(text: string): int {
    match ScanInt(text)
    case None => 0
    case Some(n) => n
  }

  method ReadCounters(labels: seq<string>, text: string) returns (status: int, stats: Stats)
    requires |labels| == 4
    ensures var cs := Counters(labels, text, 0);
            && (status == if |cs| == 4 then RETURN_OK else RETURN_ERR)
            && stats == Stats(Field(cs, 0), Field(cs, 1), Field(cs, 2), Field(cs, 3), 0)
  {
    stats := Stats(0, 0, 0, 0, 0);

    var (found0, pos0, received) := Locate(text, labels[0]);
    if !found0 {
      return RETURN_ERR, stats;
    }
    stats := stats.(packetsReceived := received);
    ShiftFields(received, Counters(labels, pos0, 1));

    var (found1, pos1, sent) := Locate(pos0, labels[1]);
    if !found1 {
      return RETURN_ERR, stats;
    }
    stats := stats.(packetsSent := sent);
    ShiftFields(sent, Counters(labels, pos1, 2));

    var (found2, pos2, bytesReceived) := Locate(pos1, labels[2]);
    if !found2 {
      return RETURN_ERR, stats;
    }
    stats := stats.(bytesReceived := bytesReceived);
    ShiftFields(bytesReceived, Counters(labels, pos2, 3));

    var (found3, pos3, bytesSent) := Locate(pos2, labels[3]);
    if !found3 {
      return RETURN_ERR, stats;
    }
    stats := stats.(bytesSent := bytesSent);
    ShiftFields(bytesSent, Counters(labels, pos3, 4));
    return RETURN_OK, stats;
  }

  /** Status and record for the outputs of the two commands. */
  function Answer(ifconfig: string, stations: string): (int, Stats) {
    var cs := Counters(Labels(), Captured(ifconfig, BUFFER_SIZE), 0);
    if |cs| == 4 then
      (RETURN_OK, Stats(cs[0], cs[1], cs[2], cs[3], Associations(Captured(stations, BUFFER_SIZE))))
    else
      (RETURN_ERR, Stats(Field(cs, 0), Field(cs, 1), Field(cs, 2), Field(cs, 3), 0))
  }

  method GetBasicTrafficStats(ifconfig: Pipe, stations: Pipe) returns (status: int, stats: Stats)
    requires ifconfig != stations
    requires ifconfig.Valid() && ifconfig.pos == 0 && !ifconfig.eof
    requires stations.Valid() && stations.pos == 0 && !stations.eof
    modifies ifconfig, stations
    ensures (status, stats) == Answer(ifconfig.output, stations.output)
  {
    var buf := new char[BUFFER_SIZE];
    Syscmd(ifconfig, buf);
    status, stats := ReadCounters(Labels(), CStr(buf[..], 0));
    if status == RETURN_OK {
      Syscmd(stations, buf);
      stats := stats.(associations := Associations(CStr(buf[..], 0)));
    }
  }

  // ---------------------------------------------------------------- recovery

  /** Labelled counters with filler text around them: filler, label, number, filler, label, ... */
  ghost function Compose(labels: seq<string>, fs: seq<string>, vs: seq<nat>, i: nat): string
    requires |fs| == |vs| + 1 && i <= |vs| <= |labels|
    decreases |vs| - i
  {
    if i == |vs| then fs[i] else fs[i] + labels[i] + PrintNat(vs[i]) + Compose(labels, fs, vs, i + 1)
  }

  /** No filler holds the label that is searched for in it, and no filler continues a number. */
  ghost predicate WellFilled(labels: seq<string>, fs: seq<string>, vs: seq<nat>) {
    && |fs| == |vs| + 1 && |vs| <= |labels|
    && (forall i :: 0 <= i < |fs| && i < |labels| ==> Find(fs[i], labels[i]).None?)
    && (forall i :: 0 < i < |fs| && fs[i] != [] ==> !IsDigit(fs[i][0]))
  }

  /** Every label starts with a letter that comes back neither in it nor in the label before. */
  ghost predicate GoodLabels(labels: seq<string>) {
    forall i :: 0 <= i < |labels| ==>
      && labels[i] != [] && !IsDigit(labels[i][0]) && labels[i][0] !in labels[i][1..]
      && (i > 0 ==> labels[i][0] !in labels[i - 1])
  }

  lemma {:induction false} NoneInFront(prefix: string, f: string, mark: string)
    requires mark != [] && mark[0] !in prefix
    requires Find(f, mark).None?
    ensures Find(prefix + f, mark).None?
  {
    var s := prefix + f;
    forall i: nat ensures !OccursAt(s, mark, i) {
      if i < |prefix| {
        assert s[i + 0] == prefix[i] != mark[0];
      } else {
        assert OccursAt(s, mark, i) ==> OccursAt(f, mark, i - |prefix|) by {
          assert forall k :: 0 <= k < |f| ==> s[|prefix| + k] == f[k];
        }
      }
    }
  }

  lemma {:induction false} LocateComposed(front: string, mark: string, v: nat, rest: string)
    requires mark != [] && mark[0] !in mark[1..]
    requires Find(front, mark).None?
    requires rest != [] ==> !IsDigit(rest[0])
    ensures Locate(front + mark + (PrintNat(v) + rest), mark) == (true, mark + PrintNat(v) + rest, v)
  {
    FindAfterFiller(front, mark, PrintNat(v) + rest);
    SplitAt(front, mark, PrintNat(v), rest);
    ScanPrinted(v, rest);
  }

  lemma {:induction false} SplitAt(front: string, mark: string, number: string, rest: string)
    ensures (front + mark + (number + rest))[|front| + |mark|..] == number + rest
    ensures (front + mark + (number + rest))[|front|..] == mark + number + rest
  {
  }

  lemma {:induction false} ComposeStep(labels: seq<string>, prefix: string, fs: seq<string>, vs: seq<nat>, i: nat)
    requires |fs| == |vs| + 1 && i < |vs| <= |labels|
    ensures prefix + Compose(labels, fs, vs, i)
         == (prefix + fs[i]) + labels[i] + (PrintNat(vs[i]) + Compose(labels, fs, vs, i + 1))
  {
  }

  /** The counters of a composed text are the composed values: all of them, in order, and no
      more when the next label is missing. `prefix` is what the previous search left behind. */
  lemma {:induction false} CountersOfCompose(labels: seq<string>, prefix: string, fs: seq<string>, vs: seq<nat>, i: nat)
    requires GoodLabels(labels) && WellFilled(labels, fs, vs) && i <= |vs|
    requires i < |labels| ==> labels[i][0] !in prefix
    ensures Counters(labels, prefix + Compose(labels, fs, vs, i), i) == vs[i..]
    decreases |vs| - i
  {
    if i < |labels| {
      NoneInFront(prefix, fs[i], labels[i]);
    }
    if i < |vs| {
      var number, rest := PrintNat(vs[i]), Compose(labels, fs, vs, i + 1);
      ComposeStep(labels, prefix, fs, vs, i);
      RestOfNumber(labels, fs, vs, i);
      LocateComposed(prefix + fs[i], labels[i], vs[i], rest);
      LabelNotInFront(labels, i, number);
      CountersOfCompose(labels, labels[i] + number, fs, vs, i + 1);
      TailStep(vs, i);
    }
  }

  lemma {:induction false} TailStep(vs: seq<nat>, i: nat)
    requires i < |vs|
    ensures vs[i..] == [vs[i]] + vs[i + 1..]
  {
  }

  lemma {:induction false} LabelNotInFront(labels: seq<string>, i: nat, number: string)
    requires GoodLabels(labels) && i < |labels| && AllDigits(number)
    ensures i + 1 < |labels| ==> labels[i + 1][0] !in labels[i] + number
  {
    if i + 1 < |labels| {
      assert forall k :: 0 <= k < |number| ==> number[k] in DIGITS;
    }
  }

  lemma {:induction false} RestOfNumber(labels: seq<string>, fs: seq<string>, vs: seq<nat>, i: nat)
    requires GoodLabels(labels) && WellFilled(labels, fs, vs) && i < |vs|
    ensures var rest := Compose(labels, fs, vs, i + 1);
            rest != [] ==> !IsDigit(rest[0])
  {
  }

  /** The last filler of a composed text is its end. */
  lemma {:induction false} ComposeEnds(labels: seq<string>, fs: seq<string>, f: string, vs: seq<nat>, i: nat)
    requires |fs| == |vs| + 1 && i <= |vs| <= |labels|
    ensures Compose(labels, fs[|vs| := f], vs, i) == Compose(labels, fs[|vs| := []], vs, i) + f
    decreases |vs| - i
  {
    if i < |vs| {
      ComposeEnds(labels, fs, f, vs, i + 1);
      Regroup(fs[i], labels[i], PrintNat(vs[i]), Compose(labels, fs[|vs| := []], vs, i + 1), f);
    }
  }

  lemma {:induction false} Regroup(a: string, b: string, c: string, d: string, e: string)
    ensures a + b + c + (d + e) == a + b + c + d + e
  {
  }

  lemma {:induction false} NoneInPrefix(f: string, m: nat, mark: string)
    requires m <= |f| && Find(f, mark).None?
    ensures Find(f[..m], mark).None?
  {
    forall i: nat ensures !OccursAt(f[..m], mark, i) {
      assert OccursAt(f[..m], mark, i) ==> OccursAt(f, mark, i);
    }
  }

  lemma {:induction false} ShorterLastFiller(labels: seq<string>, fs: seq<string>, vs: seq<nat>, m: nat)
    requires WellFilled(labels, fs, vs) && m <= |fs[|vs|]|
    ensures WellFilled(labels, fs[|vs| := fs[|vs|][..m]], vs)
  {
    if |vs| < |labels| {
      NoneInPrefix(fs[|vs|], m, labels[|vs|]);
    }
  }

  /** Cutting a composed text behind its last number shortens the last filler. */
  lemma {:induction false} CutCompose(labels: seq<string>, fs: seq<string>, vs: seq<nat>, n: nat)
    requires |fs| == |vs| + 1 && |vs| <= |labels|
    requires |Compose(labels, fs[|vs| := []], vs, 0)| <= n <= |Compose(labels, fs, vs, 0)|
    ensures var m := n - |Compose(labels, fs[|vs| := []], vs, 0)|;
            && m <= |fs[|vs|]|
            && Compose(labels, fs, vs, 0)[..n] == Compose(labels, fs[|vs| := fs[|vs|][..m]], vs, 0)
  {
    var head, f := Compose(labels, fs[|vs| := []], vs, 0), fs[|vs|];
    ComposeEnds(labels, fs, f, vs, 0);
    assert fs[|vs| := f] == fs;
    ComposeEnds(labels, fs, f[..n - |head|], vs, 0);
  }

  lemma {:induction false} CountersOfWhole(labels: seq<string>, fs: seq<string>, vs: seq<nat>)
    requires GoodLabels(labels) && WellFilled(labels, fs, vs)
    ensures Counters(labels, Compose(labels, fs, vs, 0), 0) == vs
  {
    CountersOfCompose(labels, [], fs, vs, 0);
    assert [] + Compose(labels, fs, vs, 0) == Compose(labels, fs, vs, 0);
  }

  /** A capture that holds the last number is the text with a shorter last filler. */
  lemma {:induction false} CaptureOfCompose(labels: seq<string>, fs: seq<string>, vs: seq<nat>, size: nat)
    returns (m: nat)
    requires |fs| == |vs| + 1 && |vs| <= |labels|
    requires |Compose(labels, fs[|vs| := []], vs, 0)| + 2 <= size
    ensures m <= |fs[|vs|]|
    ensures Captured(Compose(labels, fs, vs, 0), size) == Compose(labels, fs[|vs| := fs[|vs|][..m]], vs, 0)
  {
    var text, head := Compose(labels, fs, vs, 0), Compose(labels, fs[|vs| := []], vs, 0);
    var n := CaptureEnd(text, 0, size);
    CaptureIsWholeOrFull(text, 0, size);
    assert |head| <= |text| by {
      ComposeEnds(labels, fs, fs[|vs|], vs, 0);
      assert fs[|vs| := fs[|vs|]] == fs;
    }
    m := n - |head|;
    CutCompose(labels, fs, vs, n);
  }

  lemma {:induction false} CountersOfCapture(labels: seq<string>, fs: seq<string>, vs: seq<nat>, size: nat)
    requires GoodLabels(labels) && WellFilled(labels, fs, vs)
    requires |Compose(labels, fs[|vs| := []], vs, 0)| + 2 <= size
    ensures Counters(labels, Captured(Compose(labels, fs, vs, 0), size), 0) == vs
  {
    var m := CaptureOfCompose(labels, fs, vs, size);
    ShorterLastFiller(labels, fs, vs, m);
    CountersOfWhole(labels, fs[|vs| := fs[|vs|][..m]], vs);
  }

  /** From any `ifconfig` text that holds the first `|vs|` labels in order with values in `int`
      range, and not the next one, exactly those counters are recovered, if the text up to the end
      of the last number fits the buffer; what follows may be of any length and be cut anywhere.
      All four labels make the call succeed, fewer leave the remaining counters at zero. */
  lemma {:induction false} CountersAreRecovered(fs: seq<string>, vs: seq<nat>)
    requires WellFilled(Labels(), fs, vs)
    requires forall i :: 0 <= i < |vs| ==> vs[i] < 0x8000_0000
    requires |Compose(Labels(), fs[|vs| := []], vs, 0)| <= 1278
    ensures Counters(Labels(), Captured(Compose(Labels(), fs, vs, 0), BUFFER_SIZE), 0) == vs
  {
    LabelsAreGood();
    CountersOfCapture(Labels(), fs, vs, BUFFER_SIZE);
  }

  lemma {:induction false} AssociationsOfPrinted(pad: nat, n: nat)
    requires n < TWO32 && pad <= 1267
    ensures Associations(CountText(pad, n)) == n
    ensures Associations(Captured(CountText(pad, n), BUFFER_SIZE)) == n
  {
    CountIsCaptured(pad, n, BUFFER_SIZE);
  }

  /** The whole call on such a text and a printed station count: with all four values it succeeds
      with them and the count; with fewer it fails with those, zeros behind them and no count. */
  lemma {:induction false} AnswerOfCompose(fs: seq<string>, vs: seq<nat>, pad: nat, n: nat)
    requires WellFilled(Labels(), fs, vs) && n < TWO32 && pad <= 1267
    requires forall i :: 0 <= i < |vs| ==> vs[i] < 0x8000_0000
    requires |Compose(Labels(), fs[|vs| := []], vs, 0)| <= 1278
    ensures var v := (i: nat) => if i < |vs| then vs[i] else 0;
            Answer(Compose(Labels(), fs, vs, 0), CountText(pad, n))
            == (if |vs| == 4 then 0 else -1, Stats(v(0), v(1), v(2), v(3), if |vs| == 4 then n else 0))
  {
    CountersAreRecovered(fs, vs);
    AssociationsOfPrinted(pad, n);
  }

  lemma {:induction false} LabelsAreGood()
    ensures GoodLabels(Labels())
  {
    var a, b, c, d := "RX packets:", "TX packets:", "RX bytes:", "TX bytes:";
    assert Labels() == [a, b, c, d];
  }
}
