/**
 Remaining lease, renewal (T1) and rebinding (T2) time of the `udhcpc` back end: unsigned 32-bit
 arithmetic over three reads of a record and a clock that go on changing between the reads.
 */
module LeaseTimers {
  import opened CText
  import opened CBuffers
  import opened CTypes

  function Sub(a: int, b: int): Uint32 { Wrap(a - b) }

  lemma {:induction false} SubOfWraps(x: int, y: int)
    ensures Sub(Wrap(x), Wrap(y)) == Sub(x, y)
  {
    var q, r := x / TWO32, y / TWO32;
    assert x - y == (Wrap(x) - Wrap(y)) + TWO32 * (q - r);
    WrapPeriod(Wrap(x) - Wrap(y), q - r);
  }

  lemma {:induction false} NegativeWraps(s: int)
    requires 0 < s < TWO32
    ensures Wrap(0 - s) == TWO32 - s
  {
    WrapPeriod(TWO32 - s, -1);
  }

  lemma {:induction false} WrapPeriod(x: int, q: int)
    ensures Wrap(x + TWO32 * q) == Wrap(x)
  {
    assert x + TWO32 * q == TWO32 * (x / TWO32 + q) + Wrap(x);
  }

  // ---------------------------------------------------------------- the environment

  /** Lease length, uptime at binding, uptime now; all in seconds. */
  datatype World = World(lease: Uint32, start: nat, uptime: nat)

  datatype Event = Tick(seconds: nat) | Renew(lease: Uint32)

  function Next(w: World, e: Event): World {
    match e
    case Tick(seconds) => w.(uptime := w.uptime + seconds)
    case Renew(lease) => World(lease, w.uptime, w.uptime)
  }

  function After(w: World, es: seq<Event>): World
    decreases |es|
  {
    if es == [] then w else After(Next(w, es[0]), es[1..])
  }

  lemma {:induction false} AfterOne(w: World, e: Event)
    ensures After(w, [e]) == Next(w, e)
  {
    assert [e][1..] == [];
  }

  ghost predicate Consistent(w: World) { w.start <= w.uptime }

  /** The lease length last announced, or the one in force before. */
  function LastLease(es: seq<Event>, lease: Uint32): Uint32
    decreases |es|
  {
    if es == [] then lease else LastLease(es[1..], if es[0].Renew? then es[0].lease else lease)
  }

  function Seconds(es: seq<Event>): nat
    decreases |es|
  {
    if es == [] then 0 else (if es[0].Tick? then es[0].seconds else 0) + Seconds(es[1..])
  }

  predicate Renews(es: seq<Event>)
    decreases |es|
  {
    es != [] && (es[0].Renew? || Renews(es[1..]))
  }

  /** The seconds that pass before the last binding among the events, if there is one. */
  function SecondsUpToRenew(es: seq<Event>): nat
    decreases |es|
  {
    if !Renews(es) then 0 else (if es[0].Tick? then es[0].seconds else 0) + SecondsUpToRenew(es[1..])
  }

  /** The world after any events, read off the events: clock and start only go up, and the start
      never passes the clock. */
  lemma {:induction false} TimeGoesOn(w: World, es: seq<Event>)
    requires Consistent(w)
    ensures After(w, es) == World(LastLease(es, w.lease),
                                  if Renews(es) then w.uptime + SecondsUpToRenew(es) else w.start,
                                  w.uptime + Seconds(es))
    ensures SecondsUpToRenew(es) <= Seconds(es) && Consistent(After(w, es))
    decreases |es|
  {
    if es != [] {
      TimeGoesOn(Next(w, es[0]), es[1..]);
    }
  }

  // ---------------------------------------------------------------- the code

  datatype Deadline = Lease | Renewal | Rebinding

  /** `lease_time`, `lease_time/2` and `lease_time*7/8` on unsigned ints. */
  function Limit(d: Deadline, lease: Uint32): Uint32 {
    match d
    case Lease => lease
    case Renewal => lease / 2
    case Rebinding => Wrap(lease * 7) / 8
  }

  /** The longest lease whose product by 7 is below 2^32. */
  const LONGEST_FOR_T2 := 613566756

  function Remaining(d: Deadline, lease: Uint32, start: int, uptime: int): Uint32 {
    Sub(Limit(d, lease), Sub(uptime, start))
  }

  /** The value computed when the lease is read after `before`, the start after `between` and the
      clock after `last`. */
  ghost function Report(d: Deadline, w: World, before: seq<Event>, between: seq<Event>, last: seq<Event>): Uint32 {
    var w1 := After(w, before);
    var w2 := After(w1, between);
    Remaining(d, w1.lease, w2.start, After(w2, last).uptime)
  }

  lemma {:induction false} ReadBack(n: nat)
    ensures Atoi(PrintNat(n)) == n
  {
    ScanPrinted(n, []);
    assert PrintInt(n) + [] == PrintNat(n);
  }

  /** The `sysevent` record and the clock, with the world they describe. */
  class Wan {
    var lease: Uint32
    var start: nat
    var uptime: nat

    ghost function Now(): World
      reads this
    {
      World(lease, start, uptime)
    }

    constructor (w: World)
      ensures Now() == w
    {
      lease, start, uptime := w.lease, w.start, w.uptime;
    }

    /** What happens while the caller is between two reads. */
    method Pass(es: seq<Event>)
      modifies this
      ensures Now() == After(old(Now()), es)
    {
      for i := 0 to |es|
        invariant After(old(Now()), es) == After(Now(), es[i..])
      {
        ghost var w := Now();
        match es[i] {
          case Tick(seconds) => uptime := uptime + seconds;
          case Renew(length) => lease, start := length, uptime;
        }
        assert es[i..][1..] == es[i + 1..];
      }
    }

    /** `sysevent_get`: the text of a number, or a failure. */
    method Get(works: bool, number: nat) returns (text: Option<string>)
      ensures text == if works then Some(PrintNat(number)) else None
    {
      text := if works then Some(PrintNat(number)) else None;
    }

    /** One event read with its `atoi` into an unsigned int. */
    method Read(works: bool, number: nat) returns (ok: bool, value: Uint32)
      ensures ok == works && (ok ==> value == Wrap(number))
    {
      var text := Get(works, number);
      if text.None? {
        return false, 0;
      }
      ReadBack(number);
      return true, Wrap(Atoi(text.value));
    }
  }

  lemma {:induction false} ReportFromReads(d: Deadline, w: World,
      before: seq<Event>, between: seq<Event>, last: seq<Event>)
    ensures var w1 := After(w, before);
            var w2 := After(w1, between);
            Sub(Limit(d, w1.lease), Sub(Wrap(After(w2, last).uptime), Wrap(w2.start)))
            == Report(d, w, before, between, last)
  {
    var w2 := After(After(w, before), between);
    SubOfWraps(After(w2, last).uptime, w2.start);
  }

  /** The reads, in this order: lease, start, uptime; `before`, `between` and `last` happen in
      front of them. */
  method ReadRecord(wan: Wan, before: seq<Event>, between: seq<Event>, last: seq<Event>,
                    leaseWorks: bool, startWorks: bool)
    returns (ok: bool, leaseTime: Uint32, startTime: Uint32, upTime: Uint32)
    modifies wan
    ensures ok == (leaseWorks && startWorks)
    ensures ok ==> leaseTime == After(old(wan.Now()), before).lease
    ensures ok ==> startTime == Wrap(After(After(old(wan.Now()), before), between).start)
    ensures ok ==> wan.Now() == After(After(After(old(wan.Now()), before), between), last) && upTime == Wrap(wan.uptime)
  {
    leaseTime, startTime, upTime := 0, 0, 0;
    wan.Pass(before);
    ok, leaseTime := wan.Read(leaseWorks, wan.lease);
    if !ok {
      return;
    }
    wan.Pass(between);
    ok, startTime := wan.Read(startWorks, wan.start);
    if !ok {
      return;
    }
    wan.Pass(last);
    upTime := Wrap(wan.uptime);
  }

  /** The three getters differ in the limit only. A failed read leaves the caller's value alone. */
  method GetRemaining(wan: Wan, d: Deadline, before: seq<Event>, between: seq<Event>, last: seq<Event>,
                      leaseWorks: bool, startWorks: bool, oldValue: Uint32) returns (status: int, value: Uint32)
    modifies wan
    ensures !leaseWorks || !startWorks ==> status == STATUS_FAILURE && value == oldValue
    ensures leaseWorks && startWorks ==>
              status == STATUS_SUCCESS && value == Report(d, old(wan.Now()), before, between, last)
  {
    ReportFromReads(d, wan.Now(), before, between, last);
    var ok: bool, leaseTime: Uint32, startTime: Uint32, upTime: Uint32 :=
      ReadRecord(wan, before, between, last, leaseWorks, startWorks);
    if !ok {
      return STATUS_FAILURE, oldValue;
    }
    return STATUS_SUCCESS, Sub(Limit(d, leaseTime), Sub(upTime, startTime));
  }

  const MAX_LINE_SIZE: nat := 64

  /** What one `fgets` reads of the uptime file. */
  function FirstLine(output: string): string { output[..ChunkEnd(output, 0, MAX_LINE_SIZE)] }

  function UpTime(output: string): int { Atoi(HeadToken(FirstLine(output), {' ', '.'})) }

  /** `dhcpv4c_get_up_time`: the first token of `/proc/uptime`, cut at a blank or a dot. */
  method GetUpTime(file: Pipe, oldValue: int) returns (status: int, upTime: int)
    requires file.Valid() && file.pos == 0 && !file.eof
    requires file.output != [] ==>
               TokenStart(FirstLine(file.output), {' ', '.'}) < |FirstLine(file.output)|
    modifies file
    ensures file.output == [] ==> status == -1 && upTime == oldValue
    ensures file.output != [] ==> status == 0 && upTime == UpTime(file.output)
  {
    var line := new char[MAX_LINE_SIZE];
    var got := file.Gets(line, 0, MAX_LINE_SIZE);
    if !got {
      return -1, oldValue;
    }
    assert forall j :: 0 <= j < file.pos ==> file.output[j] == line[0 + (j - 0)];
    CStrIsSlice(line[..], 0, file.output, 0, file.pos);
    var strtok := new Strtok(line);
    var found: bool, tok: nat := strtok.First(0, {' ', '.'});
    return 0, Atoi(CStr(line[..], tok));
  }

  /** The seconds are read off whatever fraction and idle time follow. */
  lemma {:induction false} UpTimeOfLine(seconds: nat, rest: string)
    ensures Atoi(HeadToken(PrintNat(seconds) + "." + rest, {' ', '.'})) == seconds
  {
    var digits := PrintNat(seconds);
    var text := digits + "." + rest;
    assert forall i :: 0 <= i < |digits| ==> text[i] == digits[i] && digits[i] in DIGITS;
    FirstTokenIs(text, 0, |digits|, {' ', '.'});
    assert HeadToken(text, {' ', '.'}) == digits;
    ReadBack(seconds);
  }

  /** The same through the line buffer, whatever is cut off behind it. */
  lemma {:induction false} UpTimeIsRead(seconds: Uint32, rest: string)
    ensures UpTime(PrintNat(seconds) + "." + rest) == seconds
  {
    var digits := PrintNat(seconds);
    var output := digits + "." + rest;
    Print32(seconds);
    assert forall i :: 0 <= i < |digits| ==> output[i] == digits[i] && digits[i] in DIGITS;
    UntilIs(output, 0, Until(output, 0, NEWLINE), NEWLINE);
    var e := ChunkEnd(output, 0, MAX_LINE_SIZE);
    assert e > |digits|;
    assert output[..e] == digits + "." + output[|digits| + 1..e];
    UpTimeOfLine(seconds, output[|digits| + 1..e]);
  }

  // ---------------------------------------------------------------- what the reads add up to

  /** Seconds since binding. */
  ghost function Age(w: World): int { w.uptime - w.start }

  /** Seconds until the deadline, negative behind it. */
  ghost function TrueRemaining(d: Deadline, w: World): int { w.start + Limit(d, w.lease) - w.uptime }

  /** Whatever happens between the reads, the elapsed time they give is not negative. While it is
      within the limit, the report is the limit less that time, and it does not exceed the true
      remaining time at the last read exactly when the limit of the lease that was read is at most
      the limit of the lease last announced after it, plus the time a binding behind the start
      read has gained: the age the start was read at and the seconds up to that binding. */
  lemma {:induction false} ReportIsSafe(d: Deadline, w: World,
      before: seq<Event>, between: seq<Event>, last: seq<Event>)
    requires Consistent(w)
    ensures var w1 := After(w, before);
            var w2 := After(w1, between);
            var w3 := After(w2, last);
            var elapsed := w3.uptime - w2.start;
            var reported := Report(d, w, before, between, last);
            var gained := if Renews(last) then Age(w2) + SecondsUpToRenew(last) else 0;
            && elapsed == Age(w2) + Seconds(last) >= 0
            && (elapsed <= Limit(d, w1.lease) ==>
                  && reported == Limit(d, w1.lease) - elapsed
                  && (reported <= TrueRemaining(d, w3) <==>
                      Limit(d, w1.lease) <= Limit(d, LastLease(last, LastLease(between, w1.lease))) + gained))
  {
    var w1 := After(w, before);
    var w2 := After(w1, between);
    TimeGoesOn(w, before);
    TimeGoesOn(w1, between);
    TimeGoesOn(w2, last);
    if After(w2, last).uptime - w2.start <= Limit(d, w1.lease) {
      RemainingUntilDeadline(d, w1.lease, w2.start, After(w2, last).uptime);
    }
  }

  /** Without a binding behind the start read, an unexpired report is safe exactly when the lease
      in force at that read ends no earlier than the one that was read. */
  lemma {:induction false} SafeWhenNotRenewedLast(d: Deadline, w: World,
      before: seq<Event>, between: seq<Event>, last: seq<Event>)
    requires Consistent(w) && !Renews(last)
    requires var w1 := After(w, before);
             After(After(w1, between), last).uptime - After(w1, between).start <= Limit(d, w1.lease)
    ensures var w1 := After(w, before);
            var safe := Report(d, w, before, between, last) <= TrueRemaining(d, After(After(w1, between), last));
            safe == (Limit(d, w1.lease) <= Limit(d, LastLease(between, w1.lease)))
  {
    ReportIsSafe(d, w, before, between, last);
    NoLaterLease(last, LastLease(between, After(w, before).lease));
  }

  lemma {:induction false} NoLaterLease(es: seq<Event>, lease: Uint32)
    requires !Renews(es)
    ensures LastLease(es, lease) == lease
    decreases |es|
  {
    if es != [] {
      NoLaterLease(es[1..], lease);
    }
  }

  /** No event announces a shorter lease, nor, where that matters, one too long to multiply by 7. */
  ghost predicate NoneShorter(d: Deadline, es: seq<Event>, lease: Uint32) {
    forall i :: 0 <= i < |es| && es[i].Renew? ==>
      lease <= es[i].lease && (d == Rebinding ==> es[i].lease <= LONGEST_FOR_T2)
  }

  lemma {:induction false} LastIsNotShorter(d: Deadline, es: seq<Event>, lease: Uint32, now: Uint32)
    requires NoneShorter(d, es, lease)
    requires lease <= now && (d == Rebinding ==> now <= LONGEST_FOR_T2)
    ensures lease <= LastLease(es, now) && (d == Rebinding ==> LastLease(es, now) <= LONGEST_FOR_T2)
    decreases |es|
  {
    if es != [] {
      assert forall i :: 0 <= i < |es| - 1 ==> es[1..][i] == es[i + 1];
      assert es[0] == es[0];
      LastIsNotShorter(d, es[1..], lease, if es[0].Renew? then es[0].lease else now);
    }
  }

  lemma {:induction false} LimitsGrow(d: Deadline, lease: Uint32, longer: Uint32)
    requires lease <= longer && (d == Rebinding ==> longer <= LONGEST_FOR_T2)
    ensures Limit(d, lease) <= Limit(d, longer)
  {
    RebindingIsSevenEighths(lease);
    RebindingIsSevenEighths(longer);
  }

  /** However many bindings and seconds come between the reads, an unexpired report is safe when
      none of those bindings announces a shorter lease than the one that was read. */
  lemma {:induction false} SafeWhenNoneShorter(d: Deadline, w: World,
      before: seq<Event>, between: seq<Event>, last: seq<Event>)
    requires Consistent(w)
    requires var lease := After(w, before).lease;
             && NoneShorter(d, between, lease) && NoneShorter(d, last, lease)
             && (d == Rebinding ==> lease <= LONGEST_FOR_T2)
    ensures var w1 := After(w, before);
            var w2 := After(w1, between);
            var w3 := After(w2, last);
            w3.uptime - w2.start <= Limit(d, w1.lease) ==> Report(d, w, before, between, last) <= TrueRemaining(d, w3)
  {
    var w1 := After(w, before);
    TimeGoesOn(w, before);
    TimeGoesOn(w1, between);
    LastIsNotShorter(d, between, w1.lease, w1.lease);
    LastIsNotShorter(d, last, w1.lease, LastLease(between, w1.lease));
    LimitsGrow(d, w1.lease, LastLease(last, LastLease(between, w1.lease)));
    ReportIsSafe(d, w, before, between, last);
  }

  /** A renewal to a shorter lease between the first two reads makes the report too long. */
  lemma {:induction false} ShorterLeaseIsOverreported()
    ensures var w := World(3600, 0, 100);
            var w2 := After(w, [Renew(60)]);
            Remaining(Lease, w.lease, w2.start, w2.uptime) == 3600 && w2.start + w2.lease - w2.uptime == 60
  {
    AfterOne(World(3600, 0, 100), Renew(60));
  }

  /** Reading the clock before the start, with any events in between, gives a real elapsed time
      exactly when no binding comes behind the first second of them; otherwise the difference
      wraps to a huge number. Read in the code's order it never does (`ReportIsSafe`). */
  lemma {:induction false} ClockMustBeReadLast(w: World, es: seq<Event>)
    requires Consistent(w) && Seconds(es) < TWO32
    ensures var start := After(w, es).start;
            && (w.uptime - start >= 0 <==> !Renews(es) || SecondsUpToRenew(es) == 0)
            && (w.uptime - start < 0 ==> Sub(w.uptime, start) == TWO32 - SecondsUpToRenew(es))
  {
    TimeGoesOn(w, es);
    if After(w, es).start > w.uptime {
      NegativeWraps(SecondsUpToRenew(es));
    }
  }

  /** A remaining time is a real one, no longer than its limit, exactly until its deadline; after
      it the value wraps to a huge one. */
  lemma {:induction false} RemainingUntilDeadline(d: Deadline, lease: Uint32, start: nat, uptime: nat)
    requires start <= uptime < start + TWO32
    ensures Remaining(d, lease, start, uptime) <= Limit(d, lease) <==> uptime - start <= Limit(d, lease)
    ensures uptime - start <= Limit(d, lease) ==>
              Remaining(d, lease, start, uptime) == Limit(d, lease) - (uptime - start)
    ensures uptime - start > Limit(d, lease) ==>
              Remaining(d, lease, start, uptime) == TWO32 + Limit(d, lease) - (uptime - start)
  {
  }

  /** The deadlines of every lease: the lease itself, half of it, and an eighth of what 32 bits
      keep of seven times it, rounded down. */
  lemma {:induction false} DeadlinesOfLease(lease: Uint32)
    ensures Limit(Lease, lease) == lease
    ensures 2 * Limit(Renewal, lease) <= lease <= 2 * Limit(Renewal, lease) + 1
    ensures 8 * Limit(Rebinding, lease) <= 7 * lease % 0x1_0000_0000 <= 8 * Limit(Rebinding, lease) + 7
  {
  }

  /** The multiplication by 7 stays in 32 bits exactly up to 613566756 seconds; T2 is the
      floor of 7/8 of the lease for these leases and no others. */
  lemma {:induction false} RebindingIsSevenEighths(lease: Uint32)
    ensures Limit(Rebinding, lease) == lease * 7 / 8 <==> lease <= LONGEST_FOR_T2
  {
    if lease > LONGEST_FOR_T2 {
      assert lease * 7 >= TWO32;
      assert Wrap(lease * 7) <= lease * 7 - TWO32;
    }
  }

  /** T2 never exceeds the lease, and T1 <= T2 exactly for the leases whose multiplication by 7
      stays in 32 bits. */
  lemma {:induction false} DeadlinesAreOrdered(lease: Uint32)
    ensures Limit(Rebinding, lease) <= Limit(Lease, lease) && Limit(Renewal, lease) <= Limit(Lease, lease)
    ensures Limit(Renewal, lease) <= Limit(Rebinding, lease) <==> lease <= LONGEST_FOR_T2
  {
    RebindingIsSevenEighths(lease);
    if lease > LONGEST_FOR_T2 {
      WrappedIsSmall(lease);
    }
  }

  lemma {:induction false} WrappedIsSmall(lease: Uint32)
    requires lease > LONGEST_FOR_T2
    ensures Wrap(lease * 7) / 8 < lease / 2
  {
  }

  /** While both are running, T1 and T2 remain in their own order, and never longer than the lease. */
  lemma {:induction false} RemainingIsOrdered(lease: Uint32, start: nat, uptime: nat)
    requires start <= uptime && uptime - start <= Limit(Renewal, lease) && uptime - start <= Limit(Rebinding, lease)
    ensures Remaining(Renewal, lease, start, uptime) <= Remaining(Rebinding, lease, start, uptime)
       <==> lease <= LONGEST_FOR_T2
    ensures Remaining(Renewal, lease, start, uptime) <= Remaining(Lease, lease, start, uptime)
    ensures Remaining(Rebinding, lease, start, uptime) <= Remaining(Lease, lease, start, uptime)
  {
    DeadlinesAreOrdered(lease);
    RemainingUntilDeadline(Renewal, lease, start, uptime);
    RemainingUntilDeadline(Rebinding, lease, start, uptime);
    RemainingUntilDeadline(Lease, lease, start, uptime);
  }

  /** When the clock advances by `dt`, a remaining time drops by exactly `dt` if and only if that
      much was left. */
  lemma {:induction false} DropsWithTheClock(d: Deadline, lease: Uint32, start: nat, uptime: nat, dt: nat)
    ensures Remaining(d, lease, start, uptime + dt) == Remaining(d, lease, start, uptime) - dt
       <==> dt <= Remaining(d, lease, start, uptime)
  {
  }

  /** In every state, expired or not, two remaining times differ by what their limits differ. */
  lemma {:induction false} DifferencesAreConstant(d: Deadline, e: Deadline, lease: Uint32, start: nat, uptime: nat)
    ensures Sub(Remaining(d, lease, start, uptime), Remaining(e, lease, start, uptime))
         == Sub(Limit(d, lease), Limit(e, lease))
  {
    var elapsed := Sub(uptime, start);
    SubOfWraps(Limit(d, lease) - elapsed, Limit(e, lease) - elapsed);
  }
}
