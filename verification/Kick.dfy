/**
 `wifi_kickApAclAssociatedDevices`: kick the associated stations the access list forbids.

 Membership is decided by a case-insensitive substring search in the text of the other list.
 The results say when that stand-in is exact, and what the 512-byte capture of the station
 list leaves out.
 */
module Kick {
  import opened CText
  import opened CBuffers
  import opened Capture

  const CRLF: set<char> := {'\r', '\n'}
  const LIST_SIZE: nat := 512
  const MAC_LENGTH: nat := 17

  // ---------------------------------------------------------------- the code

  /** The entries of `ts`, in order, that the kick loop picks against the text of the other list. */
  function Picked(ts: seq<string>, text: string, present: bool): seq<string> {
    if ts == [] then []
    else if |ts[0]| >= MAC_LENGTH && ContainsNoCase(text, ts[0]) == present then
      [ts[0]] + Picked(ts[1..], text, present)
    else Picked(ts[1..], text, present)
  }

  function Kicks(enable: bool, acl: string, assoc: string): seq<string> {
    if |assoc| < MAC_LENGTH then []
    else if enable then Picked(Tokens(acl, CRLF), assoc, true)
    else Picked(Tokens(assoc, CRLF), acl, false)
  }

  lemma {:induction false} PickedStep(kicked: seq<string>, t: string, ts: seq<string>, text: string, present: bool)
    ensures kicked + Picked([t] + ts, text, present)
         == (if |t| >= MAC_LENGTH && ContainsNoCase(text, t) == present then kicked + [t] else kicked)
            + Picked(ts, text, present)
  {
  }

  /** The `strtok` loop, shared by both modes: walk `list`, test each entry against `text`. */
  method KickLoop(list: array<char>, text: array<char>, present: bool) returns (kicked: seq<string>)
    requires list != text && Terminated(list[..], 0) && Terminated(text[..], 0)
    modifies list
    ensures kicked == Picked(Tokens(old(CStr(list[..], 0)), CRLF), old(CStr(text[..], 0)), present)
  {
    kicked := [];
    var other := CStr(text[..], 0);
    ghost var all := Tokens(CStr(list[..], 0), CRLF);
    var strtok := new Strtok(list);
    var found: bool, tok: nat := strtok.First(0, CRLF);
    PendingIsRest(old(list[..]), 0, found, tok, list[..], strtok.save);
    while found
      invariant strtok.buf == list && Terminated(list[..], strtok.save)
      invariant CStr(text[..], 0) == other
      invariant found ==> tok < strtok.save && Terminated(list[..], tok)
      invariant Picked(all, other, present)
             == kicked + Picked(Pending(list[..], found, tok, strtok.save), other, present)
      decreases list.Length - strtok.save, found
    {
      var mac := CStr(list[..], tok);
      ghost var b, p := list[..], strtok.save;
      PickedStep(kicked, mac, Tokens(CStr(b, p), CRLF), other, present);
      if |mac| >= MAC_LENGTH && ContainsNoCase(CStr(text[..], 0), mac) == present {
        kicked := kicked + [mac];
      }
      found, tok := strtok.Next(CRLF);
      PendingIsRest(b, p, found, tok, list[..], strtok.save);
    }
  }

  /** The entries the loop still has to look at. */
  ghost function Pending(b: seq<char>, found: bool, tok: nat, save: nat): seq<string>
    requires save <= |b| && (found ==> tok <= |b|)
  {
    if found then [CStr(b, tok)] + Tokens(CStr(b, save), CRLF) else []
  }

  lemma {:induction false} PendingIsRest(b: seq<char>, p: nat, found: bool, tok: nat, b': seq<char>, save: nat)
    requires Terminated(b, p) && TokenTaken(b, p, CRLF, found, tok, b', save)
    ensures Terminated(b', save) && p <= save
    ensures found ==> Terminated(b', tok) && p <= tok < save && CStr(b', tok) != []
    ensures Pending(b', found, tok, save) == Tokens(CStr(b, p), CRLF)
  {
  }

  method KickAclAssociatedDevices(aclText: string, stations: Pipe, enable: bool) returns (kicked: seq<string>)
    requires |aclText| < LIST_SIZE && Free(aclText, NUL)
    requires stations.Valid() && stations.pos == 0 && !stations.eof
    modifies stations
    ensures kicked == Kicks(enable, aclText, Captured(stations.output, LIST_SIZE))
  {
    var aclArray := new char[LIST_SIZE](_ => '\0');
    var assocArray := new char[LIST_SIZE](_ => '\0');
    forall i | 0 <= i < |aclText| {
      aclArray[i] := aclText[i];
    }
    CStrIs(aclArray[..], 0, aclText);
    Syscmd(stations, assocArray);
    CStrIs(aclArray[..], 0, aclText);
    if |CStr(assocArray[..], 0)| < MAC_LENGTH {
      return [];
    }
    if enable {
      kicked := KickLoop(aclArray, assocArray, true);
    } else {
      kicked := KickLoop(assocArray, aclArray, false);
    }
  }

  // ---------------------------------------------------------------- substring search versus membership

  /** A delimiter-free stretch of a text lies inside one of its tokens. */
  lemma {:induction false} RunInToken(s: string, r: string, i: nat, delims: set<char>) returns (j: nat, o: nat)
    requires r != [] && Free(r, delims) && OccursAt(s, r, i)
    ensures j < |Tokens(s, delims)| && OccursAt(Tokens(s, delims)[j], r, o)
    decreases |s|
  {
    var e := TokenEnd(s, delims);
    RunInHeadOrTail(s, r, i, delims);
    var ts := Tokens(TailText(s, delims), delims);
    assert Tokens(s, delims) == [HeadToken(s, delims)] + ts;
    if i < e {
      j, o := 0, i - TokenStart(s, delims);
    } else {
      var j' := 0;
      j', o := RunInToken(TailText(s, delims), r, i - (e + 1), delims);
      j := j' + 1;
      assert Tokens(s, delims)[j] == ts[j'];
    }
  }

  lemma {:induction false} RunInHeadOrTail(s: string, r: string, i: nat, delims: set<char>)
    requires r != [] && Free(r, delims) && OccursAt(s, r, i)
    ensures var a, e := TokenStart(s, delims), TokenEnd(s, delims);
            && a < |s| && a <= i
            && if i < e then OccursAt(HeadToken(s, delims), r, i - a)
               else i > e && |TailText(s, delims)| < |s| && OccursAt(TailText(s, delims), r, i - (e + 1))
  {
    var a, e := TokenStart(s, delims), TokenEnd(s, delims);
    FirstTokenFacts(s, delims);
    assert r[0] !in delims && s[i + 0] == r[0];
    assert forall k :: i <= k < i + |r| ==> s[k] == r[k - i];
    if i >= e {
      assert TailText(s, delims) == s[e + 1..];
    }
  }

  lemma {:induction false} OccursBehind(front: string, s: string, t: string, i: nat)
    requires OccursAt(s, t, i)
    ensures OccursAt(front + s, t, |front| + i)
  {
    forall k | 0 <= k < |t| ensures (front + s)[|front| + i + k] == t[k] {
      assert s[i + k] == t[k];
    }
  }

  lemma {:induction false} PieceOccurs(gaps: seq<string>, ts: seq<string>, j: nat) returns (i: nat)
    requires |gaps| == |ts| + 1 && j < |ts|
    ensures OccursAt(Interleave(gaps, ts), ts[j], i)
    decreases |ts|
  {
    var more := Interleave(gaps[1..], ts[1..]);
    if j == 0 {
      assert OccursAt(gaps[0] + ts[0] + more, ts[0], |gaps[0]|);
      i := |gaps[0]|;
    } else {
      var at := PieceOccurs(gaps[1..], ts[1..], j - 1);
      OccursBehind(gaps[0] + ts[0], more, ts[j], at);
      i := |gaps[0] + ts[0]| + at;
    }
  }

  lemma {:induction false} TokenOccurs(s: string, j: nat, delims: set<char>) returns (i: nat)
    requires j < |Tokens(s, delims)|
    ensures OccursAt(s, Tokens(s, delims)[j], i)
    ensures Tokens(s, delims)[j] != [] && Free(Tokens(s, delims)[j], delims)
  {
    var gaps := TokensHaveGaps(s, delims);
    i := PieceOccurs(gaps, Tokens(s, delims), j);
  }

  ghost predicate Listed(t: string, ls: seq<string>) {
    exists i :: 0 <= i < |ls| && EqualNoCase(ls[i], t)
  }

  ghost predicate Contained(t: string, ls: seq<string>) {
    exists i :: 0 <= i < |ls| && ContainsNoCase(ls[i], t)
  }

  lemma {:induction false} OccursInLower(text: string, t: string, i: nat)
    ensures OccursAt(Lower(text), Lower(t), i) ==> ContainsNoCase(text, t)
  {
  }

  /** Substring search cannot cross a line end: a needle without line breaks is found in a text
      exactly when it is in one of the lines. */
  lemma {:induction false} FoundIffContained(text: string, t: string)
    requires t != [] && Free(t, CRLF)
    ensures ContainsNoCase(text, t) <==> Contained(t, Tokens(text, CRLF))
  {
    var ts := Tokens(text, CRLF);
    var found := Find(Lower(text), Lower(t));
    if found.Some? {
      FoundIsContained(text, t, found.value);
    }
    if Contained(t, ts) {
      var j :| 0 <= j < |ts| && ContainsNoCase(ts[j], t);
      ContainedIsFound(text, t, j);
    }
  }

  lemma {:induction false} FoundIsContained(text: string, t: string, i: nat)
    requires t != [] && Free(t, CRLF)
    requires OccursAt(Lower(text), Lower(t), i)
    ensures Contained(t, Tokens(text, CRLF))
  {
    var r := text[i..i + |t|];
    forall k | 0 <= k < |t| ensures LowerChar(r[k]) == LowerChar(t[k]) {
      assert Lower(text)[i + k] == Lower(t)[k];
    }
    assert Free(r, CRLF);
    var j, o := RunInToken(text, r, i, CRLF);
    var u := Tokens(text, CRLF)[j];
    forall k | 0 <= k < |t| ensures Lower(u)[o + k] == Lower(t)[k] {
      assert u[o + k] == r[k];
    }
    OccursInLower(u, t, o);
  }

  lemma {:induction false} OccursInside(s: string, u: string, i: nat, t: string, o: nat)
    requires OccursAt(s, u, i) && OccursAt(u, t, o)
    ensures OccursAt(s, t, i + o)
  {
    forall k | 0 <= k < |t| ensures s[i + o + k] == t[k] {
      assert s[i + (o + k)] == u[o + k] == t[k];
    }
  }

  lemma {:induction false} ContainedIsFound(text: string, t: string, j: nat)
    requires j < |Tokens(text, CRLF)| && ContainsNoCase(Tokens(text, CRLF)[j], t)
    ensures ContainsNoCase(text, t)
  {
    var u := Tokens(text, CRLF)[j];
    var i := TokenOccurs(text, j, CRLF);
    var o := Find(Lower(u), Lower(t)).value;
    assert OccursAt(Lower(text), Lower(u), i) by {
      assert forall k :: 0 <= k < |u| ==> text[i + k] == u[k];
    }
    OccursInside(Lower(text), Lower(u), i, Lower(t), o);
    OccursInLower(text, t, i + o);
  }

  /** A line no longer than the needle contains it only by being it, up to case. */
  lemma {:induction false} WholeLine(u: string, t: string)
    ensures EqualNoCase(u, t) ==> ContainsNoCase(u, t)
    ensures |u| <= |t| && ContainsNoCase(u, t) ==> EqualNoCase(u, t)
  {
    if EqualNoCase(u, t) {
      assert OccursAt(Lower(u), Lower(t), 0);
    }
    if |u| <= |t| && ContainsNoCase(u, t) {
      assert OccursAt(Lower(u), Lower(t), 0);
      assert forall k :: 0 <= k < |t| ==> Lower(u)[0 + k] == Lower(t)[k];
    }
  }

  lemma {:induction false} ListedIsContained(t: string, ls: seq<string>)
    ensures Listed(t, ls) ==> Contained(t, ls)
    ensures (forall i :: 0 <= i < |ls| ==> |ls[i]| <= |t|) && Contained(t, ls) ==> Listed(t, ls)
  {
    forall i | 0 <= i < |ls|
      ensures EqualNoCase(ls[i], t) ==> ContainsNoCase(ls[i], t)
      ensures |ls[i]| <= |t| && ContainsNoCase(ls[i], t) ==> EqualNoCase(ls[i], t)
    {
      WholeLine(ls[i], t);
    }
  }

  /** Substring search decides membership: a needle at least as long as every line is found
      exactly when it is, up to case, a whole line. */
  lemma {:induction false} FoundIffListed(text: string, t: string)
    requires t != [] && Free(t, CRLF)
    requires forall i :: 0 <= i < |Tokens(text, CRLF)| ==> |Tokens(text, CRLF)[i]| <= |t|
    ensures ContainsNoCase(text, t) <==> Listed(t, Tokens(text, CRLF))
  {
    FoundIffContained(text, t);
    ListedIsContained(t, Tokens(text, CRLF));
  }

  // ---------------------------------------------------------------- the decision, exactly

  /** One line of the station list: 17 characters, none of them a line break. */
  ghost predicate MacShaped(t: string) { |t| == MAC_LENGTH && Free(t, CRLF) }

  ghost predicate AllMacs(ls: seq<string>) { forall i :: 0 <= i < |ls| ==> MacShaped(ls[i]) }

  /** The entries of `ts`, in order, whose being in `ls` is as wanted. */
  ghost function Keep(ts: seq<string>, ls: seq<string>, wanted: bool): seq<string> {
    if ts == [] then []
    else (if Listed(ts[0], ls) == wanted then [ts[0]] else []) + Keep(ts[1..], ls, wanted)
  }

  /** What the function is for: deny mode kicks the access-list entries that are associated,
      allow mode the associated stations that are not in the access list. */
  ghost function Decision(enable: bool, acl: seq<string>, stations: seq<string>): seq<string> {
    if enable then Keep(acl, stations, true) else Keep(stations, acl, false)
  }

  lemma {:induction false} PickedIsKeep(ts: seq<string>, text: string, ls: seq<string>, wanted: bool)
    requires forall i :: 0 <= i < |ts| ==>
               ((|ts[i]| >= MAC_LENGTH && ContainsNoCase(text, ts[i]) == wanted) <==> Listed(ts[i], ls) == wanted)
    ensures Picked(ts, text, wanted) == Keep(ts, ls, wanted)
  {
    if ts != [] {
      assert forall i :: 0 <= i < |ts[1..]| ==> ts[1..][i] == ts[i + 1];
      PickedIsKeep(ts[1..], text, ls, wanted);
    }
  }

  lemma {:induction false} PickedDropsShort(ts: seq<string>, last: string, text: string, present: bool)
    requires |last| < MAC_LENGTH
    ensures Picked(ts + [last], text, present) == Picked(ts, text, present)
  {
    if ts != [] {
      assert (ts + [last])[1..] == ts[1..] + [last];
      PickedDropsShort(ts[1..], last, text, present);
    }
  }

  lemma {:induction false} JoinLinesSplit(ls: seq<string>, k: nat)
    requires AllMacs(ls) && k <= |ls|
    ensures JoinLines(ls) == JoinLines(ls[..k]) + JoinLines(ls[k..])
    ensures |JoinLines(ls[..k])| == 18 * k
  {
    if k > 0 {
      assert ls[1..][..k - 1] == ls[..k][1..] && ls[1..][k - 1..] == ls[k..];
      JoinLinesSplit(ls[1..], k - 1);
    } else {
      assert ls[..0] == [] && ls[0..] == ls;
    }
  }

  /** The stations whose whole line fits the buffer: 28 lines of 18 characters. */
  function Seen(stations: seq<string>): seq<string> {
    if |stations| <= 28 then stations else stations[..28]
  }

  /** The capture of a station list is the lines of the first 28 stations and, when there are
      more, the beginning of one line, too short to be an address. */
  lemma {:induction false} CaptureOfStations(stations: seq<string>) returns (partial: string)
    requires AllMacs(stations)
    ensures |partial| < MAC_LENGTH && Free(partial, CRLF)
    ensures Captured(JoinLines(stations), LIST_SIZE) == JoinLines(Seen(stations)) + partial
    ensures Tokens(Captured(JoinLines(stations), LIST_SIZE), CRLF)
         == if partial == [] then Seen(stations) else Seen(stations) + [partial]
  {
    var out := JoinLines(stations);
    JoinLinesSplit(stations, |stations|);
    assert stations[..|stations|] == stations;
    WhenOutputFits(out, LIST_SIZE);
    if |stations| <= 28 {
      partial := [];
    } else {
      partial := CutStation(stations);
    }
    TokensOfLines(Seen(stations), partial, CRLF);
  }

  lemma {:induction false} CutStation(stations: seq<string>) returns (partial: string)
    requires AllMacs(stations) && |stations| > 28
    ensures |partial| < MAC_LENGTH && Free(partial, CRLF)
    ensures Captured(JoinLines(stations), LIST_SIZE) == JoinLines(stations[..28]) + partial
  {
    var out := JoinLines(stations);
    JoinLinesSplit(stations, |stations|);
    assert stations[..|stations|] == stations;
    CaptureIsWholeOrFull(out, 0, LIST_SIZE);
    var n := CaptureEnd(out, 0, LIST_SIZE);
    JoinLinesSplit(stations, 28);
    var tail := JoinLines(stations[28..]);
    assert stations[28..][0] == stations[28];
    partial := tail[..n - 504];
    assert partial == stations[28][..n - 504];
  }

  lemma {:induction false} ShortNeverListed(t: string, ls: seq<string>)
    requires AllMacs(ls) && |t| != MAC_LENGTH
    ensures !Listed(t, ls)
  {
    forall i | 0 <= i < |ls| ensures !EqualNoCase(ls[i], t) {
      assert MacShaped(ls[i]);
    }
  }

  /** Deny mode: one access-list entry. */
  lemma {:induction false} DenyEntry(t: string, stations: seq<string>)
    requires AllMacs(stations) && t != [] && Free(t, CRLF)
    ensures var text := Captured(JoinLines(stations), LIST_SIZE);
            (|t| >= MAC_LENGTH && ContainsNoCase(text, t)) <==> Listed(t, Seen(stations))
  {
    var text := Captured(JoinLines(stations), LIST_SIZE);
    var partial := CaptureOfStations(stations);
    if |t| != MAC_LENGTH {
      ShortNeverListed(t, Seen(stations));
    }
    if |t| >= MAC_LENGTH {
      var last := if partial == [] then [] else [partial];
      assert Tokens(text, CRLF) == Seen(stations) + last;
      ListedInFront(t, Seen(stations), last);
      FoundIffListed(text, t);
    }
  }

  lemma {:induction false} ListedInFront(t: string, ls: seq<string>, last: seq<string>)
    requires AllMacs(ls) && |t| >= MAC_LENGTH
    requires forall i :: 0 <= i < |last| ==> |last[i]| < MAC_LENGTH
    ensures Listed(t, ls + last) <==> Listed(t, ls)
    ensures forall i :: 0 <= i < |ls + last| ==> |(ls + last)[i]| <= |t|
  {
    assert forall i :: 0 <= i < |ls| ==> MacShaped(ls[i]) && (ls + last)[i] == ls[i];
    assert forall i :: |ls| <= i < |ls + last| ==> (ls + last)[i] == last[i - |ls|];
  }

  lemma {:induction false} NothingListed(ts: seq<string>)
    ensures Keep(ts, [], true) == []
  {
    if ts != [] {
      NothingListed(ts[1..]);
    }
  }

  /** The entries that are in some line are lines. */
  ghost predicate NoStrays(ts: seq<string>, ls: seq<string>) {
    forall i :: 0 <= i < |ts| ==> Contained(ts[i], ls) ==> Listed(ts[i], ls)
  }

  lemma {:induction false} NoStraysStep(ts: seq<string>, ls: seq<string>)
    requires ts != []
    ensures NoStrays(ts, ls) <==> (Contained(ts[0], ls) ==> Listed(ts[0], ls)) && NoStrays(ts[1..], ls)
  {
    assert forall i :: 0 < i < |ts| ==> ts[i] == ts[1..][i - 1];
  }

  /** Picking what is in no line keeps at most what is no line, and all of it only without strays. */
  lemma {:induction false} PickedOrKept(ts: seq<string>, text: string, ls: seq<string>)
    requires forall i :: 0 <= i < |ts| ==>
               |ts[i]| >= MAC_LENGTH && (ContainsNoCase(text, ts[i]) <==> Contained(ts[i], ls))
    ensures |Picked(ts, text, false)| <= |Keep(ts, ls, false)|
    ensures Picked(ts, text, false) == Keep(ts, ls, false) <==> NoStrays(ts, ls)
    ensures !NoStrays(ts, ls) ==> |Picked(ts, text, false)| < |Keep(ts, ls, false)|
  {
    if ts != [] {
      assert forall i :: 0 <= i < |ts[1..]| ==> ts[1..][i] == ts[i + 1];
      ListedIsContained(ts[0], ls);
      NoStraysStep(ts, ls);
      PickedOrKept(ts[1..], text, ls);
    }
  }

  lemma {:induction false} DenyIsExact(aclText: string, stations: seq<string>)
    requires AllMacs(stations)
    ensures Picked(Tokens(aclText, CRLF), Captured(JoinLines(stations), LIST_SIZE), true)
         == Keep(Tokens(aclText, CRLF), Seen(stations), true)
  {
    var text, acl := Captured(JoinLines(stations), LIST_SIZE), Tokens(aclText, CRLF);
    forall i | 0 <= i < |acl|
      ensures (|acl[i]| >= MAC_LENGTH && ContainsNoCase(text, acl[i])) <==> Listed(acl[i], Seen(stations))
    {
      var at := TokenOccurs(aclText, i, CRLF);
      DenyEntry(acl[i], stations);
    }
    PickedIsKeep(acl, text, Seen(stations), true);
  }

  lemma {:induction false} AllowIsExact(aclText: string, stations: seq<string>)
    requires AllMacs(stations)
    ensures var picked := Picked(Tokens(Captured(JoinLines(stations), LIST_SIZE), CRLF), aclText, false);
            var kept := Keep(Seen(stations), Tokens(aclText, CRLF), false);
            var exact := NoStrays(Seen(stations), Tokens(aclText, CRLF));
            |picked| <= |kept| && (picked == kept <==> exact) && (!exact ==> |picked| < |kept|)
  {
    var seen := Seen(stations);
    var partial := CaptureOfStations(stations);
    if partial != [] {
      PickedDropsShort(seen, partial, aclText, false);
    }
    forall i | 0 <= i < |seen|
      ensures |seen[i]| >= MAC_LENGTH
      ensures ContainsNoCase(aclText, seen[i]) <==> Contained(seen[i], Tokens(aclText, CRLF))
    {
      assert MacShaped(seen[i]);
      FoundIffContained(aclText, seen[i]);
    }
    PickedOrKept(seen, aclText, Tokens(aclText, CRLF));
  }

  /** For any access-list text and any number of associated stations, the kicks are the decision
      over the stations whose lines fit the buffer, without a partial address kicked or matched:
      always in deny mode, and in allow mode exactly when every such station that is part of an
      access-list line is the whole of one. */
  lemma {:induction false} KicksAreExact(enable: bool, aclText: string, stations: seq<string>)
    requires AllMacs(stations)
    ensures Kicks(enable, aclText, Captured(JoinLines(stations), LIST_SIZE))
            == Decision(enable, Tokens(aclText, CRLF), Seen(stations))
       <==> enable || NoStrays(Seen(stations), Tokens(aclText, CRLF))
  {
    var text, seen := Captured(JoinLines(stations), LIST_SIZE), Seen(stations);
    if |text| < MAC_LENGTH {
      ShortCapture(stations);
      NothingListed(Tokens(aclText, CRLF));
    } else if enable {
      DenyIsExact(aclText, stations);
    } else {
      AllowIsExact(aclText, stations);
    }
  }

  lemma {:induction false} ShortCapture(stations: seq<string>)
    requires AllMacs(stations) && |Captured(JoinLines(stations), LIST_SIZE)| < MAC_LENGTH
    ensures Seen(stations) == []
  {
    var seen := Seen(stations);
    var partial := CaptureOfStations(stations);
    JoinLinesSplit(seen, |seen|);
    assert seen[..|seen|] == seen;
  }

  /** Access-list lines no longer than an address hold no strays, so both modes are exact. */
  lemma {:induction false} PlainListsAreExact(enable: bool, aclText: string, stations: seq<string>)
    requires AllMacs(stations)
    requires forall i :: 0 <= i < |Tokens(aclText, CRLF)| ==> |Tokens(aclText, CRLF)[i]| <= MAC_LENGTH
    ensures Kicks(enable, aclText, Captured(JoinLines(stations), LIST_SIZE))
         == Decision(enable, Tokens(aclText, CRLF), Seen(stations))
  {
    var seen, acl := Seen(stations), Tokens(aclText, CRLF);
    forall i | 0 <= i < |seen| ensures Contained(seen[i], acl) ==> Listed(seen[i], acl) {
      assert MacShaped(seen[i]);
      ListedIsContained(seen[i], acl);
    }
    KicksAreExact(enable, aclText, stations);
  }

  // ---------------------------------------------------------------- spellings

  /** Lines that end in CR LF. */
  ghost function JoinCrlf(ls: seq<string>): string {
    if ls == [] then [] else ls[0] + (['\r'] + (['\n'] + JoinCrlf(ls[1..])))
  }

  lemma {:induction false} NothingInFront(l: string, rest: string)
    ensures [] + l + rest == l + rest
  {
  }

  lemma {:induction false} CrlfLine(l: string, more: string)
    requires l != [] && '\r' !in l && '\n' !in l
    ensures Tokens(l + (['\r'] + (['\n'] + more)), CRLF) == [l] + Tokens(more, CRLF)
  {
    var rest := ['\r'] + (['\n'] + more);
    TokensDropDelimiter('\n', more, CRLF);
    TokensDropDelimiter('\r', ['\n'] + more, CRLF);
    FirstToken([], l, rest, CRLF);
    NothingInFront(l, rest);
  }

  /** A list with CR LF line ends reads as its lines. */
  lemma {:induction false} CrlfLines(ls: seq<string>)
    requires forall i :: 0 <= i < |ls| ==> ls[i] != [] && '\r' !in ls[i] && '\n' !in ls[i]
    ensures Tokens(JoinCrlf(ls), CRLF) == ls
  {
    if ls != [] {
      CrlfLines(ls[1..]);
      CrlfLine(ls[0], JoinCrlf(ls[1..]));
    }
  }

  /** One station and a list of one address: what each mode kicks, by the spelling of the two. */
  lemma {:induction false} KicksOfOne(enable: bool, t: string, u: string)
    requires MacShaped(t) && MacShaped(u)
    ensures var same := forall i :: 0 <= i < MAC_LENGTH ==> SameLetter(t[i], u[i]);
            Kicks(enable, t, Captured(JoinLines([u]), LIST_SIZE))
            == if enable then (if same then [t] else []) else (if same then [] else [u])
  {
    OneLine(t);
    PlainListsAreExact(enable, t, [u]);
    assert Seen([u]) == [u];
    EqualNoCaseIs(t, u);
    EqualNoCaseIs(u, t);
    ListedAlone(t, u);
    ListedAlone(u, t);
    KeepOne(t, [u], true);
    KeepOne(u, [t], false);
  }

  lemma {:induction false} ListedAlone(t: string, u: string)
    ensures Listed(t, [u]) <==> EqualNoCase(u, t)
  {
    assert [u][0] == u;
  }

  const CAPITALS := "AA:BB:CC:DD:EE:0F"
  const SMALLS := "aa:bb:cc:dd:ee:0f"

  /** A listed address in capitals kicks the station in small letters, or lets it stay. */
  lemma {:induction false} CapitalsKickSmalls()
    ensures Kicks(true, CAPITALS, Captured(JoinLines([SMALLS]), LIST_SIZE)) == [CAPITALS]
    ensures Kicks(false, CAPITALS, Captured(JoinLines([SMALLS]), LIST_SIZE)) == []
  {
    forall i | 0 <= i < MAC_LENGTH ensures SameLetter(CAPITALS[i], SMALLS[i]) {
    }
    KicksOfOne(true, CAPITALS, SMALLS);
    KicksOfOne(false, CAPITALS, SMALLS);
  }

  // ---------------------------------------------------------------- what truncation costs

  lemma {:induction false} Regroup(a: seq<string>, b: seq<string>, c: seq<string>)
    ensures a + (b + c) == a + b + c
  {
  }

  lemma {:induction false} KeepAppend(ts: seq<string>, us: seq<string>, ls: seq<string>, wanted: bool)
    ensures Keep(ts + us, ls, wanted) == Keep(ts, ls, wanted) + Keep(us, ls, wanted)
  {
    if ts == [] {
      assert ts + us == us;
    } else {
      assert (ts + us)[1..] == ts[1..] + us;
      KeepAppend(ts[1..], us, ls, wanted);
      Regroup(if Listed(ts[0], ls) == wanted then [ts[0]] else [], Keep(ts[1..], ls, wanted), Keep(us, ls, wanted));
    }
  }

  lemma {:induction false} KeepIsEmpty(ts: seq<string>, ls: seq<string>, wanted: bool)
    ensures Keep(ts, ls, wanted) == [] <==> forall i :: 0 <= i < |ts| ==> Listed(ts[i], ls) != wanted
  {
    if ts != [] {
      KeepIsEmpty(ts[1..], ls, wanted);
      assert forall i :: 0 < i < |ts| ==> ts[i] == ts[1..][i - 1];
      assert ts[0] == ts[0];
    }
  }

  /** Each entry that is in the longer list is in the shorter one. */
  ghost predicate SameMembers(ts: seq<string>, ls: seq<string>, more: seq<string>) {
    forall i :: 0 <= i < |ts| ==> Listed(ts[i], more) ==> Listed(ts[i], ls)
  }

  lemma {:induction false} SameMembersStep(ts: seq<string>, ls: seq<string>, more: seq<string>)
    requires ts != []
    ensures SameMembers(ts, ls, more) <==> (Listed(ts[0], more) ==> Listed(ts[0], ls)) && SameMembers(ts[1..], ls, more)
  {
    assert forall i :: 0 < i < |ts| ==> ts[i] == ts[1..][i - 1];
  }

  /** Deny mode over more stations keeps at least as much, and the same only if each entry's
      membership is the same. */
  lemma {:induction false} KeepGrows(ts: seq<string>, ls: seq<string>, more: seq<string>)
    requires ls <= more
    ensures |Keep(ts, ls, true)| <= |Keep(ts, more, true)|
    ensures SameMembers(ts, ls, more) ==> Keep(ts, ls, true) == Keep(ts, more, true)
    ensures !SameMembers(ts, ls, more) ==> |Keep(ts, ls, true)| < |Keep(ts, more, true)|
  {
    if ts != [] {
      assert Listed(ts[0], ls) ==> Listed(ts[0], more);
      SameMembersStep(ts, ls, more);
      KeepGrows(ts[1..], ls, more);
    }
  }

  /** When the truncated list gives the same kicks as the whole list would: deny mode, when every
      entry that is associated at all is among the first 28 stations; allow mode, when every
      station past the 28th is allowed. With at most 28 stations both always hold. */
  lemma {:induction false} WhenTruncationIsHarmless(enable: bool, acl: seq<string>, stations: seq<string>)
    ensures Decision(enable, acl, Seen(stations)) == Decision(enable, acl, stations)
       <==> if enable then SameMembers(acl, Seen(stations), stations)
            else forall i :: 28 <= i < |stations| ==> Listed(stations[i], acl)
  {
    if enable {
      KeepGrows(acl, Seen(stations), stations);
    } else if |stations| > 28 {
      var rest := stations[28..];
      assert stations == Seen(stations) + rest;
      KeepAppend(Seen(stations), rest, acl, false);
      KeepIsEmpty(rest, acl, false);
      assert forall i :: 28 <= i < |stations| ==> stations[i] == rest[i - 28];
    }
  }

  /** The two results together: when the kicks are the decision over all stations. */
  lemma {:induction false} WhenKicksAreTheDecision(enable: bool, aclText: string, stations: seq<string>)
    requires AllMacs(stations)
    ensures var acl := Tokens(aclText, CRLF);
            var kicks := Kicks(enable, aclText, Captured(JoinLines(stations), LIST_SIZE));
            (kicks == Decision(enable, acl, stations)) ==
            if enable then SameMembers(acl, Seen(stations), stations)
            else NoStrays(Seen(stations), acl) && forall i :: 28 <= i < |stations| ==> Listed(stations[i], acl)
  {
    var acl, seen := Tokens(aclText, CRLF), Seen(stations);
    KicksAreExact(enable, aclText, stations);
    WhenTruncationIsHarmless(enable, acl, stations);
    if !enable && !NoStrays(seen, acl) {
      StraysLoseKicks(aclText, stations);
    }
  }

  lemma {:induction false} StraysLoseKicks(aclText: string, stations: seq<string>)
    requires AllMacs(stations) && !NoStrays(Seen(stations), Tokens(aclText, CRLF))
    ensures |Kicks(false, aclText, Captured(JoinLines(stations), LIST_SIZE))|
          < |Decision(false, Tokens(aclText, CRLF), stations)|
  {
    var acl, seen := Tokens(aclText, CRLF), Seen(stations);
    if |Captured(JoinLines(stations), LIST_SIZE)| < MAC_LENGTH {
      ShortCapture(stations);
      assert false;
    }
    AllowIsExact(aclText, stations);
    assert stations == seen + stations[|seen|..];
    KeepAppend(seen, stations[|seen|..], acl, false);
  }

  const ALLOWED := "00:11:22:33:44:55"
  const STRANGER := "00:11:22:33:44:66"

  lemma {:induction false} OneLine(l: string)
    requires l != [] && Free(l, CRLF)
    ensures Tokens(l, CRLF) == [l]
  {
    TokensOfLines([], l, CRLF);
    assert JoinLines([]) + l == l;
    assert [] + [l] == [l];
  }

  lemma {:induction false} StrangerIsNotListed()
    ensures MacShaped(ALLOWED) && MacShaped(STRANGER)
    ensures Listed(ALLOWED, [ALLOWED]) && !Listed(STRANGER, [ALLOWED])
  {
    assert LowerChar(ALLOWED[16]) != LowerChar(STRANGER[16]);
    assert Lower(ALLOWED)[16] != Lower(STRANGER)[16];
    assert EqualNoCase([ALLOWED][0], ALLOWED);
  }

  lemma {:induction false} DecisionBehind(stations: seq<string>, t: string, acl: seq<string>)
    requires (forall i :: 0 <= i < |stations| ==> Listed(stations[i], acl)) && !Listed(t, acl)
    ensures Decision(false, acl, stations) == [] && Decision(false, acl, stations + [t]) == [t]
  {
    KeepIsEmpty(stations, acl, false);
    KeepAppend(stations, [t], acl, false);
    assert Keep([t], acl, false) == [t] + Keep([t][1..], acl, false);
  }

  /** Behind 28 allowed stations a stranger goes unnoticed. */
  lemma {:induction false} StrangerIsNotKicked()
    ensures var stations := seq(28, _ => ALLOWED) + [STRANGER];
            && AllMacs(stations)
            && Kicks(false, ALLOWED, Captured(JoinLines(stations), LIST_SIZE)) == []
            && Decision(false, Tokens(ALLOWED, CRLF), stations) == [STRANGER]
  {
    var allowed := seq(28, _ => ALLOWED);
    StrangerIsNotListed();
    OneLine(ALLOWED);
    assert Seen(allowed + [STRANGER]) == allowed;
    PlainListsAreExact(false, ALLOWED, allowed + [STRANGER]);
    DecisionBehind(allowed, STRANGER, [ALLOWED]);
  }

  lemma {:induction false} OthersAreNotListed(t: string, n: nat)
    requires !Listed(t, [ALLOWED])
    ensures !Listed(t, seq(n, _ => ALLOWED)) && Listed(t, seq(n, _ => ALLOWED) + [t])
  {
    var others := seq(n, _ => ALLOWED);
    assert !EqualNoCase([ALLOWED][0], t);
    assert (others + [t])[n] == t;
  }

  /** Behind 28 other stations a denied one goes unnoticed. */
  lemma {:induction false} DeniedIsNotKicked()
    ensures var stations := seq(28, _ => ALLOWED) + [STRANGER];
            && AllMacs(stations)
            && Kicks(true, STRANGER, Captured(JoinLines(stations), LIST_SIZE)) == []
            && Decision(true, Tokens(STRANGER, CRLF), stations) == [STRANGER]
  {
    var others := seq(28, _ => ALLOWED);
    StrangerIsNotListed();
    OneLine(STRANGER);
    OthersAreNotListed(STRANGER, 28);
    assert Seen(others + [STRANGER]) == others;
    KicksAreExact(true, STRANGER, others + [STRANGER]);
    KeepOne(STRANGER, others, true);
    KeepOne(STRANGER, others + [STRANGER], true);
  }

  lemma {:induction false} KeepOne(t: string, ls: seq<string>, wanted: bool)
    ensures Keep([t], ls, wanted) == if Listed(t, ls) == wanted then [t] else []
  {
    assert [t][1..] == [];
  }

  lemma {:induction false} MarkedLine(t: string)
    requires Free(t, CRLF)
    ensures Tokens("#" + t, CRLF) == ["#" + t]
    ensures Contained(t, ["#" + t]) && !Listed(t, ["#" + t])
  {
    var line := "#" + t;
    OneLine(line);
    assert forall k :: 0 <= k < |t| ==> Lower(line)[1 + k] == Lower(t)[k];
    OccursInLower(line, t, 1);
    assert [line][0] == line;
    assert |Lower(line)| != |Lower(t)|;
  }

  /** An address inside a longer access-list line counts as listed. */
  lemma {:induction false} LongerLineAdmits(t: string)
    requires MacShaped(t)
    ensures Kicks(false, "#" + t, Captured(JoinLines([t]), LIST_SIZE)) != Decision(false, Tokens("#" + t, CRLF), [t])
  {
    MarkedLine(t);
    assert [t][0] == t && Seen([t]) == [t];
    KicksAreExact(false, "#" + t, [t]);
  }
}
