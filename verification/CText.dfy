/**
 C strings as sequences of characters, with the libc routines the HAL leans on:
 `strspn`/`strcspn`, `strstr`, `strcasestr`, the token view of `strtok`, `atoi` and `%d`.

 The text of a C string never holds the terminating NUL; the modules that work on
 buffers say where the NUL is.
 */
module CText {

  datatype Option<+T> = None | Some(value: T)

  /** A value that was read and is not empty. */
  predicate HasText(value: Option<string>) { value.Some? && value.value != [] }

  const NUL: set<char> := {'\0'}
  const NEWLINE: set<char> := {'\n'}
  const SPACES: set<char> := {' ', '\t', '\n', '\r', '\U{0B}', '\U{0C}'}

  ghost predicate Free(s: string, stops: set<char>) {
    forall i :: 0 <= i < |s| ==> s[i] !in stops
  }

  ghost predicate Only(s: string, stops: set<char>) {
    forall i :: 0 <= i < |s| ==> s[i] in stops
  }

  // ---------------------------------------------------------------- spans

  /** First index from `i` on whose character is in `stops`, or the end (`strcspn`). */
  function Until(s: string, i: nat, stops: set<char>): (n: nat)
    requires i <= |s|
    ensures i <= n <= |s|
    decreases |s| - i
  {
    if i == |s| || s[i] in stops then i else Until(s, i + 1, stops)
  }

  /** First index from `i` on whose character is not in `stops`, or the end (`strspn`). */
  function Skip(s: string, i: nat, stops: set<char>): (n: nat)
    requires i <= |s|
    ensures i <= n <= |s|
    decreases |s| - i
  {
    if i == |s| || s[i] !in stops then i else Skip(s, i + 1, stops)
  }

  lemma {:induction false} UntilIs(s: string, i: nat, n: nat, stops: set<char>)
    requires i <= n <= |s|
    ensures Until(s, i, stops) == n <==> (forall k :: i <= k < n ==> s[k] !in stops) && (n < |s| ==> s[n] in stops)
    decreases |s| - i
  {
    if i < n {
      UntilIs(s, i + 1, n, stops);
    }
  }

  lemma {:induction false} SkipIs(s: string, i: nat, n: nat, stops: set<char>)
    requires i <= n <= |s|
    ensures Skip(s, i, stops) == n <==> (forall k :: i <= k < n ==> s[k] in stops) && (n < |s| ==> s[n] !in stops)
    decreases |s| - i
  {
    if i < n {
      SkipIs(s, i + 1, n, stops);
    }
  }

  // ---------------------------------------------------------------- substring search

  ghost predicate OccursAt(hay: string, needle: string, i: nat) {
    i + |needle| <= |hay| && forall k :: 0 <= k < |needle| ==> hay[i + k] == needle[k]
  }

  lemma {:induction false} OccursAsSlice(hay: string, needle: string, i: nat)
    requires i + |needle| <= |hay|
    ensures OccursAt(hay, needle, i) <==> hay[i..i + |needle|] == needle
  {
    var slice := hay[i..i + |needle|];
    assert forall k :: 0 <= k < |needle| ==> slice[k] == hay[i + k];
  }

  function FindFrom(hay: string, needle: string, i: nat): (r: Option<nat>)
    ensures r.Some? ==> i <= r.value && OccursAt(hay, needle, r.value)
    ensures forall j: nat :: i <= j && (r.Some? ==> j < r.value) ==> !OccursAt(hay, needle, j)
    decreases |hay| - i
  {
    if |hay| < i + |needle| then None
    else
      OccursAsSlice(hay, needle, i);
      if hay[i..i + |needle|] == needle then Some(i) else FindFrom(hay, needle, i + 1)
  }

  /** `strstr`: the first occurrence. */
  function Find(hay: string, needle: string): (r: Option<nat>)
    ensures r.Some? ==> OccursAt(hay, needle, r.value)
    ensures forall j: nat :: (r.Some? ==> j < r.value) ==> !OccursAt(hay, needle, j)
  {
    FindFrom(hay, needle, 0)
  }

  lemma {:induction false} NoneInEmpty(mark: string)
    requires mark != []
    ensures Find([], mark).None?
  {
  }

  lemma {:induction false} EmptyEnds(s: string)
    ensures [] + s + [] == s
  {
  }

  /** A mark whose first character does not come back later cannot overlap itself, so the first
      occurrence in `front + mark + back` is the intended one when `front` holds none. */
  lemma {:induction false} FindAfterFiller(front: string, mark: string, back: string)
    requires mark != [] && mark[0] !in mark[1..]
    requires Find(front, mark).None?
    ensures Find(front + mark + back, mark) == Some(|front|)
  {
    var s := front + mark + back;
    assert OccursAt(s, mark, |front|);
    forall i: nat | i < |front| ensures !OccursAt(s, mark, i) {
      if i + |mark| <= |front| {
        assert OccursAt(s, mark, i) ==> OccursAt(front, mark, i);
      } else {
        NoOverlap(s, mark, i, |front|);
      }
    }
  }

  lemma {:induction false} NoOverlap(s: string, mark: string, i: nat, j: nat)
    requires mark != [] && mark[0] !in mark[1..]
    requires i < j < i + |mark| && OccursAt(s, mark, j)
    ensures !OccursAt(s, mark, i)
  {
    var k := j - i;
    assert mark[k] == mark[1..][k - 1];
    assert s[i + k] == s[j + 0] == mark[0];
  }

  // ---------------------------------------------------------------- case-insensitive search

  function LowerChar(c: char): char {
    if 'A' <= c <= 'Z' then ((c as int) + 32) as char else c
  }

  function Lower(s: string): (l: string)
    ensures |l| == |s|
    ensures forall i :: 0 <= i < |s| ==> l[i] == LowerChar(s[i])
  {
    seq(|s|, i requires 0 <= i < |s| => LowerChar(s[i]))
  }

  /** `strcasestr` as a test. */
  predicate ContainsNoCase(hay: string, needle: string) {
    Find(Lower(hay), Lower(needle)).Some?
  }

  predicate EqualNoCase(s: string, t: string) {
    Lower(s) == Lower(t)
  }

  /** The same letter, in whatever case. */
  predicate SameLetter(c: char, d: char) {
    || c == d
    || ('A' <= c <= 'Z' && d as int == c as int + 32)
    || ('A' <= d <= 'Z' && c as int == d as int + 32)
  }

  lemma {:induction false} LowerIsCase(c: char, d: char)
    ensures LowerChar(c) == LowerChar(d) <==> SameLetter(c, d)
  {
  }

  /** Equality up to case, letter by letter. */
  lemma {:induction false} EqualNoCaseIs(s: string, t: string)
    ensures EqualNoCase(s, t) <==> |s| == |t| && forall i :: 0 <= i < |s| ==> SameLetter(s[i], t[i])
  {
    if EqualNoCase(s, t) {
      assert |Lower(s)| == |Lower(t)|;
      forall i | 0 <= i < |s| ensures SameLetter(s[i], t[i]) {
        assert Lower(s)[i] == Lower(t)[i];
        LowerIsCase(s[i], t[i]);
      }
    }
  }

  ghost predicate LettersAt(hay: string, needle: string, i: nat) {
    i + |needle| <= |hay| && forall k :: 0 <= k < |needle| ==> SameLetter(hay[i + k], needle[k])
  }

  lemma {:induction false} OccursUpToCase(hay: string, needle: string, i: nat)
    ensures OccursAt(Lower(hay), Lower(needle), i) <==> LettersAt(hay, needle, i)
  {
    if OccursAt(Lower(hay), Lower(needle), i) {
      forall k | 0 <= k < |needle| ensures SameLetter(hay[i + k], needle[k]) {
        assert Lower(hay)[i + k] == Lower(needle)[k];
        LowerIsCase(hay[i + k], needle[k]);
      }
    }
    if LettersAt(hay, needle, i) {
      forall k | 0 <= k < |needle| ensures Lower(hay)[i + k] == Lower(needle)[k] {
        LowerIsCase(hay[i + k], needle[k]);
      }
    }
  }

  /** `strcasestr` finds the needle exactly when it stands somewhere letter by letter, in any case. */
  lemma {:induction false} ContainsNoCaseIs(hay: string, needle: string)
    ensures ContainsNoCase(hay, needle) <==> exists i: nat :: LettersAt(hay, needle, i)
  {
    forall i: nat ensures OccursAt(Lower(hay), Lower(needle), i) <==> LettersAt(hay, needle, i) {
      OccursUpToCase(hay, needle, i);
    }
  }

  // ---------------------------------------------------------------- tokens

  function TokenStart(s: string, delims: set<char>): (a: nat)
    ensures a <= |s|
  {
    Skip(s, 0, delims)
  }

  function TokenEnd(s: string, delims: set<char>): (e: nat)
    ensures TokenStart(s, delims) <= e <= |s|
  {
    Until(s, TokenStart(s, delims), delims)
  }

  function HeadToken(s: string, delims: set<char>): string {
    s[TokenStart(s, delims)..TokenEnd(s, delims)]
  }

  /** What is left once the delimiter after the first token is overwritten. */
  function TailText(s: string, delims: set<char>): (r: string)
    ensures s != [] ==> |r| < |s|
  {
    if TokenEnd(s, delims) < |s| then s[TokenEnd(s, delims) + 1..] else []
  }

  /** The tokens a full sequence of `strtok` calls returns. */
  function Tokens(s: string, delims: set<char>): seq<string>
    decreases |s|
  {
    if TokenStart(s, delims) == |s| then []
    else [HeadToken(s, delims)] + Tokens(TailText(s, delims), delims)
  }

  /** The first token, seen from the outside: delimiters, a run without any, and either the end
      of the text or one more delimiter. */
  lemma {:induction false} FirstTokenIs(s: string, a: nat, e: nat, delims: set<char>)
    requires a < e <= |s|
    requires forall i :: 0 <= i < a ==> s[i] in delims
    requires forall i :: a <= i < e ==> s[i] !in delims
    requires e < |s| ==> s[e] in delims
    ensures TokenStart(s, delims) == a && TokenEnd(s, delims) == e
  {
    SkipIs(s, 0, a, delims);
    UntilIs(s, a, e, delims);
  }

  lemma {:induction false} FirstTokenFacts(s: string, delims: set<char>)
    ensures var a, e := TokenStart(s, delims), TokenEnd(s, delims);
            && (forall i :: 0 <= i < a ==> s[i] in delims)
            && (forall i :: a <= i < e ==> s[i] !in delims)
            && (e < |s| ==> s[e] in delims)
            && (a < |s| ==> a < e)
  {
    SkipIs(s, 0, TokenStart(s, delims), delims);
    UntilIs(s, TokenStart(s, delims), TokenEnd(s, delims), delims);
  }

  /** A leading delimiter does not change the tokens. */
  lemma {:induction false} TokensDropDelimiter(c: char, s: string, delims: set<char>)
    requires c in delims
    ensures Tokens([c] + s, delims) == Tokens(s, delims)
  {
    EndsBehind(c, s, delims);
    if TokenStart(s, delims) < |s| {
      PartsBehind(c, s, delims);
    }
  }

  lemma {:induction false} PartsBehind(c: char, s: string, delims: set<char>)
    requires c in delims && TokenStart(s, delims) < |s|
    ensures HeadToken([c] + s, delims) == HeadToken(s, delims)
    ensures TailText([c] + s, delims) == TailText(s, delims)
  {
    EndsBehind(c, s, delims);
    SlicesBehind(c, s, TokenStart(s, delims), TokenEnd(s, delims));
  }

  lemma {:induction false} EndsBehind(c: char, s: string, delims: set<char>)
    requires c in delims
    ensures TokenStart([c] + s, delims) == TokenStart(s, delims) + 1
    ensures TokenStart(s, delims) < |s| ==> TokenEnd([c] + s, delims) == TokenEnd(s, delims) + 1
  {
    var u := [c] + s;
    var a, e := TokenStart(s, delims), TokenEnd(s, delims);
    FirstTokenFacts(s, delims);
    assert forall i :: 0 < i < |u| ==> u[i] == s[i - 1];
    if a == |s| {
      SkipIs(u, 0, |u|, delims);
    } else {
      FirstTokenIs(u, a + 1, e + 1, delims);
    }
  }

  lemma {:induction false} SlicesBehind(c: char, s: string, a: nat, e: nat)
    requires a <= e <= |s|
    ensures ([c] + s)[a + 1..e + 1] == s[a..e]
    ensures e < |s| ==> ([c] + s)[e + 1 + 1..] == s[e + 1..]
  {
  }

  lemma {:induction false} FirstTokenOf(g: string, t: string, rest: string, delims: set<char>)
    requires Only(g, delims) && t != [] && Free(t, delims)
    requires rest == [] || rest[0] in delims
    ensures TokenStart(g + t + rest, delims) == |g| && TokenEnd(g + t + rest, delims) == |g| + |t|
  {
    FirstTokenIs(g + t + rest, |g|, |g| + |t|, delims);
  }

  lemma {:induction false} Slices(g: string, t: string, rest: string)
    ensures (g + t + rest)[|g|..|g| + |t|] == t
    ensures rest != [] ==> (g + t + rest)[|g| + |t| + 1..] == rest[1..] && [rest[0]] + rest[1..] == rest
  {
  }

  /** A token, everything in front of it, and a rest that does not continue it. */
  lemma {:induction false} FirstToken(g: string, t: string, rest: string, delims: set<char>)
    requires Only(g, delims) && t != [] && Free(t, delims)
    requires rest == [] || rest[0] in delims
    ensures Tokens(g + t + rest, delims) == [t] + Tokens(rest, delims)
  {
    FirstTokenOf(g, t, rest, delims);
    Slices(g, t, rest);
    assert HeadToken(g + t + rest, delims) == t;
    if rest != [] {
      TokensDropDelimiter(rest[0], rest[1..], delims);
      assert TailText(g + t + rest, delims) == rest[1..];
    }
  }

  /** `gaps[0] + ts[0] + gaps[1] + ts[1] + ... + gaps[|ts|]`. */
  ghost function Interleave(gaps: seq<string>, ts: seq<string>): string
    requires |gaps| == |ts| + 1
  {
    if ts == [] then gaps[0] else gaps[0] + ts[0] + Interleave(gaps[1..], ts[1..])
  }

  /** Tokens are non-empty and delimiter-free, gaps hold delimiters only, and two neighbouring
      tokens have a non-empty gap between them. */
  ghost predicate WellSpaced(gaps: seq<string>, ts: seq<string>, delims: set<char>) {
    && |gaps| == |ts| + 1
    && (forall i :: 0 <= i < |gaps| ==> Only(gaps[i], delims))
    && (forall i :: 0 < i < |ts| ==> gaps[i] != [])
    && (forall i :: 0 <= i < |ts| ==> ts[i] != [] && Free(ts[i], delims))
  }

  lemma {:induction false} TokensOfInterleave(gaps: seq<string>, ts: seq<string>, delims: set<char>)
    requires WellSpaced(gaps, ts, delims)
    ensures Tokens(Interleave(gaps, ts), delims) == ts
    decreases |ts|
  {
    if ts == [] {
      SkipIs(gaps[0], 0, |gaps[0]|, delims);
    } else {
      FirstToken(gaps[0], ts[0], Interleave(gaps[1..], ts[1..]), delims);
      TokensOfInterleave(gaps[1..], ts[1..], delims);
    }
  }

  lemma {:induction false} AddToken(g: string, t: string, gaps: seq<string>, ts: seq<string>, delims: set<char>)
    requires WellSpaced(gaps, ts, delims)
    requires Only(g, delims) && t != [] && Free(t, delims)
    requires ts != [] ==> gaps[0] != []
    ensures WellSpaced([g] + gaps, [t] + ts, delims)
    ensures Interleave([g] + gaps, [t] + ts) == g + t + Interleave(gaps, ts)
  {
    assert ([g] + gaps)[1..] == gaps && ([t] + ts)[1..] == ts;
  }

  lemma {:induction false} TokensHaveGaps(s: string, delims: set<char>) returns (gaps: seq<string>)
    ensures WellSpaced(gaps, Tokens(s, delims), delims) && Interleave(gaps, Tokens(s, delims)) == s
    ensures s != [] && s[0] in delims ==> gaps[0] != []
    decreases |s|
  {
    var a, e := TokenStart(s, delims), TokenEnd(s, delims);
    FirstTokenFacts(s, delims);
    if a == |s| {
      gaps := [s];
    } else {
      var g, t, rest := s[..a], s[a..e], s[e..];
      assert s == g + t + rest;
      FirstToken(g, t, rest, delims);
      var gs := TokensHaveGaps(rest, delims);
      AddToken(g, t, gs, Tokens(rest, delims), delims);
      gaps := [g] + gs;
    }
  }

  /** The complete description of `strtok`: the tokens are the one way of writing the text as
      non-empty delimiter-free pieces kept apart by delimiters, i.e. its maximal runs in order. */
  lemma {:induction false} TokensAreTheMaximalRuns(s: string, delims: set<char>, ts: seq<string>)
    ensures Tokens(s, delims) == ts <==>
            exists gaps :: WellSpaced(gaps, ts, delims) && Interleave(gaps, ts) == s
  {
    if Tokens(s, delims) == ts {
      var gaps := TokensHaveGaps(s, delims);
    }
    forall gaps | WellSpaced(gaps, ts, delims) && Interleave(gaps, ts) == s
      ensures Tokens(s, delims) == ts
    {
      TokensOfInterleave(gaps, ts, delims);
    }
  }

  /** Text of lines: every line followed by a newline. */
  function JoinLines(ls: seq<string>): string {
    if ls == [] then [] else ls[0] + "\n" + JoinLines(ls[1..])
  }

  lemma {:induction false} TokensOfLine(l: string, more: string, delims: set<char>)
    requires '\n' in delims && l != [] && Free(l, delims)
    ensures Tokens(l + "\n" + more, delims) == [l] + Tokens(more, delims)
  {
    FirstToken([], l, ['\n'] + more, delims);
    TokensDropDelimiter('\n', more, delims);
    LineText(l, more);
  }

  lemma {:induction false} LineText(l: string, more: string)
    ensures [] + l + (['\n'] + more) == l + "\n" + more
  {
  }

  lemma {:induction false} JoinLinesStep(ls: seq<string>, last: string)
    requires ls != []
    ensures JoinLines(ls) + last == ls[0] + "\n" + (JoinLines(ls[1..]) + last)
  {
  }

  /** Cutting a text of lines into tokens gives back the lines, and an unfinished last line. */
  lemma {:induction false} TokensOfLines(ls: seq<string>, last: string, delims: set<char>)
    requires '\n' in delims
    requires forall i :: 0 <= i < |ls| ==> ls[i] != [] && Free(ls[i], delims)
    requires Free(last, delims)
    ensures Tokens(JoinLines(ls) + last, delims) == if last == [] then ls else ls + [last]
    decreases |ls|
  {
    if ls != [] {
      var more := JoinLines(ls[1..]) + last;
      JoinLinesStep(ls, last);
      TokensOfLine(ls[0], more, delims);
      TokensOfLines(ls[1..], last, delims);
    } else {
      assert JoinLines(ls) + last == last;
      if last != [] {
        FirstToken([], last, [], delims);
        assert [] + last + [] == last;
      }
    }
  }

  // ---------------------------------------------------------------- decimal numbers

  predicate IsDigit(c: char) { '0' <= c && c <= '9' }

  const DIGITS: set<char> := set c: char | IsDigit(c)

  ghost predicate AllDigits(s: string) { Only(s, DIGITS) }

  function DigitValue(c: char): int { c as int - '0' as int }

  /** The number written by a string of digits. */
  function NatValue(s: string): int {
    if s == [] then 0 else 10 * NatValue(s[..|s| - 1]) + DigitValue(s[|s| - 1])
  }

  /** `%d` of a non-negative number. */
  function PrintNat(n: nat): (s: string)
    ensures s != [] && AllDigits(s) && NatValue(s) == n
  {
    var d := [('0' as int + n % 10) as char];
    if n < 10 then d
    else
      var s := PrintNat(n / 10) + d;
      assert s[..|s| - 1] == PrintNat(n / 10);
      s
  }

  function PrintInt(i: int): string {
    if i < 0 then "-" + PrintNat(-i) else PrintNat(i)
  }

  /** The digits at the front of a text. */
  function ScanNat(u: string): Option<int> {
    var n := Skip(u, 0, DIGITS);
    if n == 0 then None else Some(NatValue(u[..n]))
  }

  /** What `%d` reads from the front of a text: white space, an optional sign, at least one digit. */
  function ScanInt(s: string): Option<int> {
    var t := s[Skip(s, 0, SPACES)..];
    if t != [] && t[0] == '-' then
      match ScanNat(t[1..])
      case None => None
      case Some(v) => Some(-v)
    else if t != [] && t[0] == '+' then ScanNat(t[1..])
    else ScanNat(t)
  }

  function Atoi(s: string): int {
    match ScanInt(s)
    case None => 0
    case Some(i) => i
  }

  lemma {:induction false} ScanPrintedNat(n: nat, rest: string)
    requires rest != [] ==> !IsDigit(rest[0])
    ensures ScanNat(PrintNat(n) + rest) == Some(n)
    ensures IsDigit((PrintNat(n) + rest)[0])
  {
    var digits := PrintNat(n);
    SkipIs(digits + rest, 0, |digits|, DIGITS);
    assert (digits + rest)[..|digits|] == digits;
    assert digits[0] in DIGITS;
  }

  lemma {:induction false} ScanWithoutSign(s: string)
    requires s != [] && IsDigit(s[0])
    ensures ScanInt(s) == ScanNat(s)
  {
    assert s[0] !in SPACES && s[0..] == s;
  }

  lemma {:induction false} ScanWithSign(u: string, v: int)
    requires ScanNat(u) == Some(v)
    ensures ScanInt("-" + u) == Some(-v)
  {
    var s := "-" + u;
    assert s[0] == '-' && s[0] !in SPACES && s[0..] == s && s[1..] == u;
  }

  /** Scanning what was printed gives the number back, whatever non-digit follows. */
  lemma {:induction false} ScanPrinted(i: int, rest: string)
    requires rest != [] ==> !IsDigit(rest[0])
    ensures ScanInt(PrintInt(i) + rest) == Some(i)
  {
    if i < 0 {
      ScanPrintedNat(-i, rest);
      ScanWithSign(PrintNat(-i) + rest, -i);
      assert "-" + (PrintNat(-i) + rest) == "-" + PrintNat(-i) + rest;
    } else {
      ScanPrintedNat(i, rest);
      ScanWithoutSign(PrintNat(i) + rest);
    }
  }

  /** `isspace` and `isdigit` of the C locale. */
  lemma {:induction false} CharacterClasses(c: char)
    ensures c in SPACES <==> c as int == 32 || 9 <= c as int <= 13
    ensures c in DIGITS <==> 48 <= c as int <= 57
  {
  }

  lemma {:induction false} ScanBehindSpace(space: string, s: string)
    requires Only(space, SPACES) && s != [] && s[0] !in SPACES
    ensures ScanInt(space + s) == ScanInt(s)
  {
    SkipIs(space + s, 0, |space|, SPACES);
    SkipIs(s, 0, 0, SPACES);
    assert (space + s)[|space|..] == s && s[0..] == s;
  }

  lemma {:induction false} PrintedStart(i: int, rest: string)
    ensures PrintInt(i) + rest != [] && (PrintInt(i) + rest)[0] !in SPACES
  {
    assert i >= 0 ==> PrintNat(i)[0] in DIGITS;
  }

  /** A printed number is read behind white space of any kind, and behind a plus sign. */
  lemma {:induction false} ScanSkipsSpace(space: string, i: int, rest: string)
    requires forall k :: 0 <= k < |space| ==> space[k] as int == 32 || 9 <= space[k] as int <= 13
    requires rest != [] ==> !IsDigit(rest[0])
    ensures ScanInt(space + (PrintInt(i) + rest)) == Some(i)
    ensures i >= 0 ==> ScanInt(space + ("+" + (PrintNat(i) + rest))) == Some(i)
  {
    forall k | 0 <= k < |space| ensures space[k] in SPACES {
      CharacterClasses(space[k]);
    }
    PrintedStart(i, rest);
    ScanBehindSpace(space, PrintInt(i) + rest);
    ScanPrinted(i, rest);
    if i >= 0 {
      ScanPlus(i, rest);
      ScanBehindSpace(space, "+" + (PrintNat(i) + rest));
    }
  }

  lemma {:induction false} ScanPlus(n: nat, rest: string)
    requires rest != [] ==> !IsDigit(rest[0])
    ensures ScanInt("+" + (PrintNat(n) + rest)) == Some(n)
  {
    var s := "+" + (PrintNat(n) + rest);
    SkipIs(s, 0, 0, SPACES);
    assert s[0..] == s && s[1..] == PrintNat(n) + rest;
    ScanPrintedNat(n, rest);
  }

  /** Nothing is read where neither white space, a sign nor a digit stands. */
  lemma {:induction false} ScanNothing(s: string)
    requires s != [] ==> s[0] !in SPACES && s[0] != '-' && s[0] != '+' && !IsDigit(s[0])
    ensures ScanInt(s) == None
  {
    SkipIs(s, 0, 0, SPACES);
    assert s[0..] == s;
    SkipIs(s, 0, 0, DIGITS);
  }

  lemma {:induction false} Print32(n: nat)
    requires n < 0x1_0000_0000
    ensures |PrintNat(n)| <= 10
  {
    assert Pow10(10) == 10_000_000_000 by {
      assert Pow10(5) == 100_000;
    }
    PrintNatLength(n, 10);
  }

  /** Numbers are printed in base ten, the highest digit first. */
  lemma {:induction false} PrintsDecimal(n: nat, d: nat)
    requires d < 10
    ensures PrintNat(d) == [(48 + d) as char]
    ensures n > 0 ==> PrintNat(10 * n + d) == PrintNat(n) + [(48 + d) as char]
  {
    assert (10 * n + d) / 10 == n && (10 * n + d) % 10 == d;
  }

  /** The number at the front of a text does not depend on what is behind its digits. */
  lemma {:induction false} ScanOfPrefix(t: string, e: nat)
    requires 0 < Skip(t, 0, DIGITS) <= e <= |t|
    ensures ScanNat(t[..e]) == ScanNat(t)
  {
    var n, u := Skip(t, 0, DIGITS), t[..e];
    SkipIs(t, 0, n, DIGITS);
    SkipIs(u, 0, n, DIGITS);
    assert u[..n] == t[..n];
  }

  function Pow10(k: nat): nat { if k == 0 then 1 else 10 * Pow10(k - 1) }

  lemma {:induction false} PrintNatLength(n: nat, k: nat)
    requires 0 < k && n < Pow10(k)
    ensures |PrintNat(n)| <= k
  {
    if n >= 10 {
      PrintNatLength(n / 10, k - 1);
    }
  }
}
