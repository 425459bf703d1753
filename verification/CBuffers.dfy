/**
 Character buffers and the two stateful libc services used on them: `fgets` on a `popen`ed
 pipe, and `strtok`, which cuts a buffer in place and remembers where to resume.
 */
module CBuffers {
  import opened CText

  // ---------------------------------------------------------------- C strings in a buffer

  /** The buffer holds the string `s` at index `p`. */
  ghost predicate StringAt(b: seq<char>, p: nat, s: string) {
    && p + |s| < |b|
    && (forall i :: 0 <= i < |s| ==> b[p + i] == s[i])
    && Free(s, NUL)
    && b[p + |s|] == '\0'
  }

  ghost predicate Terminated(b: seq<char>, p: nat) {
    p <= |b| && Until(b, p, NUL) < |b|
  }

  /** The C string that starts at index `p`. */
  function CStr(b: seq<char>, p: nat): (s: string)
    requires p <= |b|
  {
    b[p..Until(b, p, NUL)]
  }

  lemma {:induction false} CStrIs(b: seq<char>, p: nat, s: string)
    requires StringAt(b, p, s)
    ensures Terminated(b, p) && CStr(b, p) == s
  {
    assert forall k :: p <= k < p + |s| ==> b[k] == s[k - p];
    UntilIs(b, p, p + |s|, NUL);
  }

  lemma {:induction false} CStrFacts(b: seq<char>, p: nat)
    requires Terminated(b, p)
    ensures StringAt(b, p, CStr(b, p))
  {
    UntilIs(b, p, Until(b, p, NUL), NUL);
  }

  lemma {:induction false} CStrIsSlice(b: seq<char>, p: nat, s: string, i: nat, j: nat)
    requires i <= j <= |s| && p + (j - i) < |b|
    requires forall k :: i <= k < j ==> s[k] == b[p + (k - i)]
    requires b[p + (j - i)] == '\0' && Free(s, NUL)
    ensures StringAt(b, p, s[i..j]) && CStr(b, p) == s[i..j]
  {
    assert forall k :: 0 <= k < j - i ==> s[i..j][k] == s[i + k] == b[p + (i + k - i)];
    CStrIs(b, p, s[i..j]);
  }

  /** A string survives every write outside it. */
  lemma {:induction false} CStrKept(b: seq<char>, b': seq<char>, p: nat)
    requires Terminated(b, p) && |b'| == |b|
    requires forall i :: p <= i <= p + |CStr(b, p)| && i < |b| ==> b'[i] == b[i]
    ensures Terminated(b', p) && CStr(b', p) == CStr(b, p)
  {
    CStrFacts(b, p);
    CStrIs(b', p, CStr(b, p));
  }

  // ---------------------------------------------------------------- pipes

  /** What one `fgets(_, n, _)` takes of `s` from index `i` on: up to `n - 1` characters, not
      going past a newline. */
  function ChunkEnd(s: string, i: nat, n: int): (e: nat)
    requires i <= |s|
    ensures i <= e <= |s|
    ensures e == i <==> n <= 1 || i == |s|
    ensures n > 1 ==> e < i + n
  {
    if n <= 1 then i
    else
      var limit := if |s| < i + n then |s| else i + n - 1;
      var k := Until(s, i, NEWLINE);
      if k < limit then k + 1 else limit
  }

  /** Put `s[i..j]` and a NUL into the buffer. */
  method Store(buf: array<char>, at: nat, s: string, i: nat, j: nat)
    requires i <= j <= |s| && at + (j - i) < buf.Length
    modifies buf
    ensures forall k :: 0 <= k < at ==> buf[k] == old(buf[k])
    ensures forall k :: i <= k < j ==> s[k] == buf[at + (k - i)]
    ensures buf[at + (j - i)] == '\0'
  {
    forall k | at <= k < at + (j - i) {
      buf[k] := s[i + (k - at)];
    }
    buf[at + (j - i)] := '\0';
  }

  class Pipe {
    const output: string
    var pos: nat
    var eof: bool

    ghost predicate Valid()
      reads this
    {
      && Free(output, NUL)
      && pos <= |output|
      && (eof ==> pos == |output|)
    }

    /** `popen`: the command's whole output is there to be read. */
    constructor Popen(output: string)
      requires Free(output, NUL)
      ensures Valid() && this.output == output && pos == 0 && !eof
    {
      this.output, pos, eof := output, 0, false;
    }

    /** `fgets(buf + at, n, this)`. A size of 1 yields an empty string and a smaller one nothing.
        The end-of-file flag goes up only when a read runs into the end of the output. */
    method Gets(buf: array<char>, at: nat, n: int) returns (got: bool)
      requires Valid()
      requires 0 < n ==> at + n <= buf.Length
      modifies this, buf
      ensures Valid() && pos == ChunkEnd(output, old(pos), n)
      ensures got == (n == 1 || old(pos) < pos)
      ensures n > 1 && !got ==> eof
      ensures eof <==> old(eof) || (n > 1 && pos < old(pos) + n - 1 && pos == |output|
                                    && (pos == old(pos) || output[pos - 1] != '\n'))
      ensures forall i :: 0 <= i < at && i < buf.Length ==> buf[i] == old(buf[i])
      ensures got ==> forall j :: old(pos) <= j < pos ==> output[j] == buf[at + (j - old(pos))]
      ensures got ==> buf[at + (pos - old(pos))] == '\0'
      ensures !got ==> forall i :: 0 <= i < buf.Length ==> buf[i] == old(buf[i])
    {
      var e := ChunkEnd(output, pos, n);
      got := n == 1 || pos < e;
      eof := eof || (n > 1 && e < pos + n - 1 && e == |output| && (e == pos || output[e - 1] != '\n'));
      if got {
        Store(buf, at, output, pos, e);
      }
      pos := e;
    }
  }

  // ---------------------------------------------------------------- strtok

  /** `strtok` on one buffer; `save` is the resume position libc keeps between calls. */
  class Strtok {
    const buf: array<char>
    var save: nat

    constructor (buf: array<char>)
      ensures this.buf == buf && save == 0
    {
      this.buf, save := buf, 0;
    }

    /** `strtok(buf + p, delims)`. */
    method First(p: nat, delims: set<char>) returns (found: bool, tok: nat)
      requires Terminated(buf[..], p)
      modifies this, buf
      ensures TokenTaken(old(buf[..]), p, delims, found, tok, buf[..], save)
    {
      save := p;
      found, tok := Next(delims);
    }

    /** `strtok(NULL, delims)`. */
    method Next(delims: set<char>) returns (found: bool, tok: nat)
      requires Terminated(buf[..], save)
      modifies this, buf
      ensures TokenTaken(old(buf[..]), old(save), delims, found, tok, buf[..], save)
    {
      ghost var b, p := buf[..], save;
      var s := CStr(buf[..], save);
      var a, e := TokenStart(s, delims), TokenEnd(s, delims);
      if a == |s| {
        NoTokenTaken(b, p, delims);
        save := save + a;
        return false, save;
      }
      TokenTakenAt(b, p, delims);
      // Behind the last token this writes the NUL that is there already.
      found, tok := true, save + a;
      buf[save + e] := '\0';
      save := Resume(s, save, e);
      assert buf[..] == b[p + e := '\0'];
    }
  }

  /** Where `strtok` resumes after a token that ends `e` characters into the string `s` at `p`. */
  function Resume(s: string, p: nat, e: nat): nat {
    if e < |s| then p + e + 1 else p + e
  }

  /** What one `strtok` call does to a buffer `b` when it resumes at `p`. */
  ghost predicate TokenTaken(b: seq<char>, p: nat, delims: set<char>, found: bool, tok: nat, b': seq<char>, save: nat)
    requires Terminated(b, p)
  {
    && p <= save && |b'| == |b|
    && Terminated(b', save)
    && (!found ==> TokenStart(CStr(b, p), delims) == |CStr(b, p)| && b' == b && CStr(b', save) == [])
    && (found ==> TokenAt(b, p, CStr(b, p), delims, tok, b', save))
  }

  /** The first token of the string `s` at `p` is now a string at `q`, its tail is the string at
      `save`, and nothing but the character after the token was written. */
  ghost predicate TokenAt(b: seq<char>, p: nat, s: string, delims: set<char>, q: nat, b': seq<char>, save: nat)
    requires save <= |b'|
  {
    && TokenStart(s, delims) < TokenEnd(s, delims)
    && q == p + TokenStart(s, delims) && q + |HeadToken(s, delims)| <= save && q + |HeadToken(s, delims)| < |b|
    && Terminated(b', q) && CStr(b', q) == HeadToken(s, delims)
    && CStr(b', save) == TailText(s, delims)
    && b' == b[q + |HeadToken(s, delims)| := '\0']
  }

  /** Two buffers differ at most in the characters of the string at `p` of the first one. */
  ghost predicate KeptOutside(b: seq<char>, b': seq<char>, p: nat)
    requires p <= |b|
  {
    && |b'| == |b|
    && (forall i :: 0 <= i < p ==> b'[i] == b[i])
    && (forall i :: p + |CStr(b, p)| <= i < |b| ==> b'[i] == b[i])
  }

  /** `strtok` writes nothing in front of the string it works on, nor its NUL or behind. */
  lemma {:induction false} TokenWritesInside(b: seq<char>, p: nat, delims: set<char>,
      found: bool, tok: nat, b': seq<char>, save: nat)
    requires Terminated(b, p) && TokenTaken(b, p, delims, found, tok, b', save)
    ensures KeptOutside(b, b', p)
  {
    CStrFacts(b, p);
  }

  lemma {:induction false} NoTokenTaken(b: seq<char>, p: nat, delims: set<char>)
    requires Terminated(b, p) && TokenStart(CStr(b, p), delims) == |CStr(b, p)|
    ensures TokenTaken(b, p, delims, false, p + |CStr(b, p)|, b, p + |CStr(b, p)|)
  {
    CStrFacts(b, p);
    CStrIs(b, p + |CStr(b, p)|, []);
  }

  lemma {:induction false} TokenTakenAt(b: seq<char>, p: nat, delims: set<char>)
    requires Terminated(b, p) && TokenStart(CStr(b, p), delims) < |CStr(b, p)|
    ensures var s := CStr(b, p);
            var e := TokenEnd(s, delims);
            p + e < |b| && TokenTaken(b, p, delims, true, p + TokenStart(s, delims), b[p + e := '\0'], Resume(s, p, e))
  {
    var s := CStr(b, p);
    var e := TokenEnd(s, delims);
    CStrFacts(b, p);
    FirstTokenFacts(s, delims);
    CutIsString(b, p, s, TokenStart(s, delims), e);
    CStrIs(b[p + e := '\0'], Resume(s, p, e), TailText(s, delims));
  }

  lemma {:induction false} CutIsString(b: seq<char>, p: nat, s: string, a: nat, e: nat)
    requires StringAt(b, p, s) && a <= e <= |s|
    ensures Terminated(b[p + e := '\0'], p + a) && CStr(b[p + e := '\0'], p + a) == s[a..e]
  {
    CStrIs(b[p + e := '\0'], p + a, s[a..e]);
  }
}
