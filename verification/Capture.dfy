/**
 `_syscmd` of the Wi-Fi HAL: capture the output of a shell command in a caller's buffer.
 */
module Capture {
  import opened CText
  import opened CBuffers

  /** The size handed to `fgets` when `room` bytes are left. */
  function Window(room: int): int { if room >= 128 then 128 else room - 1 }

  /** Where a capture into `room` bytes that starts at index `i` of the output stops. */
  function CaptureEnd(out: string, i: nat, room: nat): (n: nat)
    requires i <= |out|
    ensures i <= n <= |out|
    decreases room
  {
    var e := ChunkEnd(out, i, Window(room));
    if e == i then i else CaptureEnd(out, e, room - (e - i))
  }

  function Captured(out: string, size: nat): string {
    out[..CaptureEnd(out, 0, size)]
  }

  /** The buffer starts with the first `n` characters of the output. */
  ghost predicate Stored(b: seq<char>, out: string, n: nat) {
    && n <= |out| && n <= |b|
    && forall i :: 0 <= i < n ==> b[i] == out[i]
  }

  /** One turn of the loop: an empty string behind what is stored, one `fgets` over it, and the
      length of what that added; a failed read counts as nothing. */
  method ReadChunk(f: Pipe, buf: array<char>, at: nat, n: int) returns (readbytes: nat)
    requires f.Valid() && f.pos == at
    requires at < buf.Length && at + n <= buf.Length && Stored(buf[..], f.output, at)
    modifies f, buf
    ensures f.Valid() && f.pos == ChunkEnd(f.output, at, n) == at + readbytes
    ensures f.pos < buf.Length && buf[f.pos] == '\0' && Stored(buf[..], f.output, f.pos)
  {
    buf[at] := '\0';
    var got := f.Gets(buf, at, n);
    if got {
      assert forall j :: at <= j < f.pos ==> f.output[j] == buf[at + (j - at)];
      CStrIsSlice(buf[..], at, f.output, at, f.pos);
      readbytes := |CStr(buf[..], at)|;
    } else {
      readbytes := 0;
    }
  }

  /** The last byte becomes a NUL, behind or on top of the one that ends the text. */
  method Terminate(f: Pipe, buf: array<char>, n: nat)
    requires f.Valid() && n < buf.Length && buf[n] == '\0' && Stored(buf[..], f.output, n)
    modifies buf
    ensures Terminated(buf[..], 0) && CStr(buf[..], 0) == f.output[..n]
  {
    buf[buf.Length - 1] := '\0';
    assert forall k :: 0 <= k < n ==> f.output[k] == buf[..][0 + (k - 0)];
    CStrIsSlice(buf[..], 0, f.output, 0, n);
  }

  method Syscmd(f: Pipe, retBuf: array<char>)
    requires f.Valid() && f.pos == 0 && !f.eof
    requires retBuf.Length >= 1
    modifies f, retBuf
    ensures Terminated(retBuf[..], 0) && CStr(retBuf[..], 0) == Captured(f.output, retBuf.Length)
  {
    var ptr, bufSize := 0, retBuf.Length;
    while !f.eof
      invariant f.Valid() && f.pos == ptr
      invariant bufSize >= 1 && ptr + bufSize == retBuf.Length
      invariant Stored(retBuf[..], f.output, ptr)
      invariant CaptureEnd(f.output, 0, retBuf.Length) == CaptureEnd(f.output, ptr, bufSize)
      invariant f.eof ==> retBuf[ptr] == '\0'
      decreases bufSize
    {
      var bufbytes := if bufSize >= 128 then 128 else bufSize - 1;
      var readbytes := ReadChunk(f, retBuf, ptr, bufbytes);
      if readbytes == 0 {
        break;
      }
      bufSize := bufSize - readbytes;
      ptr := ptr + readbytes;
    }
    Terminate(f, retBuf, ptr);
  }

  /** The capture is the whole output, or it stops one or two bytes short of the buffer. */
  lemma {:induction false} CaptureIsWholeOrFull(out: string, i: nat, room: nat)
    requires i <= |out| && room >= 1
    ensures var n := CaptureEnd(out, i, room);
            n - i < room && (n == |out| || n - i == room - 1 || n - i == room - 2)
    decreases room
  {
    var e := ChunkEnd(out, i, Window(room));
    if i < e {
      CaptureIsWholeOrFull(out, e, room - (e - i));
    }
  }

  /** Output of at most `size - 2` characters is never cut; output of `size` or more always is. */
  lemma {:induction false} WhenOutputFits(out: string, size: nat)
    requires size >= 1
    ensures |out| + 2 <= size ==> Captured(out, size) == out
    ensures |out| >= size ==> |Captured(out, size)| < |out|
  {
    CaptureIsWholeOrFull(out, 0, size);
  }

  /** What `wc -l` prints, with blanks in front on some systems. */
  ghost function CountText(pad: nat, n: nat): string { seq(pad, _ => ' ') + (PrintNat(n) + "\n") }

  /** A printed count is captured whole and read back. */
  lemma {:induction false} CountIsCaptured(pad: nat, n: nat, size: nat)
    requires n < 0x1_0000_0000 && pad + 13 <= size
    ensures ScanInt(CountText(pad, n)) == Some(n)
    ensures Captured(CountText(pad, n), size) == CountText(pad, n)
  {
    ScanSkipsSpace(seq(pad, _ => ' '), n, "\n");
    assert PrintInt(n) == PrintNat(n);
    Print32(n);
    WhenOutputFits(CountText(pad, n), size);
  }

  // ---------------------------------------------------------------- the exact length

  /** Where the line around position `p` starts, in a text whose first line starts at `i`. */
  ghost function LineStart(out: string, i: nat, p: nat): (a: nat)
    requires i <= p <= |out|
    ensures i <= a <= p
    decreases p
  {
    if p == i || out[p - 1] == '\n' then p else LineStart(out, i, p - 1)
  }

  /** A stretch without newlines is part of the line at its start. */
  lemma {:induction false} NoNewLine(out: string, i: nat, p: nat)
    requires i <= p <= |out| && forall k :: i <= k < p ==> out[k] != '\n'
    ensures LineStart(out, i, p) == i
    decreases p
  {
    if p > i {
      NoNewLine(out, i, p - 1);
    }
  }

  lemma {:induction false} LineStartBehind(out: string, i: nat, e: nat, p: nat)
    requires i <= e <= p <= |out|
    ensures LineStart(out, i, p) == if LineStart(out, e, p) == e then LineStart(out, i, e) else LineStart(out, e, p)
    decreases p
  {
    if p > e && out[p - 1] != '\n' {
      LineStartBehind(out, i, e, p - 1);
    }
  }

  /** A full-size read takes 127 characters, or less up to a newline or the end. */
  lemma {:induction false} ChunkShape(out: string, i: nat)
    requires i < |out|
    ensures var e := ChunkEnd(out, i, 128);
            && i < e <= i + 127
            && (forall k :: i <= k < e - 1 ==> out[k] != '\n')
            && (e == |out| || e == i + 127 || out[e - 1] == '\n')
  {
    UntilIs(out, i, Until(out, i, NEWLINE), NEWLINE);
  }

  /** Does a capture into `room` bytes end one byte short of them instead of two? When some read
      starts with just 128 bytes left and meets no newline before its last character: reads start
      at line starts and every 127 characters from there. */
  ghost predicate EndsLate(out: string, i: nat, room: nat) {
    && room >= 128 && i + room - 1 <= |out|
    && (i + room - 128 - LineStart(out, i, i + room - 128)) % 127 == 0
    && forall k :: i + room - 128 <= k < i + room - 2 ==> out[k] != '\n'
  }

  /** Skipping a read does not change that, unless it was the one. */
  lemma {:induction false} EndsLateBehind(out: string, i: nat, room: nat)
    requires room >= 128 && i + room - 1 <= |out|
    requires room - (ChunkEnd(out, i, 128) - i) >= 2
    ensures var e := ChunkEnd(out, i, 128);
            EndsLate(out, i, room) <==> EndsLate(out, e, room - (e - i))
  {
    var e, p := ChunkEnd(out, i, 128), i + room - 128;
    ChunkShape(out, i);
    if p < e {
      NoNewLine(out, i, p);
    } else {
      LineStartBehind(out, i, e, p);
      if LineStart(out, e, p) == e && out[e - 1] != '\n' {
        NoNewLine(out, i, e);
        assert p - i == (p - e) + 127;
      }
    }
  }

  /** The exact end of a capture into two bytes or more. */
  lemma {:induction false} CaptureEndIs(out: string, i: nat, room: nat)
    requires i <= |out| && room >= 2
    ensures CaptureEnd(out, i, room)
         == if |out| <= i + room - 2 then |out| else if EndsLate(out, i, room) then i + room - 1 else i + room - 2
    decreases room
  {
    var e := ChunkEnd(out, i, Window(room));
    if i < e {
      if room >= 128 {
        ChunkShape(out, i);
      }
      if room - (e - i) >= 2 {
        if room >= 128 && i + room - 1 <= |out| {
          EndsLateBehind(out, i, room);
        }
        CaptureEndIs(out, e, room - (e - i));
      } else {
        NoNewLine(out, i, i);
      }
    }
  }

  /** The exact length of a capture: everything, if that leaves two bytes of the buffer; otherwise
      all but two bytes of the buffer are filled, or all but one, when 128 bytes from its end a read
      starts that meets no newline before its last character. */
  lemma {:induction false} CapturedLength(out: string, size: nat)
    requires size >= 1
    ensures Captured(out, size) <= out
    ensures |Captured(out, size)| == if size == 1 then 0
                                     else if |out| <= size - 2 then |out|
                                     else if EndsLate(out, 0, size) then size - 1
                                     else size - 2
  {
    if size > 1 {
      CaptureEndIs(out, 0, size);
    }
  }

  /** Without newlines the reads start every 127 characters. */
  lemma {:induction false} CapturedLengthOfOneLine(out: string, size: nat)
    requires 128 <= size <= |out| && Free(out, NEWLINE)
    ensures |Captured(out, size)| == if (size - 1) % 127 == 0 then size - 1 else size - 2
  {
    CapturedLength(out, size);
    NoNewLine(out, 0, size - 128);
    assert size - 1 == (size - 128) + 127;
  }
}
