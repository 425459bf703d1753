/** Access point names: `wifi_getApName` and `wifi_getIndexFromName`. */
module ApName {
  import opened CText
  import opened CBuffers
  import opened CTypes

  const AP_PREFIX := "ath"

  function NameOf(apIndex: int): string { AP_PREFIX + PrintInt(apIndex) }

  /** Status and index `wifi_getIndexFromName` reports: the number after the first prefix, -1
      when there is no number or no prefix. */
  function IndexOf(name: string): (int, int) {
    match Find(name, AP_PREFIX)
    case None => (RETURN_ERR, -1)
    case Some(pos) =>
      match ScanInt(name[pos + |AP_PREFIX|..])
      case None => (RETURN_OK, -1)
      case Some(i) => (RETURN_OK, i)
  }

  method GetApName(apIndex: int, output: array?<char>) returns (status: int)
    requires IsInt32(apIndex)
    requires output != null ==> output.Length >= 16
    modifies if output == null then {} else {output}
    ensures output == null ==> status == RETURN_ERR
    ensures output != null ==> status == RETURN_OK && StringAt(output[..], 0, "ath" + PrintInt(apIndex))
  {
    if output == null {
      return RETURN_ERR;
    }
    var text := NameOf(apIndex);
    NameFits(apIndex);
    forall i | 0 <= i < |text| {
      output[i] := text[i];
    }
    output[|text|] := '\0';
    return RETURN_OK;
  }

  /** Every access point's name gives its index; a text fails, with -1, exactly when the prefix
      occurs nowhere in it. */
  method GetIndexFromName(name: string) returns (status: int, index: int)
    ensures forall i :: IsInt32(i) && name == NameOf(i) ==> status == RETURN_OK && index == i
    ensures status == RETURN_OK || (status == RETURN_ERR && index == -1)
    ensures status == RETURN_ERR <==> forall j: nat :: !OccursAt(name, "ath", j)
    ensures (status, index) == IndexOf(name)
  {
    forall i | IsInt32(i) && name == NameOf(i) ensures IndexOf(name) == (RETURN_OK, i) {
      NameRoundTrip(i);
    }
    index := -1;
    var pos := Find(name, AP_PREFIX);
    if pos.Some? {
      var scanned := ScanInt(name[pos.value + |AP_PREFIX|..]);
      if scanned.Some? {
        index := scanned.value;
      }
      return RETURN_OK, index;
    }
    return RETURN_ERR, index;
  }

  /** Every name, with its terminating NUL, fits the 16 bytes the caller provides. */
  lemma {:induction false} NameFits(apIndex: int)
    requires IsInt32(apIndex)
    ensures |NameOf(apIndex)| < 16 && Free(NameOf(apIndex), NUL)
  {
    var n := if apIndex < 0 then -apIndex else apIndex;
    Print32(n);
    var digits := PrintNat(n);
    assert forall i :: 0 <= i < |digits| ==> digits[i] in DIGITS;
  }

  /** Reading a printed name gives the index back, for negative indices too, wherever the name
      stands in a text and whatever non-digit follows it. */
  lemma {:induction false} IndexOfName(front: string, apIndex: int, rest: string)
    requires IsInt32(apIndex)
    requires Find(front, AP_PREFIX).None?
    requires rest != [] ==> !IsDigit(rest[0])
    ensures IndexOf(front + NameOf(apIndex) + rest) == (RETURN_OK, apIndex)
  {
    var back := PrintInt(apIndex) + rest;
    assert front + NameOf(apIndex) + rest == front + AP_PREFIX + back;
    FindAfterFiller(front, AP_PREFIX, back);
    assert (front + AP_PREFIX + back)[|front| + |AP_PREFIX|..] == back;
    ScanPrinted(apIndex, rest);
  }

  /** Without a number behind the first prefix the index is -1, but the call succeeds. */
  lemma {:induction false} IndexWithoutNumber(front: string, rest: string)
    requires Find(front, AP_PREFIX).None?
    requires rest != [] ==> rest[0] !in SPACES && rest[0] != '-' && rest[0] != '+' && !IsDigit(rest[0])
    ensures IndexOf(front + "ath" + rest) == (0, -1)
  {
    FindAfterFiller(front, AP_PREFIX, rest);
    assert (front + AP_PREFIX + rest)[|front| + |AP_PREFIX|..] == rest;
    ScanNothing(rest);
  }

  /** The two functions are inverse. */
  lemma {:induction false} NameRoundTrip(apIndex: int)
    requires IsInt32(apIndex)
    ensures IndexOf(NameOf(apIndex)) == (RETURN_OK, apIndex)
  {
    NoneInEmpty(AP_PREFIX);
    IndexOfName([], apIndex, []);
    EmptyEnds(NameOf(apIndex));
  }

  /** Two access points never share a name. */
  lemma {:induction false} NamesAreDistinct(i: int, j: int)
    requires IsInt32(i) && IsInt32(j) && i != j
    ensures NameOf(i) != NameOf(j)
  {
    NameRoundTrip(i);
    NameRoundTrip(j);
  }
}
