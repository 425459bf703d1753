/** `dhcpv4c_get_ert_mask_udhcp`: a prefix length becomes a mask in network byte order. */
module Netmask {
  import opened CText
  import opened CTypes

  function Pow2(n: nat): (r: int)
    ensures r > 0
  {
    if n == 0 then 1 else 2 * Pow2(n - 1)
  }

  /** Bitwise AND of two naturals, from the low bit up. */
  function And(x: nat, y: nat): nat {
    if x == 0 || y == 0 then 0 else 2 * And(x / 2, y / 2) + (if x % 2 == 1 && y % 2 == 1 then 1 else 0)
  }

  /** `x << n` on unsigned ints, for the shifts C defines. */
  function Shl(x: Uint32, n: nat): Uint32
    requires n < 32
  {
    x * Pow2(n) % TWO32
  }

  /** Prefix lengths the shift is defined for; 0 would shift a 32-bit value by 32. */
  predicate IsPrefix(p: int) { 1 <= p <= 32 }

  function Mask(p: int): nat
    requires IsPrefix(p)
  {
    And(Shl(0xFFFF_FFFF, 32 - p), 0xFFFF_FFFF)
  }

  /** `htonl` on a little-endian host. */
  function Htonl(x: nat): nat {
    x % 0x100 * 0x100_0000 + x / 0x100 % 0x100 * 0x1_0000 + x / 0x1_0000 % 0x100 * 0x100 + x / 0x100_0000 % 0x100
  }

  /** The call, given the text of the subnet event, or `None` when reading it fails; an empty text
      is a failure too. */
  method GetMask(subnet: Option<string>, oldValue: nat) returns (status: int, value: nat)
    requires HasText(subnet) ==> IsPrefix(Atoi(subnet.value))
    ensures !HasText(subnet) ==> status == STATUS_FAILURE && value == oldValue
    ensures HasText(subnet) ==> status == STATUS_SUCCESS && Htonl(value) == TWO32 - Pow2(32 - Atoi(subnet.value))
  {
    if subnet.None? || subnet.value == [] {
      return STATUS_FAILURE, oldValue;
    }
    var mask := Atoi(subnet.value);
    var value32 := And(Shl(0xFFFF_FFFF, 32 - mask), 0xFFFF_FFFF);
    MaskValue(mask);
    HtonlTwice(value32);
    return STATUS_SUCCESS, Htonl(value32);
  }

  function FromBytes(d: nat, c: nat, b: nat, a: nat): nat {
    d * 0x100_0000 + c * 0x1_0000 + b * 0x100 + a
  }

  lemma {:induction false} HtonlOfBytes(d: nat, c: nat, b: nat, a: nat)
    requires d < 0x100 && c < 0x100 && b < 0x100 && a < 0x100
    ensures Htonl(FromBytes(d, c, b, a)) == FromBytes(a, b, c, d)
  {
    var x := FromBytes(d, c, b, a);
    DivideIs(x, 0x100, d * 0x1_0000 + c * 0x100 + b, a);
    DivideIs(x, 0x1_0000, d * 0x100 + c, b * 0x100 + a);
    DivideIs(x, 0x100_0000, d, c * 0x1_0000 + b * 0x100 + a);
    DivideIs(d * 0x1_0000 + c * 0x100 + b, 0x100, d * 0x100 + c, b);
    DivideIs(d * 0x100 + c, 0x100, d, c);
  }

  lemma {:induction false} Bytes(x: Uint32) returns (d: nat, c: nat, b: nat, a: nat)
    ensures d < 0x100 && c < 0x100 && b < 0x100 && a < 0x100
    ensures x == FromBytes(d, c, b, a)
  {
    var y := x / 0x100;
    var z := y / 0x100;
    d, c, b, a := z / 0x100, z % 0x100, y % 0x100, x % 0x100;
  }

  /** The byte swap is its own inverse. */
  lemma {:induction false} HtonlTwice(x: Uint32)
    ensures Htonl(Htonl(x)) == x
  {
    var d, c, b, a := Bytes(x);
    HtonlOfBytes(d, c, b, a);
    HtonlOfBytes(a, b, c, d);
  }

  // ---------------------------------------------------------------- division

  lemma {:induction false} MulLess(a: int, b: int, d: int)
    requires a < b && d > 0
    ensures a * d + d <= b * d
  {
    var k := b - a - 1;
    assert k * d >= 0;
    assert b * d == (a + 1 + k) * d == a * d + d + k * d;
  }

  /** Quotient and remainder are unique. */
  lemma {:induction false} Unique(d: int, q: int, r: int, q': int, r': int)
    requires q * d + r == q' * d + r' && 0 <= r < d && 0 <= r' < d
    ensures q == q' && r == r'
  {
    if q < q' {
      MulLess(q, q', d);
    } else if q' < q {
      MulLess(q', q, d);
    }
  }

  lemma {:induction false} DivideIs(x: int, d: int, q: int, r: int)
    requires d > 0 && x == q * d + r && 0 <= r < d
    ensures x / d == q && x % d == r
  {
    Unique(d, x / d, x % d, q, r);
  }

  lemma {:induction false} QuotientPart(x: int, d: int)
    requires d > 0
    ensures x - x % d == x / d * d
  {
  }

  lemma {:induction false} RemainderStep(x: nat, d: int)
    requires d > 0
    ensures x % (2 * d) == 2 * (x / 2 % d) + x % 2
  {
    var q, r := x / 2 / d, x / 2 % d;
    assert x / 2 == q * d + r;
    assert q * (2 * d) == 2 * (q * d);
    DivideIs(x, 2 * d, q, 2 * r + x % 2);
  }

  // ---------------------------------------------------------------- masks

  lemma {:induction false} Pow32()
    ensures Pow2(32) == TWO32
  {
    assert Pow2(8) == 0x100;
    assert Pow2(16) == 0x1_0000;
    assert Pow2(24) == 0x100_0000;
  }

  lemma {:induction false} PowGrows(n: nat, m: nat)
    requires n < m
    ensures 2 * Pow2(n) <= Pow2(m)
    decreases m - n
  {
    if n + 1 < m {
      PowGrows(n, m - 1);
    }
  }

  /** AND with `m` low ones keeps a number of `m` bits. */
  lemma {:induction false} AndLow(x: nat, m: nat)
    requires x < Pow2(m)
    ensures And(x, Pow2(m) - 1) == x
  {
    if x != 0 {
      assert (Pow2(m) - 1) / 2 == Pow2(m - 1) - 1 && (Pow2(m) - 1) % 2 == 1;
      AndLow(x / 2, m - 1);
    }
  }

  /** AND with ones above `n` zeros takes the low `n` bits off. */
  lemma {:induction false} AndHigh(x: nat, m: nat, n: nat)
    requires x < Pow2(m) && n <= m
    ensures Pow2(m) - Pow2(n) >= 0
    ensures And(x, Pow2(m) - Pow2(n)) == x - x % Pow2(n)
  {
    if n == 0 {
      AndLow(x, m);
    } else {
      AndHigh(x / 2, m - 1, n - 1);
      var y := Pow2(m - 1) - Pow2(n - 1);
      assert Pow2(m) - Pow2(n) == 2 * y && 2 * y / 2 == y && 2 * y % 2 == 0;
      RemainderStep(x, Pow2(n - 1));
    }
  }

  /** The mask has ones down from the top: 2^32 - 2^(32-p). */
  lemma {:induction false} MaskValue(p: int)
    requires IsPrefix(p)
    ensures Mask(p) == TWO32 - Pow2(32 - p)
  {
    var s := Pow2(32 - p);
    Pow32();
    PowGrows(32 - p, 32);
    DivideIs(0xFFFF_FFFF * s, TWO32, s - 1, TWO32 - s);
    AndLow(TWO32 - s, 32);
  }

  /** Masking an address takes off its remainder modulo the network size. */
  lemma {:induction false} MaskTakesOffTheHost(a: Uint32, p: int)
    requires IsPrefix(p)
    ensures And(a, Mask(p)) == a - a % Pow2(32 - p)
  {
    Pow32();
    MaskValue(p);
    AndHigh(a, 32, 32 - p);
  }

  /** Two addresses have the same masked value exactly when they lie in the same network. */
  lemma {:induction false} SameNetwork(a: Uint32, b: Uint32, p: int)
    requires IsPrefix(p)
    ensures And(a, Mask(p)) == And(b, Mask(p)) <==> a / Pow2(32 - p) == b / Pow2(32 - p)
  {
    var s := Pow2(32 - p);
    MaskTakesOffTheHost(a, p);
    MaskTakesOffTheHost(b, p);
    QuotientPart(a, s);
    QuotientPart(b, s);
    if And(a, Mask(p)) == And(b, Mask(p)) {
      Unique(s, a / s, 0, b / s, 0);
    }
  }

  /** A longer prefix gives a larger mask. */
  lemma {:induction false} MasksAreMonotone(p: int, q: int)
    requires IsPrefix(p) && IsPrefix(q) && p < q
    ensures Mask(p) < Mask(q)
    decreases q - p
  {
    MaskValue(p);
    MaskValue(p + 1);
    if p + 1 < q {
      MasksAreMonotone(p + 1, q);
    }
  }
}
