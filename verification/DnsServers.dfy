/** `dhcpv4c_get_ert_dns_svrs_udhcp`: publish up to four DNS server addresses. */
module DnsServers {
  import opened CText
  import opened CTypes

  const MAX_SERVERS: nat := 4

  /** Reading one server's event: no value or an empty one, an address, or a text `inet_aton` rejects. */
  datatype Lookup = Failed | Address(addr: nat) | Malformed

  class IpList {
    const addrs: array<nat>
    var number: nat

    constructor (addrs: array<nat>)
      ensures this.addrs == addrs && number == 0
    {
      this.addrs, number := addrs, 0;
    }
  }

  /** The reported count as the code compares it: an unsigned int, so a negative number is huge. */
  function Reported(count: string): Uint32 { Wrap(Atoi(count)) }

  function Published(count: string): nat {
    if Reported(count) > MAX_SERVERS then MAX_SERVERS else Reported(count)
  }

  /** The local address after slot `i`: `inet_aton` leaves it alone when the text is no address,
      so it keeps the last one that was, or what the stack held. */
  function LastAddress(lookups: seq<Lookup>, i: nat, stack: nat): nat
    requires i <= |lookups|
  {
    if i == 0 then stack
    else if lookups[i - 1].Address? then lookups[i - 1].addr
    else LastAddress(lookups, i - 1, stack)
  }

  /** The call, given the text of the count event, or `None` when reading it fails; an empty text
      is a failure too. */
  method GetDnsServers(list: IpList, count: Option<string>, lookups: seq<Lookup>, stack: nat) returns (status: int)
    requires list.addrs.Length >= MAX_SERVERS && |lookups| >= MAX_SERVERS
    modifies list, list.addrs
    ensures !HasText(count) ==> status == STATUS_FAILURE
    ensures !HasText(count) ==> list.number == old(list.number) && list.addrs[..] == old(list.addrs[..])
    ensures HasText(count) ==> status == STATUS_SUCCESS && list.number == Published(count.value)
    ensures HasText(count) ==> forall i :: 0 <= i < list.addrs.Length ==>
              list.addrs[i] == if i < Published(count.value) && !lookups[i].Failed?
                               then LastAddress(lookups, i + 1, stack)
                               else old(list.addrs[i])
  {
    if count.None? || count.value == [] {
      return STATUS_FAILURE;
    }
    var dnsNum: int := Wrap(Atoi(count.value));
    if dnsNum >= 1 {
      if dnsNum > MAX_SERVERS {
        dnsNum := MAX_SERVERS;
      }
      var addr := stack;
      for i := 0 to dnsNum
        invariant addr == LastAddress(lookups, i, stack)
        invariant forall j :: 0 <= j < list.addrs.Length ==>
                    list.addrs[j] == if j < i && !lookups[j].Failed? then LastAddress(lookups, j + 1, stack)
                                     else old(list.addrs[j])
      {
        if lookups[i].Failed? {
          continue;
        }
        if lookups[i].Address? {
          addr := lookups[i].addr;
        }
        list.addrs[i] := addr;
      }
      list.number := dnsNum;
    } else {
      list.number := 0;
    }
    return STATUS_SUCCESS;
  }

  /** For a printed count: 0 to 4 servers are published as counted, and four for every other count,
      negative ones included. */
  lemma {:induction false} PublishedOfPrinted(i: int, rest: string)
    requires IsInt32(i) && (rest != [] ==> !IsDigit(rest[0]))
    ensures Published(PrintInt(i) + rest) == if 0 <= i <= 4 then i else 4
  {
    ScanPrinted(i, rest);
    if i < 0 {
      assert Wrap(i) == i + TWO32;
    }
  }

  /** None of the lookups from the `from`-th on, in front of the i-th, gave an address. */
  ghost predicate NoneGood(lookups: seq<Lookup>, from: nat, i: nat)
    requires i <= |lookups|
  {
    forall m :: from <= m < i ==> !lookups[m].Address?
  }

  /** Each slot that is written holds its own server's address, or, when its text is rejected, the
      last address in front of it, or what the stack held when there is none. */
  lemma {:induction false} SlotHoldsOwnAddress(lookups: seq<Lookup>, i: nat, stack: nat)
    requires i < |lookups| && !lookups[i].Failed?
    ensures lookups[i].Address? ==> LastAddress(lookups, i + 1, stack) == lookups[i].addr
    ensures lookups[i].Malformed? ==>
              || (LastAddress(lookups, i + 1, stack) == stack && NoneGood(lookups, 0, i))
              || (exists j :: 0 <= j < i && lookups[j].Address? && NoneGood(lookups, j + 1, i)
                              && LastAddress(lookups, i + 1, stack) == lookups[j].addr)
  {
    if lookups[i].Malformed? {
      LastGood(lookups, i, stack);
    }
  }

  lemma {:induction false} LastGood(lookups: seq<Lookup>, i: nat, stack: nat)
    requires i <= |lookups|
    ensures || (LastAddress(lookups, i, stack) == stack && NoneGood(lookups, 0, i))
            || (exists j :: 0 <= j < i && lookups[j].Address? && NoneGood(lookups, j + 1, i)
                            && LastAddress(lookups, i, stack) == lookups[j].addr)
  {
    if i > 0 {
      if lookups[i - 1].Address? {
        assert NoneGood(lookups, i - 1 + 1, i);
      } else {
        LastGood(lookups, i - 1, stack);
        if j :| 0 <= j < i - 1 && lookups[j].Address? && NoneGood(lookups, j + 1, i - 1)
                && LastAddress(lookups, i, stack) == lookups[j].addr {
          assert NoneGood(lookups, j + 1, i);
        }
      }
    }
  }
}
