/**
 The second state the VLAN HAL works on: Linux bridges and VLAN devices. The HAL changes it by
 shell commands and sees it only through one-column listings, a line per member device.
 */
module Bridges {
  import opened CText

  datatype Bridge = Bridge(stp: bool, members: set<string>)

  /** `vlans` are the devices `vconfig` made. */
  datatype Kernel = Kernel(bridges: map<string, Bridge>, vlans: set<string>)

  const DOT: set<char> := {'.'}

  // ---------------------------------------------------------------- names

  ghost predicate Word(s: string) { s != [] && Free(s, SPACES) }

  /** An interface name; it may hold dots, but not in front. */
  ghost predicate IfName(s: string) { Word(s) && s[0] != '.' }

  function Device(ifName: string, vlanID: string): string { ifName + "." + vlanID }

  /** The position of the first dot, or the length. */
  function FirstDot(m: string): nat { Until(m, 0, DOT) }

  predicate Dotless(m: string) { FirstDot(m) == |m| }

  /** A name with something in front of its first dot, as every VLAN device has. */
  predicate Dotted(m: string) { 0 < FirstDot(m) < |m| }

  /** `sscanf(line, "%[^.].%s", ifName, vlanID)` into two cleared buffers. */
  function ScanDevice(line: string): (string, string) {
    var d := FirstDot(line);
    if d == 0 then ([], [])
    else if d == |line| then (line, [])
    else
      var a := Skip(line, d + 1, SPACES);
      (line[..d], line[a..Until(line, a, SPACES)])
  }

  /** The line of a member, by the shape of its name. */
  lemma {:induction false} ScanOfLine(m: string)
    requires Word(m)
    ensures Dotless(m) ==> ScanDevice(m + "\n") == (m + "\n", [])
    ensures Dotted(m) ==> ScanDevice(m + "\n") == (m[..FirstDot(m)], m[FirstDot(m) + 1..])
    ensures FirstDot(m) == 0 ==> ScanDevice(m + "\n") == ([], [])
  {
    var d, line := FirstDot(m), m + "\n";
    UntilIs(m, 0, d, DOT);
    if d == |m| {
      UntilIs(line, 0, |line|, DOT);
    } else {
      UntilIs(line, 0, d, DOT);
      SkipIs(line, d + 1, d + 1, SPACES);
      if d + 1 < |m| {
        UntilIs(line, d + 1, |m|, SPACES);
        assert line[d + 1..|m|] == m[d + 1..];
      } else {
        assert ScanDevice(line).1 == [] by {
          SkipIs(line, d + 1, |line|, SPACES);
        }
      }
      assert line[..d] == m[..d];
    }
  }

  lemma {:induction false} FirstDotOfDevice(ifName: string, vlanID: string)
    requires Free(ifName, DOT)
    ensures FirstDot(Device(ifName, vlanID)) == |ifName|
  {
    UntilIs(Device(ifName, vlanID), 0, |ifName|, DOT);
  }

  lemma {:induction false} DottedIsDevice(m: string)
    requires Dotted(m)
    ensures m == Device(m[..FirstDot(m)], m[FirstDot(m) + 1..])
    ensures Free(m[..FirstDot(m)], DOT)
  {
    UntilIs(m, 0, FirstDot(m), DOT);
  }

  /** A listing line reads as the pair (interface, ID) exactly when it is that device's line and
      the interface name has no dot; lines without a dot never match. */
  lemma {:induction false} LineMatches(m: string, ifName: string, vlanID: string)
    requires Word(m) && Word(ifName)
    ensures ScanDevice(m + "\n") == (ifName, vlanID) <==> Free(ifName, DOT) && m == Device(ifName, vlanID)
  {
    ScanOfLine(m);
    UntilIs(m, 0, FirstDot(m), DOT);
    if Dotless(m) {
      assert (m + "\n")[|m|] == '\n';
      assert Device(ifName, vlanID)[|ifName|] == '.';
    } else if Dotted(m) {
      DottedIsDevice(m);
    }
    if Free(ifName, DOT) && m == Device(ifName, vlanID) {
      FirstDotOfDevice(ifName, vlanID);
      assert m[..FirstDot(m)] == ifName && m[FirstDot(m) + 1..] == vlanID;
    }
  }

  /** Splitting a line at its first dot undoes the "if.vlan" printing exactly for dot-free
      interface names and white-space-free IDs (an empty interface name only with an empty ID). */
  lemma {:induction false} ScanUndoesPrint(ifName: string, vlanID: string)
    ensures ScanDevice(Device(ifName, vlanID) + "\n") == (ifName, vlanID)
       <==> Free(ifName, DOT) && Free(vlanID, SPACES) && (ifName != [] || vlanID == [])
  {
    var line := Device(ifName, vlanID) + "\n";
    var d := FirstDot(line);
    UntilIs(line, 0, d, DOT);
    assert line[|ifName|] == '.';
    if !Free(ifName, DOT) {
      assert forall i :: 0 <= i < d ==> line[..d][i] == line[i];
    } else {
      UntilIs(line, 0, |ifName|, DOT);
      if ifName != [] {
        assert line[..d] == ifName;
        var a := Skip(line, d + 1, SPACES);
        var e := Until(line, a, SPACES);
        SkipIs(line, d + 1, a, SPACES);
        UntilIs(line, a, e, SPACES);
        IdOfLine(line, d, vlanID);
      }
    }
  }

  lemma {:induction false} IdOfLine(line: string, d: nat, vlanID: string)
    requires d < |line| && line[d + 1..] == vlanID + "\n"
    ensures var a := Skip(line, d + 1, SPACES);
            line[a..Until(line, a, SPACES)] == vlanID <==> Free(vlanID, SPACES)
  {
    var a := Skip(line, d + 1, SPACES);
    var e := Until(line, a, SPACES);
    SkipIs(line, d + 1, a, SPACES);
    UntilIs(line, a, e, SPACES);
    assert forall i :: 0 <= i < |vlanID| ==> line[d + 1 + i] == line[d + 1..][i] == vlanID[i];
    assert line[|line| - 1] == line[d + 1..][|vlanID|] == '\n';
    assert forall i :: 0 <= i < e - a ==> line[a..e][i] == line[a + i];
    if Free(vlanID, SPACES) {
      if vlanID == [] {
        SkipIs(line, d + 1, |line|, SPACES);
      } else {
        assert line[d + 1 + 0] !in SPACES;
        SkipIs(line, d + 1, d + 1, SPACES);
        UntilIs(line, d + 1, |line| - 1, SPACES);
      }
    }
  }

  // ---------------------------------------------------------------- listings

  function StpWord(b: Bridge): string { if b.stp then "yes" else "no" }

  /** What the listing of a bridge names in its last column: the members, or the STP column of
      a bridge that has none. */
  ghost function Named(b: Bridge): set<string> {
    if b.members == {} then {StpWord(b)} else b.members
  }

  ghost predicate Lists(column: seq<string>, names: set<string>) {
    forall m :: m in column <==> m in names
  }

  /** `brctl show <group>`, last column, header dropped; the order is the kernel's. `fgets`
      delivers every entry with a newline after it. */
  method ShowGroup(b: Bridge) returns (column: seq<string>)
    ensures Lists(column, Named(b))
    ensures b.members == {} ==> column == [if b.stp then "yes" else "no"]
  {
    if b.members == {} {
      return [StpWord(b)];
    }
    column := [];
    var rest := b.members;
    while rest != {}
      invariant rest <= b.members
      invariant Lists(column, b.members - rest)
      decreases rest
    {
      var m :| m in rest;
      column, rest := column + [m], rest - {m};
    }
  }

  ghost function NamedIn(k: Kernel, gs: set<string>): set<string>
    requires gs <= k.bridges.Keys
  {
    set g, m | g in gs && m in Named(k.bridges[g]) :: m
  }

  /** `brctl show`, last column, header dropped. */
  method ShowAll(k: Kernel) returns (column: seq<string>)
    ensures Lists(column, NamedIn(k, k.bridges.Keys))
  {
    column := [];
    var rest := k.bridges.Keys;
    while rest != {}
      invariant rest <= k.bridges.Keys
      invariant Lists(column, NamedIn(k, k.bridges.Keys - rest))
      decreases rest
    {
      var g :| g in rest;
      var more := ShowGroup(k.bridges[g]);
      column, rest := column + more, rest - {g};
    }
    assert k.bridges.Keys - rest == k.bridges.Keys;
  }

  /** The search loop of both probes. */
  method ScanLines(column: seq<string>, ghost names: set<string>, ifName: string, vlanID: string) returns (found: bool)
    requires Lists(column, names)
    ensures found <==> Matches(names, ifName, vlanID)
  {
    found := false;
    var i := 0;
    while i < |column|
      invariant 0 <= i <= |column| && !found
      invariant forall m :: m in column[..i] ==> ScanDevice(m + "\n") != (ifName, vlanID)
    {
      var (tempIfName, tempVlanID) := ScanDevice(column[i] + "\n");
      if tempIfName == ifName && tempVlanID == vlanID {
        found := true;
        break;
      }
      i := i + 1;
    }
    assert i == |column| ==> column[..i] == column;
  }

  ghost predicate Matches(names: set<string>, ifName: string, vlanID: string) {
    exists m :: m in names && ScanDevice(m + "\n") == (ifName, vlanID)
  }

  // ---------------------------------------------------------------- kernel states

  predicate Holds(k: Kernel, g: string, dev: string) {
    g in k.bridges && dev in k.bridges[g].members
  }

  predicate Bridged(k: Kernel, dev: string) {
    exists g | g in k.bridges :: Holds(k, g, dev)
  }

  /** Names are single words, a device is in at most one bridge, and `vconfig` makes devices
      named after an interface and an ID. */
  ghost predicate Sane(k: Kernel) {
    && (forall g, m :: Holds(k, g, m) ==> Word(m))
    && (forall g, h, m :: Holds(k, g, m) && Holds(k, h, m) ==> g == h)
    && (forall v :: v in k.vlans ==> Dotted(v))
  }

  lemma {:induction false} NamedAreWords(k: Kernel, g: string, m: string)
    requires Sane(k) && g in k.bridges && m in Named(k.bridges[g])
    ensures Word(m)
    ensures !Holds(k, g, m) ==> Dotless(m)
  {
    if Holds(k, g, m) {
    } else {
      UntilIs(m, 0, |m|, DOT);
    }
  }

  /** A group probe answers 1 exactly when the device is in the group and the interface name has
      no dot, in listings of any length. */
  lemma {:induction false} GroupProbeIsExact(k: Kernel, g: string, ifName: string, vlanID: string)
    requires Sane(k) && g in k.bridges && Word(ifName)
    ensures Matches(Named(k.bridges[g]), ifName, vlanID) <==> Free(ifName, DOT) && Holds(k, g, Device(ifName, vlanID))
  {
    var names, dev := Named(k.bridges[g]), Device(ifName, vlanID);
    UntilIs(dev, 0, FirstDot(dev), DOT);
    assert dev[|ifName|] == '.';
    forall m | m in names
      ensures ScanDevice(m + "\n") == (ifName, vlanID) <==> Free(ifName, DOT) && m == dev
      ensures m == dev ==> Holds(k, g, m)
    {
      NamedAreWords(k, g, m);
      LineMatches(m, ifName, vlanID);
    }
    if Holds(k, g, dev) {
      assert dev in names;
    }
  }

  /** The probe of all groups answers 1 exactly when the device is in some group and the interface
      name has no dot. */
  lemma {:induction false} AnyProbeIsExact(k: Kernel, ifName: string, vlanID: string)
    requires Sane(k) && Word(ifName)
    ensures Matches(NamedIn(k, k.bridges.Keys), ifName, vlanID)
       <==> Free(ifName, DOT) && Bridged(k, Device(ifName, vlanID))
  {
    var names := NamedIn(k, k.bridges.Keys);
    forall g | g in k.bridges
      ensures Matches(Named(k.bridges[g]), ifName, vlanID) <==> Free(ifName, DOT) && Holds(k, g, Device(ifName, vlanID))
    {
      GroupProbeIsExact(k, g, ifName, vlanID);
    }
    if Matches(names, ifName, vlanID) {
      var m :| m in names && ScanDevice(m + "\n") == (ifName, vlanID);
      var g :| g in k.bridges && m in Named(k.bridges[g]);
      assert Matches(Named(k.bridges[g]), ifName, vlanID);
    }
    if Free(ifName, DOT) && Bridged(k, Device(ifName, vlanID)) {
      var g :| Holds(k, g, Device(ifName, vlanID));
      var m :| m in Named(k.bridges[g]) && ScanDevice(m + "\n") == (ifName, vlanID);
      assert m in names;
    }
  }

  // ---------------------------------------------------------------- commands

  /** `brctl addbr`, issued for new names only. */
  function AddBr(k: Kernel, g: string): Kernel
    requires g !in k.bridges
  {
    k.(bridges := k.bridges[g := Bridge(false, {})])
  }

  /** `brctl delbr` of a bridge that is down; ports it still has are released. */
  function DelBr(k: Kernel, g: string): Kernel
    requires g in k.bridges
  {
    k.(bridges := k.bridges - {g})
  }

  /** `vconfig add`, which the kernel refuses for a name that is taken. */
  function VconfigAdd(k: Kernel, dev: string): Kernel {
    if Bridged(k, dev) then k else k.(vlans := k.vlans + {dev})
  }

  /** `brctl addif`, which the kernel refuses for a device that is in a bridge. */
  function AddIf(k: Kernel, g: string, dev: string): Kernel
    requires g in k.bridges
  {
    if Bridged(k, dev) then k
    else k.(bridges := k.bridges[g := k.bridges[g].(members := k.bridges[g].members + {dev})])
  }

  /** `brctl delif`, without effect when the device is not in the bridge. */
  function DelIf(k: Kernel, g: string, dev: string): Kernel
    requires g in k.bridges
  {
    k.(bridges := k.bridges[g := k.bridges[g].(members := k.bridges[g].members - {dev})])
  }

  /** `vconfig rem`: the device disappears, from its bridge too; other names have no effect. */
  function VconfigRem(k: Kernel, dev: string): Kernel {
    if dev in k.vlans then
      Kernel(map g | g in k.bridges :: k.bridges[g].(members := k.bridges[g].members - {dev}), k.vlans - {dev})
    else k
  }

  /** The two commands `vconfig rem if.vlan; brctl delif group if`. An interface name that came
      from a line without a dot still ends in its newline, which breaks the command line: both
      commands then get the bare name, and the lone `.` between them does nothing. */
  function RemoveCommands(k: Kernel, g: string, ifName: string, vlanID: string): Kernel
    requires g in k.bridges
  {
    var n := Until(ifName, 0, NEWLINE);
    if n < |ifName| then DelIf(VconfigRem(k, ifName[..n]), g, ifName[..n])
    else DelIf(VconfigRem(k, Device(ifName, vlanID)), g, ifName)
  }

  /** What `vlan_hal_delInterface` does to the kernel once group and ID are known. */
  ghost function DelDevice(k: Kernel, g: string, ifName: string, vlanID: string): Kernel
    requires g in k.bridges
  {
    if Matches(Named(k.bridges[g]), ifName, vlanID) then RemoveCommands(k, g, ifName, vlanID) else k
  }

  lemma {:induction false} AddBrKeepsSane(k: Kernel, g: string)
    requires Sane(k) && g !in k.bridges
    ensures Sane(AddBr(k, g))
  {
    forall h, m | Holds(AddBr(k, g), h, m) ensures Holds(k, h, m) {
    }
  }

  lemma {:induction false} DelBrKeepsSane(k: Kernel, g: string)
    requires Sane(k) && g in k.bridges
    ensures Sane(DelBr(k, g))
  {
    forall h, m | Holds(DelBr(k, g), h, m) ensures Holds(k, h, m) {
    }
  }

  /** `vconfig rem` of a device that is in a known bridge, or in none. */
  lemma {:induction false} VconfigRemIn(k: Kernel, g: string, dev: string)
    requires Sane(k) && Holds(k, g, dev) && dev in k.vlans
    ensures VconfigRem(k, dev) == DelIf(k, g, dev).(vlans := k.vlans - {dev})
  {
    var k' := VconfigRem(k, dev);
    forall h | h in k.bridges && h != g ensures k'.bridges[h] == k.bridges[h] {
      assert !Holds(k, h, dev);
      assert k.bridges[h].members - {dev} == k.bridges[h].members;
    }
  }
}
