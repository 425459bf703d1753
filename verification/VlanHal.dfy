/**
 The VLAN HAL: groups are bridges, each with an optional default VLAN ID in the config list.
 The methods are the code; `Effect` says what one call does to the pair of states.
 */
module VlanHal {
  import opened CText
  import opened CTypes
  import opened VlanConfig
  import opened Bridges
  import opened Clearing

  datatype State = State(kernel: Kernel, config: seq<Entry>)

  /** A public call; `None` stands for a NULL argument. */
  datatype Call =
    | AddGroup(group: Option<string>, id: Option<string>)
    | DelGroup(group: Option<string>)
    | AddInterface(group: Option<string>, ifName: Option<string>, id: Option<string>)
    | DelInterface(group: Option<string>, ifName: Option<string>, id: Option<string>)
    | DeleteAllInterfaces(group: Option<string>)

  /** The arguments are names a shell command can carry. */
  ghost predicate CallOk(c: Call) {
    && (c.group.Some? ==> Word(c.group.value))
    && match c {
       case AddGroup(_, id) => id.Some? ==> Word(id.value)
       case AddInterface(_, ifName, id) => (ifName.Some? ==> IfName(ifName.value)) && (id.Some? ==> Word(id.value))
       case DelInterface(_, ifName, id) => ifName.Some? ==> Word(ifName.value)
       case _ => true
    }
  }

  ghost predicate SaneState(s: State) {
    && Sane(s.kernel)
    && forall i :: 0 <= i < |s.config| ==> Word(s.config[i].vlanID)
  }

  /** The ID an interface call works with: the one given, or the group's stored default. */
  function Resolve(s: State, g: string, id: Option<string>): Option<string> {
    if id.Some? then id else FirstId(s.config, g)
  }

  /** The kernel once interface and ID are known to be new: the device exists and is in the group. */
  function Joined(k: Kernel, g: string, dev: string): Kernel
    requires g in k.bridges
  {
    Kernel(k.bridges[g := k.bridges[g].(members := k.bridges[g].members + {dev})], k.vlans + {dev})
  }

  /** The kernel once a device of the group is deleted: it is gone from both states, and the group
      has also lost the bare interface, because `brctl delif` is given that name. */
  function Left(k: Kernel, g: string, ifName: string, vlanID: string): Kernel
    requires g in k.bridges
  {
    var dev := Device(ifName, vlanID);
    var out := if dev in k.vlans then {dev, ifName} else {ifName};
    Kernel(k.bridges[g := k.bridges[g].(members := k.bridges[g].members - out)], k.vlans - {dev})
  }

  /** Does the deletion of an interface find its device? Not when the name has a dot, because
      listing lines are split at the first one. */
  ghost predicate Finds(k: Kernel, g: string, ifName: string, vlanID: string) {
    Free(ifName, DOT) && Holds(k, g, Device(ifName, vlanID))
  }

  /** New state and status of one call. */
  ghost function Effect(s: State, c: Call): (State, int) {
    var k := s.kernel;
    if c.group.None? then (s, RETURN_ERR)
    else
      var g := c.group.value;
      match c
      case AddGroup(_, id) =>
        if g in k.bridges then (s, RETURN_OK)
        else (State(AddBr(k, g), if id.Some? then s.config + [Entry(g, id.value)] else s.config), RETURN_OK)
      case DelGroup(_) =>
        if g !in k.bridges then (s, RETURN_OK)
        else (State(DelBr(Cleared(k, g), g), WithoutFirst(s.config, g)), RETURN_OK)
      case DeleteAllInterfaces(_) =>
        (if g in k.bridges then s.(kernel := Cleared(k, g)) else s, RETURN_OK)
      case AddInterface(_, ifName, id) =>
        if ifName.None? || g !in k.bridges || Resolve(s, g, id).None? then (s, RETURN_ERR)
        else
          var dev := Device(ifName.value, Resolve(s, g, id).value);
          (if Bridged(k, dev) then s else s.(kernel := Joined(k, g, dev)), RETURN_OK)
      case DelInterface(_, ifName, id) =>
        if ifName.None? || g !in k.bridges || Resolve(s, g, id).None? then (s, RETURN_ERR)
        else
          var vlanID := Resolve(s, g, id).value;
          (if Finds(k, g, ifName.value, vlanID) then s.(kernel := Left(k, g, ifName.value, vlanID)) else s, RETURN_OK)
  }

  lemma {:induction false} FirstIdIsWord(es: seq<Entry>, g: string)
    requires forall i :: 0 <= i < |es| ==> Word(es[i].vlanID)
    ensures FirstId(es, g).Some? ==> Word(FirstId(es, g).value)
  {
    if es != [] && es[0].groupName != g {
      FirstIdIsWord(es[1..], g);
    }
  }

  lemma {:induction false} WithoutFirstKeepsWords(es: seq<Entry>, g: string)
    requires forall i :: 0 <= i < |es| ==> Word(es[i].vlanID)
    ensures forall i :: 0 <= i < |WithoutFirst(es, g)| ==> Word(WithoutFirst(es, g)[i].vlanID)
  {
    if es != [] && es[0].groupName != g {
      WithoutFirstKeepsWords(es[1..], g);
    }
  }

  lemma {:induction false} JoinKeepsSane(k: Kernel, g: string, ifName: string, vlanID: string)
    requires Sane(k) && g in k.bridges && IfName(ifName) && Word(vlanID)
    requires !Bridged(k, Device(ifName, vlanID))
    ensures Sane(Joined(k, g, Device(ifName, vlanID)))
  {
    var dev := Device(ifName, vlanID);
    var k' := Joined(k, g, dev);
    DeviceIsWord(ifName, vlanID);
    forall h, m | Holds(k', h, m) ensures (m == dev && h == g) || Holds(k, h, m) {
    }
  }

  lemma {:induction false} DeviceIsWord(ifName: string, vlanID: string)
    requires IfName(ifName) && Word(vlanID)
    ensures Word(Device(ifName, vlanID)) && Dotted(Device(ifName, vlanID))
  {
    var dev := Device(ifName, vlanID);
    assert '.' !in SPACES;
    assert dev[0] != '.' && dev[|ifName|] == '.';
    UntilIs(dev, 0, FirstDot(dev), DOT);
  }

  /** The two commands of an addition: refused together when some bridge has the device. */
  lemma {:induction false} JoinIsAddition(k: Kernel, g: string, dev: string)
    requires g in k.bridges
    ensures AddIf(VconfigAdd(k, dev), g, dev) == if Bridged(k, dev) then k else Joined(k, g, dev)
  {
    if !Bridged(k, dev) {
      forall h ensures !Holds(VconfigAdd(k, dev), h, dev) {
        assert !Holds(k, h, dev);
      }
    }
  }

  lemma {:induction false} LeaveIsRemoval(k: Kernel, g: string, ifName: string, vlanID: string)
    requires Sane(k) && g in k.bridges && Word(ifName)
    ensures DelDevice(k, g, ifName, vlanID) == if Finds(k, g, ifName, vlanID) then Left(k, g, ifName, vlanID) else k
  {
    var dev := Device(ifName, vlanID);
    GroupProbeIsExact(k, g, ifName, vlanID);
    UntilIs(ifName, 0, |ifName|, NEWLINE);
    if Finds(k, g, ifName, vlanID) {
      var members := k.bridges[g].members;
      if dev in k.vlans {
        VconfigRemIn(k, g, dev);
        assert members - {dev} - {ifName} == members - {dev, ifName};
      } else {
        assert k.vlans - {dev} == k.vlans;
      }
    }
  }

  lemma {:induction false} LeaveKeepsSane(k: Kernel, g: string, ifName: string, vlanID: string)
    requires Sane(k) && g in k.bridges
    ensures Sane(Left(k, g, ifName, vlanID))
  {
    forall h, m | Holds(Left(k, g, ifName, vlanID), h, m) ensures Holds(k, h, m) {
    }
  }

  class Hal {
    const config: ConfigList
    var kernel: Kernel

    ghost predicate Valid()
      reads this, config, config.repr
    {
      config.Valid() && SaneState(Now())
    }

    ghost function Now(): State
      reads this, config
    {
      State(kernel, config.Entries())
    }

    /** The HAL starts with an empty config list on whatever bridges there are. */
    constructor (kernel: Kernel)
      requires Sane(kernel)
      ensures Valid() && Now() == State(kernel, []) && fresh(config) && fresh(config.repr)
    {
      config := new ConfigList();
      this.kernel := kernel;
    }

    method InterfaceInAnyBridge(ifName: string, vlanID: string) returns (found: bool)
      requires Sane(kernel) && Word(ifName)
      ensures found <==> Free(ifName, DOT) && Bridged(kernel, Device(ifName, vlanID))
    {
      var column := ShowAll(kernel);
      found := ScanLines(column, NamedIn(kernel, kernel.bridges.Keys), ifName, vlanID);
      AnyProbeIsExact(kernel, ifName, vlanID);
    }

    method InterfaceInBridge(ifName: string, group: string, vlanID: string) returns (found: bool)
      requires group in kernel.bridges
      ensures found <==> Matches(Named(kernel.bridges[group]), ifName, vlanID)
    {
      var column := ShowGroup(kernel.bridges[group]);
      found := ScanLines(column, Named(kernel.bridges[group]), ifName, vlanID);
    }

    method AddGroup(groupName: Option<string>, defaultID: Option<string>) returns (status: int)
      requires Valid() && CallOk(Call.AddGroup(groupName, defaultID))
      modifies this, config, config.repr
      ensures Valid() && (Now(), status) == Effect(old(Now()), Call.AddGroup(groupName, defaultID))
      ensures fresh(config.repr - old(config.repr))
    {
      if groupName.None? {
        return RETURN_ERR;
      }
      if groupName.value in kernel.bridges {
        return RETURN_OK;
      }
      MakeGroup(groupName.value, defaultID);
      return RETURN_OK;
    }

    /** `brctl addbr` for a new group, and its default in the config list if there is one. */
    method MakeGroup(groupName: string, defaultID: Option<string>)
      requires Valid() && groupName !in kernel.bridges && (defaultID.Some? ==> Word(defaultID.value))
      modifies this, config, config.repr
      ensures Valid() && kernel == AddBr(old(kernel), groupName)
      ensures config.Entries() == if defaultID.Some? then old(config.Entries()) + [Entry(groupName, defaultID.value)]
                                  else old(config.Entries())
      ensures fresh(config.repr - old(config.repr))
    {
      AddBrKeepsSane(kernel, groupName);
      kernel := AddBr(kernel, groupName);
      if defaultID.Some? {
        var inserted := config.Insert(groupName, defaultID.value);
      }
    }

    method DelGroup(groupName: Option<string>) returns (status: int)
      requires Valid() && CallOk(Call.DelGroup(groupName))
      modifies this, config, config.repr
      ensures Valid() && (Now(), status) == Effect(old(Now()), Call.DelGroup(groupName))
      ensures config.repr == old(config.repr)
    {
      if groupName.None? {
        return RETURN_ERR;
      }
      if groupName.value !in kernel.bridges {
        return RETURN_OK;
      }
      var cleared := DeleteAllInterfaces(groupName);
      WithoutFirstKeepsWords(config.Entries(), groupName.value);
      DelBrKeepsSane(kernel, groupName.value);
      kernel := DelBr(kernel, groupName.value);
      var deleted := config.Delete(groupName.value);
      return RETURN_OK;
    }

    /** The ID an interface call goes on with, if any: the given one or the stored default. */
    method PickID(groupName: string, vlanID: Option<string>) returns (known: bool, tempID: string)
      requires config.Valid()
      ensures Resolve(Now(), groupName, vlanID) == if known then Some(tempID) else None
    {
      if vlanID.None? {
        var status: int;
        status, tempID := config.Get(groupName);
        return status != RETURN_ERR, tempID;
      }
      return true, vlanID.value;
    }

    method AddInterface(groupName: Option<string>, ifName: Option<string>, vlanID: Option<string>) returns (status: int)
      requires Valid() && CallOk(Call.AddInterface(groupName, ifName, vlanID))
      modifies this
      ensures Valid() && (Now(), status) == Effect(old(Now()), Call.AddInterface(groupName, ifName, vlanID))
    {
      if groupName.None? || ifName.None? {
        return RETURN_ERR;
      }
      if groupName.value !in kernel.bridges {
        return RETURN_ERR;
      }
      var known: bool, tempID: string := PickID(groupName.value, vlanID);
      if !known {
        return RETURN_ERR;
      }
      FirstIdIsWord(config.Entries(), groupName.value);
      var found := InterfaceInAnyBridge(ifName.value, tempID);
      if found {
        return RETURN_OK;
      }
      Join(groupName.value, ifName.value, tempID);
      return RETURN_OK;
    }

    /** `vconfig add if id; brctl addif group if.id`. For a dotted name the probe never answers 1,
        so the commands may find the device in a bridge and are refused. */
    method Join(group: string, ifName: string, vlanID: string)
      requires Valid() && group in kernel.bridges && IfName(ifName) && Word(vlanID)
      modifies this`kernel
      ensures Valid() && config.Entries() == old(config.Entries())
      ensures kernel == if Bridged(old(kernel), Device(ifName, vlanID)) then old(kernel)
                        else Joined(old(kernel), group, Device(ifName, vlanID))
    {
      JoinIsAddition(kernel, group, Device(ifName, vlanID));
      if !Bridged(kernel, Device(ifName, vlanID)) {
        JoinKeepsSane(kernel, group, ifName, vlanID);
      }
      kernel := VconfigAdd(kernel, Device(ifName, vlanID));
      kernel := AddIf(kernel, group, Device(ifName, vlanID));
    }

    /** `vlan_hal_delInterface`. Besides clean names it must cope with the pairs that
        `DeleteAllInterfaces` scans from listing lines, so its effect is stated by the probe. */
    method DelInterface(groupName: Option<string>, ifName: Option<string>, vlanID: Option<string>) returns (status: int)
      requires config.Valid()
      modifies this
      ensures var ready := groupName.Some? && ifName.Some? && groupName.value in old(kernel).bridges
                && Resolve(old(Now()), groupName.value, vlanID).Some?;
              && (status == if ready then RETURN_OK else RETURN_ERR)
              && kernel == if !ready then old(kernel)
                           else DelDevice(old(kernel), groupName.value, ifName.value,
                                          Resolve(old(Now()), groupName.value, vlanID).value)
      ensures old(Valid()) && CallOk(Call.DelInterface(groupName, ifName, vlanID)) ==>
                Valid() && (Now(), status) == Effect(old(Now()), Call.DelInterface(groupName, ifName, vlanID))
    {
      if groupName.None? || ifName.None? {
        return RETURN_ERR;
      }
      if groupName.value !in kernel.bridges {
        return RETURN_ERR;
      }
      var known: bool, tempID: string := PickID(groupName.value, vlanID);
      if !known {
        return RETURN_ERR;
      }
      if Valid() && CallOk(Call.DelInterface(groupName, ifName, vlanID)) {
        LeaveIsRemoval(kernel, groupName.value, ifName.value, tempID);
        LeaveKeepsSane(kernel, groupName.value, ifName.value, tempID);
      }
      var found := InterfaceInBridge(ifName.value, groupName.value, tempID);
      if !found {
        return RETURN_OK;
      }
      kernel := RemoveCommands(kernel, groupName.value, ifName.value, tempID);
      return RETURN_OK;
    }

    /** One line of the listing: scan it, delete what it names. */
    method DeleteLine(g: string, entry: string)
      requires config.Valid()
      modifies this
      ensures kernel == if g !in old(kernel).bridges then old(kernel)
                        else DelDevice(old(kernel), g, ScanDevice(entry + "\n").0, ScanDevice(entry + "\n").1)
    {
      var (ifName, vlanID) := ScanDevice(entry + "\n");
      var status := DelInterface(Some(g), Some(ifName), Some(vlanID));
    }

    /** The reading loop over a listing taken before the first deletion. */
    method DeleteColumn(g: string, column: seq<string>)
      requires config.Valid() && Sane(kernel)
      requires g in kernel.bridges && Lists(column, Named(kernel.bridges[g]))
      modifies this
      ensures kernel == Cleared(old(kernel), g)
    {
      ghost var k0 := kernel;
      ghost var done: set<string> := {};
      ProgressStart(kernel, g);
      for i := 0 to |column|
        invariant Progress(k0, kernel, g, done)
        invariant forall j :: 0 <= j < i ==> column[j] in done
      {
        assert column[i] in column;
        NamedAreWords(k0, g, column[i]);
        ProgressStep(k0, kernel, g, done, column[i]);
        DeleteLine(g, column[i]);
        done := done + {column[i]};
      }
      assert forall m :: m in k0.bridges[g].members ==> m in column;
      ProgressEnd(k0, kernel, g, done);
    }

    /** The same loop when the bridge is missing and the listing is some error text: no line of
        it deletes anything. */
    method DeleteNoise(g: string, noise: seq<string>)
      requires config.Valid() && g !in kernel.bridges
      modifies this
      ensures kernel == old(kernel)
    {
      for i := 0 to |noise|
        invariant kernel == old(kernel)
      {
        DeleteLine(g, noise[i]);
      }
    }

    method DeleteAllInterfaces(groupName: Option<string>) returns (status: int)
      requires Valid() && CallOk(Call.DeleteAllInterfaces(groupName))
      modifies this
      ensures Valid() && (Now(), status) == Effect(old(Now()), Call.DeleteAllInterfaces(groupName))
    {
      if groupName.None? {
        return RETURN_ERR;
      }
      if groupName.value in kernel.bridges {
        var column := ShowGroup(kernel.bridges[groupName.value]);
        ClearedIsSane(kernel, groupName.value);
        DeleteColumn(groupName.value, column);
      } else {
        var noise: seq<string> := *;
        DeleteNoise(groupName.value, noise);
      }
      return RETURN_OK;
    }
  }
}
