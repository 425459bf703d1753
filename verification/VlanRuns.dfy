/**
 What every run of the VLAN HAL keeps, and what sequences of calls undo.
 */
module VlanRuns {
  import opened CText
  import opened CTypes
  import opened VlanConfig
  import opened Bridges
  import opened Clearing
  import opened VlanHal

  ghost function Step(s: State, c: Call): State { Effect(s, c).0 }

  ghost function Run(s: State, calls: seq<Call>): State
    decreases |calls|
  {
    if calls == [] then s else Run(Step(s, calls[0]), calls[1..])
  }

  ghost predicate AllOk(calls: seq<Call>) { forall i :: 0 <= i < |calls| ==> CallOk(calls[i]) }

  /** The statuses the calls of a run report. */
  ghost function Statuses(s: State, calls: seq<Call>): seq<int>
    decreases |calls|
  {
    if calls == [] then [] else [Effect(s, calls[0]).1] + Statuses(Step(s, calls[0]), calls[1..])
  }

  /** The public call a value of `Call` stands for. */
  method Invoke(hal: Hal, c: Call) returns (status: int)
    requires hal.Valid() && CallOk(c)
    modifies hal, hal.config, hal.config.repr
    ensures hal.Valid() && (hal.Now(), status) == Effect(old(hal.Now()), c)
    ensures fresh(hal.config.repr - old(hal.config.repr))
  {
    match c {
      case AddGroup(group, id) => status := hal.AddGroup(group, id);
      case DelGroup(group) => status := hal.DelGroup(group);
      case AddInterface(group, ifName, id) => status := hal.AddInterface(group, ifName, id);
      case DelInterface(group, ifName, id) => status := hal.DelInterface(group, ifName, id);
      case DeleteAllInterfaces(group) => status := hal.DeleteAllInterfaces(group);
    }
  }

  /** Calling the methods one after the other is a run: what is proved of `Run` holds of the HAL. */
  method Execute(hal: Hal, calls: seq<Call>) returns (statuses: seq<int>)
    requires hal.Valid() && AllOk(calls)
    modifies hal, hal.config, hal.config.repr
    ensures hal.Valid() && hal.Now() == Run(old(hal.Now()), calls) && statuses == Statuses(old(hal.Now()), calls)
    ensures fresh(hal.config.repr - old(hal.config.repr))
    decreases |calls|
  {
    if calls == [] {
      return [];
    }
    var status := Invoke(hal, calls[0]);
    var more := Execute(hal, calls[1..]);
    return [status] + more;
  }

  // ---------------------------------------------------------------- the invariant

  /** No two config entries of one group, and no entry without its bridge. The second part alone
      is not kept: deleting a group unlinks just its first entry. */
  ghost predicate Inv(s: State) {
    && SaneState(s)
    && Distinct(s.config)
    && forall i :: 0 <= i < |s.config| ==> s.config[i].groupName in s.kernel.bridges
  }

  lemma {:induction false} WithoutFirstDistinct(es: seq<Entry>, g: string)
    requires Distinct(es)
    ensures Distinct(WithoutFirst(es, g))
    ensures forall h :: Names(WithoutFirst(es, g), h) <==> h != g && Names(es, h)
  {
    if !Names(es, g) {
      NoMatch(es, g);
    } else {
      var i :| 0 <= i < |es| && es[i].groupName == g;
      FirstMatch(es, g, i);
      forall h ensures Names(Removed(es, i), h) <==> h != g && Names(es, h) {
        NamesOfRemoved(es, i, h);
      }
    }
  }

  lemma {:induction false} NamesOfRemoved(es: seq<Entry>, i: nat, h: string)
    requires Distinct(es) && i < |es|
    ensures Names(Removed(es, i), h) <==> h != es[i].groupName && Names(es, h)
  {
    var r := Removed(es, i);
    if h != es[i].groupName && Names(es, h) {
      var j :| 0 <= j < |es| && es[j].groupName == h;
      assert r[if j < i then j else j - 1].groupName == h;
    }
    if Names(r, h) {
      var j :| 0 <= j < |r| && r[j].groupName == h;
      assert es[if j < i then j else j + 1].groupName == h;
    }
  }

  lemma {:induction false} DelGroupKeepsInv(s: State, g: string)
    requires Inv(s) && g in s.kernel.bridges
    ensures Inv(State(DelBr(Cleared(s.kernel, g), g), WithoutFirst(s.config, g)))
  {
    ClearedIsSane(s.kernel, g);
    DelBrKeepsSane(Cleared(s.kernel, g), g);
    WithoutFirstKeepsWords(s.config, g);
    WithoutFirstDistinct(s.config, g);
    var r := WithoutFirst(s.config, g);
    forall i | 0 <= i < |r| ensures r[i].groupName in s.kernel.bridges && r[i].groupName != g {
      assert Names(r, r[i].groupName);
      var j :| 0 <= j < |s.config| && s.config[j].groupName == r[i].groupName;
    }
  }

  lemma {:induction false} InterfaceCallKeepsInv(s: State, c: Call)
    requires Inv(s) && CallOk(c) && (c.AddInterface? || c.DelInterface?)
    ensures Inv(Step(s, c))
  {
    if c.group.Some? && c.ifName.Some? && c.group.value in s.kernel.bridges {
      FirstIdIsWord(s.config, c.group.value);
      var r := Resolve(s, c.group.value, c.id);
      if r.Some? {
        if c.DelInterface? {
          LeaveKeepsSane(s.kernel, c.group.value, c.ifName.value, r.value);
        } else if !Bridged(s.kernel, Device(c.ifName.value, r.value)) {
          JoinKeepsSane(s.kernel, c.group.value, c.ifName.value, r.value);
        }
      }
    }
  }

  lemma {:induction false} StepKeepsInv(s: State, c: Call)
    requires Inv(s) && CallOk(c)
    ensures Inv(Step(s, c))
  {
    match c
    case AddGroup(group, id) =>
      if group.Some? && group.value !in s.kernel.bridges {
        AddBrKeepsSane(s.kernel, group.value);
      }
    case DelGroup(group) =>
      if group.Some? && group.value in s.kernel.bridges {
        DelGroupKeepsInv(s, group.value);
      }
    case DeleteAllInterfaces(group) =>
      if group.Some? && group.value in s.kernel.bridges {
        ClearedIsSane(s.kernel, group.value);
      }
    case AddInterface(_, _, _) => InterfaceCallKeepsInv(s, c);
    case DelInterface(_, _, _) => InterfaceCallKeepsInv(s, c);
  }

  /** Over every run from an empty config list, on whatever bridges there are: config names are
      pairwise distinct, each names an existing bridge, and every device is in at most one bridge. */
  lemma {:induction false} RunKeepsInv(s: State, calls: seq<Call>)
    requires Inv(s) && AllOk(calls)
    ensures Inv(Run(s, calls))
    decreases |calls|
  {
    if calls != [] {
      StepKeepsInv(s, calls[0]);
      RunKeepsInv(Step(s, calls[0]), calls[1..]);
    }
  }

  lemma {:induction false} RunFromStart(k: Kernel, calls: seq<Call>)
    requires Sane(k) && AllOk(calls)
    ensures Inv(Run(State(k, []), calls))
    ensures forall g :: |Queue(Run(State(k, []), calls).config, g)| <= 1
  {
    RunKeepsInv(State(k, []), calls);
    forall g ensures |Queue(Run(State(k, []), calls).config, g)| <= 1 {
      DistinctIsAMap(Run(State(k, []), calls).config, g);
    }
  }

  // ---------------------------------------------------------------- no orphaned VLAN devices

  /** Every VLAN device is in some bridge. */
  ghost predicate NoOrphans(k: Kernel) {
    forall v :: v in k.vlans ==> Bridged(k, v)
  }

  lemma {:induction false} ClearedHasNoOrphans(k: Kernel, g: string)
    requires Sane(k) && g in k.bridges && NoOrphans(k)
    ensures NoOrphans(Cleared(k, g)) && NoOrphans(DelBr(Cleared(k, g), g))
  {
    forall v | v in Cleared(k, g).vlans ensures Bridged(Cleared(k, g), v) && Bridged(DelBr(Cleared(k, g), g), v) {
      var h :| h in k.bridges && Holds(k, h, v);
      assert h != g;
      assert Holds(Cleared(k, g), h, v) && Holds(DelBr(Cleared(k, g), g), h, v);
    }
  }

  lemma {:induction false} JoinedHasNoOrphans(k: Kernel, g: string, dev: string)
    requires g in k.bridges && NoOrphans(k)
    ensures NoOrphans(Joined(k, g, dev))
  {
    forall v | v in Joined(k, g, dev).vlans ensures Bridged(Joined(k, g, dev), v) {
      if v == dev {
        assert Holds(Joined(k, g, dev), g, v);
      } else {
        var h :| h in k.bridges && Holds(k, h, v);
        assert Holds(Joined(k, g, dev), h, v);
      }
    }
  }

  lemma {:induction false} LeftHasNoOrphans(k: Kernel, g: string, ifName: string, vlanID: string)
    requires Sane(k) && g in k.bridges && NoOrphans(k) && Free(ifName, DOT)
    ensures NoOrphans(Left(k, g, ifName, vlanID))
  {
    UntilIs(ifName, 0, |ifName|, DOT);
    var k' := Left(k, g, ifName, vlanID);
    forall v | v in k'.vlans ensures Bridged(k', v) {
      var h :| h in k.bridges && Holds(k, h, v);
      assert v != ifName;
      assert Holds(k', h, v);
    }
  }

  lemma {:induction false} StepKeepsNoOrphans(s: State, c: Call)
    requires Inv(s) && NoOrphans(s.kernel) && CallOk(c)
    ensures NoOrphans(Step(s, c).kernel)
  {
    var k := s.kernel;
    if c.group.Some? {
      var g := c.group.value;
      if g in k.bridges {
        ClearedHasNoOrphans(k, g);
        if (c.AddInterface? || c.DelInterface?) && c.ifName.Some? && Resolve(s, g, c.id).Some? {
          JoinedHasNoOrphans(k, g, Device(c.ifName.value, Resolve(s, g, c.id).value));
          if Free(c.ifName.value, DOT) {
            LeftHasNoOrphans(k, g, c.ifName.value, Resolve(s, g, c.id).value);
          }
        }
      } else if c.AddGroup? {
        forall v | v in k.vlans ensures Bridged(AddBr(k, g), v) {
          var h :| h in k.bridges && Holds(k, h, v);
          assert Holds(AddBr(k, g), h, v);
        }
      }
    }
  }

  /** Over every run no VLAN device is left behind outside all bridges. */
  lemma {:induction false} RunKeepsNoOrphans(s: State, calls: seq<Call>)
    requires Inv(s) && NoOrphans(s.kernel) && AllOk(calls)
    ensures NoOrphans(Run(s, calls).kernel)
    decreases |calls|
  {
    if calls != [] {
      StepKeepsInv(s, calls[0]);
      StepKeepsNoOrphans(s, calls[0]);
      RunKeepsNoOrphans(Step(s, calls[0]), calls[1..]);
    }
  }

  // ---------------------------------------------------------------- other groups

  /** A group's bridge, the VLAN devices among its members and its stored IDs are the same. */
  ghost predicate SameGroup(s: State, t: State, g: string) {
    && (g in t.kernel.bridges <==> g in s.kernel.bridges)
    && (g in s.kernel.bridges ==>
          && t.kernel.bridges[g] == s.kernel.bridges[g]
          && (forall m :: m in s.kernel.bridges[g].members ==> (m in t.kernel.vlans <==> m in s.kernel.vlans)))
    && Queue(t.config, g) == Queue(s.config, g)
  }

  lemma {:induction false} StepOnAnother(s: State, c: Call, g: string)
    requires Inv(s) && c.group != Some(g)
    ensures SameGroup(s, Step(s, c), g)
  {
    if c.group.Some? {
      if g in s.kernel.bridges {
        MembersOfAnother(s.kernel, c.group.value, g);
      }
      match c
      case AddGroup(group, id) =>
        if id.Some? {
          InsertEnqueues(s.config, Entry(group.value, id.value), g);
        }
      case DelGroup(group) => DelGroupOnAnother(s, group.value, g);
      case _ =>
    }
  }

  lemma {:induction false} DelGroupOnAnother(s: State, h: string, g: string)
    requires Inv(s) && h != g
    ensures SameGroup(s, Step(s, DelGroup(Some(h))), g)
  {
    DeleteDropsFront(s.config, h, g);
    if g in s.kernel.bridges {
      MembersOfAnother(s.kernel, h, g);
    }
  }

  lemma {:induction false} MembersOfAnother(k: Kernel, h: string, g: string)
    requires Sane(k) && h != g && g in k.bridges
    ensures forall m :: m in k.bridges[g].members ==> Bridged(k, m)
    ensures forall m :: m in k.bridges[g].members && h in k.bridges ==> m !in k.bridges[h].members
  {
    forall m | m in k.bridges[g].members
      ensures Bridged(k, m) && (h in k.bridges ==> m !in k.bridges[h].members)
    {
      assert Holds(k, g, m) && !Holds(k, h, m);
    }
  }

  /** Over every run whose calls name other groups only, a group stays as it is. */
  lemma {:induction false} OtherGroupsUntouched(s: State, calls: seq<Call>, g: string)
    requires Inv(s) && AllOk(calls)
    requires forall i :: 0 <= i < |calls| ==> calls[i].group != Some(g)
    ensures SameGroup(s, Run(s, calls), g)
    decreases |calls|
  {
    if calls != [] {
      StepKeepsInv(s, calls[0]);
      StepOnAnother(s, calls[0], g);
      OtherGroupsUntouched(Step(s, calls[0]), calls[1..], g);
    }
  }

  // ---------------------------------------------------------------- deleting a group

  /** `delGroup` leaves no bridge, no VLAN device and no config entry of the group, and every
      other bridge and config entry as it was, in the same order. */
  lemma {:induction false} DelGroupRemovesTheGroupOnly(s: State, g: string)
    requires Inv(s) && g in s.kernel.bridges
    ensures var s' := Step(s, DelGroup(Some(g)));
            && s'.kernel.bridges.Keys == s.kernel.bridges.Keys - {g}
            && (forall h :: h in s'.kernel.bridges ==> s'.kernel.bridges[h] == s.kernel.bridges[h])
            && (forall m :: Holds(s.kernel, g, m) ==> !Bridged(s'.kernel, m) && m !in s'.kernel.vlans)
            && (forall v :: v in s.kernel.vlans && !Holds(s.kernel, g, v) ==> v in s'.kernel.vlans)
            && !Names(s'.config, g)
            && s'.config == Others(s.config, g)
  {
    var s' := Step(s, DelGroup(Some(g)));
    WithoutFirstDistinct(s.config, g);
    DeleteLeavesTheOthers(s.config, g);
    forall m, h | Holds(s.kernel, g, m) && Holds(s'.kernel, h, m) ensures false {
      assert Holds(s.kernel, h, m);
    }
  }

  // ---------------------------------------------------------------- sessions

  ghost predicate InterfaceCall(c: Call, g: string) {
    (c.AddInterface? || c.DelInterface? || c.DeleteAllInterfaces?) && c.group == Some(g)
  }

  /** The VLAN device outside all bridges that a call on a new group names, if it does; `id` is the
      default the group was made with. */
  ghost function Taken(s: State, c: Call, id: Option<string>): set<string> {
    var vlanID := if c.AddInterface? && c.id.Some? then c.id else id;
    if c.AddInterface? && c.ifName.Some? && vlanID.Some? then
      var dev := Device(c.ifName.value, vlanID.value);
      if dev in s.kernel.vlans && !Bridged(s.kernel, dev) then {dev} else {}
    else {}
  }

  ghost function AllTaken(s: State, calls: seq<Call>, id: Option<string>): set<string>
    decreases |calls|
  {
    if calls == [] then {} else Taken(s, calls[0], id) + AllTaken(s, calls[1..], id)
  }

  /** Creating a group, any interface calls on it, then deleting it restores both states, config
      order included, but for the VLAN devices outside all bridges that the calls named. */
  lemma {:induction false} SessionLeaves(s: State, g: string, id: Option<string>, calls: seq<Call>)
    requires Inv(s) && g !in s.kernel.bridges
    requires CallOk(AddGroup(Some(g), id)) && AllOk(calls)
    requires forall i :: 0 <= i < |calls| ==> InterfaceCall(calls[i], g)
    ensures Step(Run(Step(s, AddGroup(Some(g), id)), calls), DelGroup(Some(g)))
         == s.(kernel := s.kernel.(vlans := s.kernel.vlans - AllTaken(s, calls, id)))
  {
    var s1 := Step(s, AddGroup(Some(g), id));
    StepKeepsInv(s, AddGroup(Some(g), id));
    DefaultOfNewGroup(s, g, id);
    SessionRun(s, s1, s1.config, g, id, {}, calls);
    var t := Run(s1, calls);
    var t' := Step(t, DelGroup(Some(g)));
    assert t'.kernel.bridges == s.kernel.bridges;
    assert t'.kernel.vlans == s.kernel.vlans - ({} + AllTaken(s, calls, id));
    assert {} + AllTaken(s, calls, id) == AllTaken(s, calls, id);
  }

  /** A session restores both states exactly if and only if none of its calls names a VLAN device
      that was left outside all bridges. */
  lemma {:induction false} SessionRestores(s: State, g: string, id: Option<string>, calls: seq<Call>)
    requires Inv(s) && g !in s.kernel.bridges
    requires CallOk(AddGroup(Some(g), id)) && AllOk(calls)
    requires forall i :: 0 <= i < |calls| ==> InterfaceCall(calls[i], g)
    ensures Step(Run(Step(s, AddGroup(Some(g), id)), calls), DelGroup(Some(g))) == s
       <==> forall i :: 0 <= i < |calls| ==> Taken(s, calls[i], id) == {}
  {
    SessionLeaves(s, g, id, calls);
    NothingTaken(s, calls, id);
    var out := AllTaken(s, calls, id);
    if out != {} {
      var v :| v in out;
      assert v in s.kernel.vlans && v !in s.kernel.vlans - out;
    } else {
      assert s.kernel.vlans - out == s.kernel.vlans;
    }
  }

  /** `addGroup` followed by `delGroup` undoes it, leftover devices or not. */
  lemma {:induction false} DelGroupUndoesAddGroup(s: State, g: string, id: Option<string>)
    requires Inv(s) && g !in s.kernel.bridges && CallOk(AddGroup(Some(g), id))
    ensures Step(Step(s, AddGroup(Some(g), id)), DelGroup(Some(g))) == s
  {
    SessionRestores(s, g, id, []);
  }

  lemma {:induction false} NothingTaken(s: State, calls: seq<Call>, id: Option<string>)
    ensures AllTaken(s, calls, id) == {} <==> forall i :: 0 <= i < |calls| ==> Taken(s, calls[i], id) == {}
    ensures AllTaken(s, calls, id) <= s.kernel.vlans
    decreases |calls|
  {
    if calls != [] {
      NothingTaken(s, calls[1..], id);
      assert forall i :: 0 < i < |calls| ==> calls[i] == calls[1..][i - 1];
      assert calls[0] == calls[0];
    }
  }

  /** A group that does not exist has no config entry: a new one starts with its own default, and
      taking it off again gives the old list. */
  lemma {:induction false} DefaultOfNewGroup(s: State, g: string, id: Option<string>)
    requires Inv(s) && g !in s.kernel.bridges
    ensures WithoutFirst(Step(s, AddGroup(Some(g), id)).config, g) == s.config
    ensures FirstId(Step(s, AddGroup(Some(g), id)).config, g) == id
  {
    var es := Step(s, AddGroup(Some(g), id)).config;
    if id.Some? {
      FirstMatch(es, g, |s.config|);
      assert Removed(es, |s.config|) == s.config;
    } else {
      NoMatch(es, g);
    }
  }

  /** `t` is `s` plus a group whose members are VLAN devices, less the devices of `out`, which
      were outside all bridges. */
  ghost predicate Extends(s: State, t: State, config: seq<Entry>, g: string, out: set<string>) {
    && g !in s.kernel.bridges
    && t.kernel.bridges.Keys == s.kernel.bridges.Keys + {g}
    && (forall h :: h in s.kernel.bridges ==> t.kernel.bridges[h] == s.kernel.bridges[h])
    && t.kernel.bridges[g].members <= t.kernel.vlans
    && t.kernel.vlans - t.kernel.bridges[g].members == s.kernel.vlans - out
    && t.config == config
  }

  lemma {:induction false} SessionBridged(s: State, t: State, config: seq<Entry>, g: string, out: set<string>,
      dev: string)
    requires Extends(s, t, config, g, out)
    ensures Bridged(t.kernel, dev) <==> Bridged(s.kernel, dev) || dev in t.kernel.bridges[g].members
  {
    if Bridged(s.kernel, dev) {
      var h :| h in s.kernel.bridges && Holds(s.kernel, h, dev);
      assert Holds(t.kernel, h, dev);
    }
    if h :| h in t.kernel.bridges && Holds(t.kernel, h, dev) {
      assert h != g ==> Holds(s.kernel, h, dev);
    }
    assert dev in t.kernel.bridges[g].members ==> Holds(t.kernel, g, dev);
  }

  lemma {:induction false} SessionJoin(s: State, t: State, config: seq<Entry>, g: string, out: set<string>, dev: string)
    requires Extends(s, t, config, g, out)
    ensures var t' := if Bridged(t.kernel, dev) then t else t.(kernel := Joined(t.kernel, g, dev));
            var taken := if dev in s.kernel.vlans && !Bridged(s.kernel, dev) then {dev} else {};
            Extends(s, t', config, g, out + taken)
  {
    SessionBridged(s, t, config, g, out, dev);
    var members, free := t.kernel.bridges[g].members, t.kernel.vlans - t.kernel.bridges[g].members;
    if !Bridged(t.kernel, dev) {
      assert (t.kernel.vlans + {dev}) - (members + {dev}) == free - {dev};
    } else if !Bridged(s.kernel, dev) {
      assert dev !in free;
    }
  }

  lemma {:induction false} SessionLeave(s: State, t: State, config: seq<Entry>, g: string, out: set<string>,
      ifName: string, vlanID: string)
    requires Inv(t) && Extends(s, t, config, g, out) && Finds(t.kernel, g, ifName, vlanID)
    ensures Extends(s, t.(kernel := Left(t.kernel, g, ifName, vlanID)), config, g, out)
  {
    UntilIs(ifName, 0, |ifName|, DOT);
    assert ifName !in t.kernel.vlans;
  }

  lemma {:induction false} SessionClear(s: State, t: State, config: seq<Entry>, g: string, out: set<string>)
    requires Inv(t) && Extends(s, t, config, g, out)
    ensures Extends(s, t.(kernel := Cleared(t.kernel, g)), config, g, out)
  {
    assert forall m :: m in t.kernel.bridges[g].members ==> m in t.kernel.vlans;
    assert Cleared(t.kernel, g).bridges[g].members == {};
  }

  lemma {:induction false} SessionStep(s: State, t: State, config: seq<Entry>, g: string, id: Option<string>,
      out: set<string>, c: Call)
    requires Inv(t) && Extends(s, t, config, g, out) && FirstId(config, g) == id
    requires CallOk(c) && InterfaceCall(c, g)
    ensures Extends(s, Step(t, c), config, g, out + Taken(s, c, id))
  {
    if c.DeleteAllInterfaces? {
      SessionClear(s, t, config, g, out);
    } else if c.ifName.Some? && Resolve(t, g, c.id).Some? {
      var vlanID := Resolve(t, g, c.id).value;
      if c.AddInterface? {
        SessionJoin(s, t, config, g, out, Device(c.ifName.value, vlanID));
      } else if Finds(t.kernel, g, c.ifName.value, vlanID) {
        SessionLeave(s, t, config, g, out, c.ifName.value, vlanID);
      }
    }
    if !c.AddInterface? {
      assert out + {} == out;
    }
  }

  lemma {:induction false} SessionRun(s: State, t: State, config: seq<Entry>, g: string, id: Option<string>,
      out: set<string>, calls: seq<Call>)
    requires Inv(t) && Extends(s, t, config, g, out) && FirstId(config, g) == id
    requires AllOk(calls) && forall i :: 0 <= i < |calls| ==> InterfaceCall(calls[i], g)
    ensures Extends(s, Run(t, calls), config, g, out + AllTaken(s, calls, id))
    decreases |calls|
  {
    if calls != [] {
      SessionStep(s, t, config, g, id, out, calls[0]);
      StepKeepsInv(t, calls[0]);
      SessionRun(s, Step(t, calls[0]), config, g, id, out + Taken(s, calls[0], id), calls[1..]);
      assert out + Taken(s, calls[0], id) + AllTaken(s, calls[1..], id) == out + AllTaken(s, calls, id);
    } else {
      assert out + {} == out;
    }
  }

  // ---------------------------------------------------------------- statuses

  /** A NULL argument that is needed, a group that does not exist, or a missing ID for which the
      group has no default; the calls on whole groups mind the first only. */
  ghost predicate Refused(s: State, c: Call) {
    match c
    case AddInterface(group, ifName, id) =>
      || group.None? || ifName.None?
      || group.value !in s.kernel.bridges || (id.None? && Queue(s.config, group.value) == [])
    case DelInterface(group, ifName, id) =>
      || group.None? || ifName.None?
      || group.value !in s.kernel.bridges || (id.None? && Queue(s.config, group.value) == [])
    case AddGroup(group, _) => group.None?
    case DelGroup(group) => group.None?
    case DeleteAllInterfaces(group) => group.None?
  }

  /** The status of every call, in every state: -1 for the refused ones, which change nothing, and
      0 for all others. */
  lemma {:induction false} WhenCallsFail(s: State, c: Call)
    ensures Effect(s, c).1 == if Refused(s, c) then -1 else 0
    ensures Refused(s, c) ==> Step(s, c) == s
  {
    if c.group.Some? {
      GetIsFront(s.config, c.group.value);
    }
  }

  /** Creating a group that exists, and deleting or clearing one that does not, changes nothing. */
  lemma {:induction false} WhenGroupCallsDoNothing(s: State, g: string, id: Option<string>)
    ensures g in s.kernel.bridges ==> Step(s, AddGroup(Some(g), id)) == s
    ensures g !in s.kernel.bridges ==> Step(s, DelGroup(Some(g))) == s && Step(s, DeleteAllInterfaces(Some(g))) == s
  {
  }

  /** The ID an interface call works with: the one given, or else the oldest one stored. */
  lemma {:induction false} ResolveIs(s: State, g: string, id: Option<string>)
    ensures Resolve(s, g, id) == if id.Some? then id
                                 else if Queue(s.config, g) == [] then None
                                 else Some(Queue(s.config, g)[0])
  {
    GetIsFront(s.config, g);
  }

  /** A new group has no members; its ID, if one is given, is stored behind what its name has, and
      no other bridge, device or name notices. */
  lemma {:induction false} AddGroupMakesAnEmptyGroup(s: State, g: string, id: Option<string>)
    requires g !in s.kernel.bridges
    ensures var s' := Step(s, AddGroup(Some(g), id));
            && s'.kernel.bridges == s.kernel.bridges[g := Bridge(false, {})]
            && s'.kernel.vlans == s.kernel.vlans
            && (forall h :: Queue(s'.config, h)
                         == if h == g && id.Some? then Queue(s.config, g) + [id.value] else Queue(s.config, h))
  {
    if id.Some? {
      forall h ensures Queue(s.config + [Entry(g, id.value)], h)
                    == if h == g then Queue(s.config, g) + [id.value] else Queue(s.config, h)
      {
        InsertEnqueues(s.config, Entry(g, id.value), h);
      }
    }
  }

  /** Clearing a group takes out the members without a dot and the VLAN devices, and nothing else;
      the VLAN devices that were members are gone, and no config entry is touched. */
  lemma {:induction false} WhatClearingLeaves(s: State, g: string)
    requires Inv(s) && g in s.kernel.bridges
    ensures var s' := Step(s, DeleteAllInterfaces(Some(g)));
            && s'.config == s.config && s'.kernel.bridges.Keys == s.kernel.bridges.Keys
            && (forall h, m :: Holds(s'.kernel, h, m)
                          <==> Holds(s.kernel, h, m) && (h != g || ('.' in m && m !in s.kernel.vlans)))
            && (forall v :: v in s'.kernel.vlans <==> v in s.kernel.vlans && !Holds(s.kernel, g, v))
  {
    forall m: string ensures Dotless(m) <==> '.' !in m {
      UntilIs(m, 0, |m|, DOT);
    }
  }

  // ---------------------------------------------------------------- what the statuses do not say

  /** After a successful `addInterface` the device is in the group unless another group has it;
      all other memberships are untouched. */
  lemma {:induction false} AddInterfaceJoinsUnlessElsewhere(s: State, g: string, ifName: string, id: Option<string>)
    requires Inv(s) && g in s.kernel.bridges && (id.Some? || Queue(s.config, g) != [])
    ensures var dev := Device(ifName, if id.Some? then id.value else Queue(s.config, g)[0]);
            var (s', status) := Effect(s, AddInterface(Some(g), Some(ifName), id));
            && status == RETURN_OK && s'.config == s.config && s'.kernel.bridges.Keys == s.kernel.bridges.Keys
            && (Holds(s'.kernel, g, dev) <==> forall h :: h != g ==> !Holds(s.kernel, h, dev))
            && (forall h, m :: m != dev || h != g ==> (Holds(s'.kernel, h, m) <==> Holds(s.kernel, h, m)))
            && s'.kernel.vlans == s.kernel.vlans + (if Bridged(s.kernel, dev) then {} else {dev})
  {
    ResolveIs(s, g, id);
    var dev := Device(ifName, Resolve(s, g, id).value);
    if Bridged(s.kernel, dev) {
      var h :| Holds(s.kernel, h, dev);
    }
  }

  /** `addGroup` succeeds on a group that exists, without looking at the ID: the default is the
      given one exactly when the group was new or had that default already. */
  lemma {:induction false} AddGroupStoresDefaultWhenNew(s: State, g: string, id: string)
    requires Inv(s)
    ensures var (s', status) := Effect(s, AddGroup(Some(g), Some(id)));
            && status == RETURN_OK
            && (FirstId(s'.config, g) == Some(id) <==> g !in s.kernel.bridges || FirstId(s.config, g) == Some(id))
  {
    if g !in s.kernel.bridges {
      FirstMatch(s.config + [Entry(g, id)], g, |s.config|);
    }
  }

  /** What a successful `delInterface` achieves, for dotted interface names too: the device leaves
      the group exactly when the name has no dot and the device is a VLAN device; the bare
      interface leaves exactly when the device was found; every other membership stays. */
  lemma {:induction false} WhenDelInterfaceTakesOut(s: State, g: string, ifName: string, id: Option<string>)
    requires Inv(s) && g in s.kernel.bridges && (id.Some? || Queue(s.config, g) != []) && Word(ifName)
    ensures var k, dev := s.kernel, Device(ifName, if id.Some? then id.value else Queue(s.config, g)[0]);
            var (s', status) := Effect(s, DelInterface(Some(g), Some(ifName), id));
            && status == RETURN_OK && s'.config == s.config && s'.kernel.bridges.Keys == k.bridges.Keys
            && (Holds(s'.kernel, g, dev) <==> Holds(k, g, dev) && !(Free(ifName, DOT) && dev in k.vlans))
            && (Holds(s'.kernel, g, ifName) <==> Holds(k, g, ifName) && !(Free(ifName, DOT) && Holds(k, g, dev)))
            && (forall h, m :: h != g || (m != dev && m != ifName) ==> (Holds(s'.kernel, h, m) <==> Holds(k, h, m)))
            && s'.kernel.vlans == (if Free(ifName, DOT) && Holds(k, g, dev) then k.vlans - {dev} else k.vlans)
  {
    ResolveIs(s, g, id);
    assert |Device(ifName, Resolve(s, g, id).value)| > |ifName|;
  }

  /** Deleting the interface just added, under the ID given or the stored default, restores the
      state exactly when another group had the device, so that neither call did anything, or when
      the device was no VLAN device before and the group does not hold the bare interface, which
      `brctl delif` would take out as well. A dotted name is never found again, so there it takes
      a device that some group had before. */
  lemma {:induction false} WhenDelInterfaceUndoesAdd(s: State, g: string, ifName: string, id: Option<string>)
    requires Inv(s) && g in s.kernel.bridges && Resolve(s, g, id).Some?
    requires CallOk(AddInterface(Some(g), Some(ifName), id))
    ensures var added := Step(s, AddInterface(Some(g), Some(ifName), id));
            var restored := Step(added, DelInterface(Some(g), Some(ifName), id));
            var dev := Device(ifName, Resolve(s, g, id).value);
            (restored == s) == if Free(ifName, DOT) then
                                 (Bridged(s.kernel, dev) && !Holds(s.kernel, g, dev))
                                 || (dev !in s.kernel.vlans && !Holds(s.kernel, g, ifName))
                               else Bridged(s.kernel, dev)
  {
    var k, vlanID := s.kernel, Resolve(s, g, id).value;
    var dev := Device(ifName, vlanID);
    if Bridged(k, dev) {
      if Finds(k, g, ifName, vlanID) {
        LeaveChanges(k, g, ifName, vlanID);
      }
    } else {
      assert Holds(Joined(k, g, dev), g, dev) && !Holds(k, g, dev);
      if Free(ifName, DOT) {
        JoinThenLeave(k, g, ifName, vlanID);
      }
    }
  }

  lemma {:induction false} LeaveChanges(k: Kernel, g: string, ifName: string, id: string)
    requires Holds(k, g, Device(ifName, id))
    ensures Left(k, g, ifName, id) == k <==> Device(ifName, id) !in k.vlans && !Holds(k, g, ifName)
  {
    var dev, k' := Device(ifName, id), Left(k, g, ifName, id);
    if dev !in k.vlans {
      assert k'.bridges[g].members == k.bridges[g].members - {ifName};
      if !Holds(k, g, ifName) {
        assert k'.bridges[g] == k.bridges[g] && k'.bridges == k.bridges && k'.vlans == k.vlans;
      }
    } else {
      assert dev !in k'.vlans;
    }
  }

  lemma {:induction false} JoinThenLeave(k: Kernel, g: string, ifName: string, id: string)
    requires g in k.bridges && !Bridged(k, Device(ifName, id))
    ensures var dev := Device(ifName, id);
            Left(Joined(k, g, dev), g, ifName, id) == k <==> dev !in k.vlans && !Holds(k, g, ifName)
  {
    var dev := Device(ifName, id);
    var b := k.bridges[g];
    assert !Holds(k, g, dev);
    var k' := Left(Joined(k, g, dev), g, ifName, id);
    assert k'.bridges[g].members == b.members - {ifName};
    assert k'.vlans == k.vlans - {dev};
    if !Holds(k, g, ifName) {
      assert k'.bridges[g] == b;
      assert k'.bridges == k.bridges;
    }
  }

  // ---------------------------------------------------------------- runs that show the failures

  lemma {:induction false} RunStep(s: State, c: Call, more: seq<Call>)
    ensures Run(s, [c] + more) == Run(Step(s, c), more)
    ensures Statuses(s, [c] + more) == [Effect(s, c).1] + Statuses(Step(s, c), more)
  {
    assert ([c] + more)[1..] == more;
  }

  lemma {:induction false} RunOfTwo(s: State, a: Call, b: Call)
    ensures Run(s, [a, b]) == Step(Step(s, a), b)
    ensures Statuses(s, [a, b]) == [Effect(s, a).1, Effect(Step(s, a), b).1]
  {
    assert [a, b] == [a] + ([b] + []);
    RunStep(s, a, [b] + []);
    RunStep(Step(s, a), b, []);
  }

  lemma {:induction false} RunOfThree(s: State, a: Call, b: Call, c: Call)
    ensures Run(s, [a, b, c]) == Step(Step(Step(s, a), b), c)
    ensures Statuses(s, [a, b, c]) == [Effect(s, a).1, Effect(Step(s, a), b).1, Effect(Step(Step(s, a), b), c).1]
  {
    assert [a, b, c] == [a] + [b, c];
    RunStep(s, a, [b, c]);
    RunOfTwo(Step(s, a), b, c);
  }

  /** A second `addGroup` reports success and keeps the first default. */
  lemma {:induction false} SecondDefaultIsIgnored()
    ensures var start := State(Kernel(map[], {}), []);
            var calls := [AddGroup(Some("lan"), Some("5")), AddGroup(Some("lan"), Some("6"))];
            && Sane(start.kernel) && Statuses(start, calls) == [RETURN_OK, RETURN_OK]
            && FirstId(Run(start, calls).config, "lan") == Some("5")
  {
    var start := State(Kernel(map[], {}), []);
    RunOfTwo(start, AddGroup(Some("lan"), Some("5")), AddGroup(Some("lan"), Some("6")));
    assert Step(start, AddGroup(Some("lan"), Some("5"))).config == [Entry("lan", "5")];
  }

  /** A device that another group holds: success, and the device is not in the group. */
  lemma {:induction false} InterfaceStaysElsewhere()
    ensures var start := State(Kernel(map["lan" := Bridge(false, {"eth0.7"})], {}), []);
            var calls := [AddGroup(Some("guest"), Some("7")), AddInterface(Some("guest"), Some("eth0"), None)];
            && Sane(start.kernel) && Statuses(start, calls) == [RETURN_OK, RETURN_OK]
            && !Holds(Run(start, calls).kernel, "guest", "eth0.7")
  {
    var k := Kernel(map["lan" := Bridge(false, {"eth0.7"})], {});
    var a, b := AddGroup(Some("guest"), Some("7")), AddInterface(Some("guest"), Some("eth0"), None);
    RunOfTwo(State(k, []), a, b);
    assert Step(State(k, []), a).config == [Entry("guest", "7")];
    assert Device("eth0", "7") == "eth0.7";
    assert Holds(Step(State(k, []), a).kernel, "lan", "eth0.7");
  }

  /** Adding and deleting an interface takes the bare interface out of its group. */
  lemma {:induction false} BareInterfaceIsLost()
    ensures var start := State(Kernel(map["lan" := Bridge(false, {"eth0"})], {}), []);
            var calls := [AddInterface(Some("lan"), Some("eth0"), Some("7")),
                          DelInterface(Some("lan"), Some("eth0"), Some("7"))];
            && Sane(start.kernel) && Statuses(start, calls) == [RETURN_OK, RETURN_OK]
            && !Holds(Run(start, calls).kernel, "lan", "eth0")
  {
    var start := State(Kernel(map["lan" := Bridge(false, {"eth0"})], {}), []);
    var a, b := AddInterface(Some("lan"), Some("eth0"), Some("7")), DelInterface(Some("lan"), Some("eth0"), Some("7"));
    RunOfTwo(start, a, b);
    assert Device("eth0", "7") == "eth0.7" && |"eth0.7"| != |"eth0"|;
    assert Finds(Step(start, a).kernel, "lan", "eth0", "7");
  }

  /** A device that `vconfig` did not make is found and stays. */
  lemma {:induction false} FoundDeviceStays()
    ensures var start := State(Kernel(map["lan" := Bridge(false, {"wl0.1"})], {}), []);
            var calls := [DelInterface(Some("lan"), Some("wl0"), Some("1"))];
            && Sane(start.kernel) && Finds(start.kernel, "lan", "wl0", "1")
            && Statuses(start, calls) == [RETURN_OK]
            && Holds(Run(start, calls).kernel, "lan", "wl0.1")
  {
    var start := State(Kernel(map["lan" := Bridge(false, {"wl0.1"})], {}), []);
    var a := DelInterface(Some("lan"), Some("wl0"), Some("1"));
    RunStep(start, a, []);
    assert [a] + [] == [a];
    assert Device("wl0", "1") == "wl0.1";
    WhenDelInterfaceTakesOut(start, "lan", "wl0", Some("1"));
  }

  /** A VLAN device on a dotted interface is added and never found again. */
  lemma {:induction false} DottedInterfaceStays()
    ensures var start := State(Kernel(map["lan" := Bridge(false, {})], {}), []);
            var calls := [AddInterface(Some("lan"), Some("wl0.1"), Some("7")),
                          DelInterface(Some("lan"), Some("wl0.1"), Some("7"))];
            && Sane(start.kernel) && Statuses(start, calls) == [RETURN_OK, RETURN_OK]
            && Holds(Run(start, calls).kernel, "lan", "wl0.1.7")
  {
    var start := State(Kernel(map["lan" := Bridge(false, {})], {}), []);
    var a := AddInterface(Some("lan"), Some("wl0.1"), Some("7"));
    var b := DelInterface(Some("lan"), Some("wl0.1"), Some("7"));
    RunOfTwo(start, a, b);
    assert Device("wl0.1", "7") == "wl0.1.7";
    assert "wl0.1"[3] == '.';
  }

  /** Clearing a group leaves a dotted device that `vconfig` did not make. */
  lemma {:induction false} DottedDeviceStays()
    ensures var start := State(Kernel(map["lan" := Bridge(false, {"wl0.1"})], {}), []);
            var calls := [DeleteAllInterfaces(Some("lan"))];
            && Sane(start.kernel) && Statuses(start, calls) == [RETURN_OK]
            && Holds(Run(start, calls).kernel, "lan", "wl0.1")
  {
    var start := State(Kernel(map["lan" := Bridge(false, {"wl0.1"})], {}), []);
    RunStep(start, DeleteAllInterfaces(Some("lan")), []);
    assert [DeleteAllInterfaces(Some("lan"))] + [] == [DeleteAllInterfaces(Some("lan"))];
    assert "wl0.1"[3] == '.';
    UntilIs("wl0.1", 0, 5, DOT);
  }

  /** A session of one call, as a run. */
  lemma {:induction false} SessionOfOne(s: State, g: string, id: Option<string>, c: Call)
    requires Inv(s) && g !in s.kernel.bridges
    requires CallOk(AddGroup(Some(g), id)) && CallOk(c) && InterfaceCall(c, g)
    ensures var calls := [AddGroup(Some(g), id), c, DelGroup(Some(g))];
            && Run(s, calls) == s.(kernel := s.kernel.(vlans := s.kernel.vlans - Taken(s, c, id)))
            && Statuses(s, calls) == [RETURN_OK, Effect(Step(s, AddGroup(Some(g), id)), c).1, RETURN_OK]
  {
    var a, b := AddGroup(Some(g), id), DelGroup(Some(g));
    RunOfThree(s, a, c, b);
    SessionLeaves(s, g, id, [c]);
    RunStep(Step(s, a), c, []);
    assert [c] + [] == [c];
    assert AllTaken(s, [c], id) == Taken(s, c, id) + {};
  }

  /** A session that names a leftover VLAN device destroys it. */
  lemma {:induction false} LeftoverDeviceIsTaken()
    ensures var start := State(Kernel(map[], {"eth0.7"}), []);
            var calls := [AddGroup(Some("lan"), Some("7")), AddInterface(Some("lan"), Some("eth0"), None),
                          DelGroup(Some("lan"))];
            && Sane(start.kernel) && Statuses(start, calls) == [RETURN_OK, RETURN_OK, RETURN_OK]
            && Run(start, calls) == State(Kernel(map[], {}), [])
  {
    var start := State(Kernel(map[], {"eth0.7"}), []);
    var a, b := AddGroup(Some("lan"), Some("7")), AddInterface(Some("lan"), Some("eth0"), None);
    UntilIs("eth0.7", 0, 4, DOT);
    SessionOfOne(start, "lan", Some("7"), b);
    assert Device("eth0", "7") == "eth0.7";
    assert Step(start, a).config == [Entry("lan", "7")];
  }
}
