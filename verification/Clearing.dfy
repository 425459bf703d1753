/**
 What `vlan_hal_delete_all_Interfaces` achieves: deleting, one by one, the devices of a listing
 taken before the first deletion.
 */
module Clearing {
  import opened CText
  import opened Bridges

  /** Members the per-line deletion takes out: VLAN devices, and names without a dot. A dotted
      name that is no VLAN device survives, because the command then names its base interface. */
  predicate Removable(k: Kernel, m: string) { Dotless(m) || m in k.vlans }

  /** A bridge cleared of its removable members, and its VLAN devices gone. */
  ghost function Cleared(k: Kernel, g: string): Kernel
    requires g in k.bridges
  {
    var b := k.bridges[g];
    Kernel(k.bridges[g := b.(members := set m | m in b.members && !Removable(k, m))], k.vlans - b.members)
  }

  /** The kernel on the way from `k0` to cleared, when the lines of `done` have been handled. */
  ghost predicate Progress(k0: Kernel, k: Kernel, g: string, done: set<string>) {
    && g in k0.bridges && k.bridges.Keys == k0.bridges.Keys
    && (forall h :: h in k0.bridges && h != g ==> k.bridges[h] == k0.bridges[h])
    && k.bridges[g].stp == k0.bridges[g].stp
    && k.bridges[g].members <= k0.bridges[g].members
    && (forall m :: m in k0.bridges[g].members && (!Removable(k0, m) || (Dotted(m) && m !in done)) ==>
          m in k.bridges[g].members)
    && (forall m :: m in done && Removable(k0, m) ==> m !in k.bridges[g].members)
    && k.vlans == k0.vlans - done * k0.bridges[g].members
  }

  lemma {:induction false} ProgressKeepsSane(k0: Kernel, k: Kernel, g: string, done: set<string>)
    requires Sane(k0) && Progress(k0, k, g, done)
    ensures Sane(k)
  {
    forall h, m | Holds(k, h, m) ensures Holds(k0, h, m) {
    }
  }

  lemma {:induction false} ProgressStart(k: Kernel, g: string)
    requires Sane(k) && g in k.bridges
    ensures Progress(k, k, g, {})
  {
  }

  /** A line without a dot: the bare name leaves the group, if it was there. */
  lemma {:induction false} DotlessLine(k: Kernel, g: string, m: string)
    requires Sane(k) && g in k.bridges && Word(m) && Dotless(m)
    ensures DelDevice(k, g, ScanDevice(m + "\n").0, ScanDevice(m + "\n").1) == DelIf(k, g, m)
  {
    var ifName := m + "\n";
    ScanOfLine(m);
    UntilIs(m, 0, |m|, DOT);
    UntilIs(ifName, 0, |m|, NEWLINE);
    assert ifName[..|m|] == m;
    if m in k.bridges[g].members {
      assert m in Named(k.bridges[g]);
    } else {
      assert k.bridges[g].members - {m} == k.bridges[g].members;
      assert DelIf(k, g, m) == k;
    }
  }

  /** A line whose name starts with a dot scans as two empty strings and changes nothing. */
  lemma {:induction false} OddLine(k: Kernel, g: string, m: string)
    requires Sane(k) && g in k.bridges && Word(m) && FirstDot(m) == 0
    ensures DelDevice(k, g, ScanDevice(m + "\n").0, ScanDevice(m + "\n").1) == k
  {
    ScanOfLine(m);
    FirstDotOfDevice([], []);
    assert !Holds(k, g, []);
    assert k.bridges[g].members - {[]} == k.bridges[g].members;
    assert DelIf(k, g, []) == k;
  }

  /** A line "if.id": a VLAN device leaves both states, and so does the bare base name. */
  lemma {:induction false} DottedLine(k: Kernel, g: string, m: string)
    requires Sane(k) && g in k.bridges && Word(m) && Dotted(m)
    ensures var k' := DelDevice(k, g, ScanDevice(m + "\n").0, ScanDevice(m + "\n").1);
            k' == if !Holds(k, g, m) then k
                  else if m in k.vlans then DelIf(DelIf(k, g, m).(vlans := k.vlans - {m}), g, m[..FirstDot(m)])
                  else DelIf(k, g, m[..FirstDot(m)])
  {
    var ifName, vlanID := m[..FirstDot(m)], m[FirstDot(m) + 1..];
    ScanOfLine(m);
    DottedIsDevice(m);
    GroupProbeIsExact(k, g, ifName, vlanID);
    UntilIs(ifName, 0, |ifName|, NEWLINE);
    if Holds(k, g, m) && m in k.vlans {
      VconfigRemIn(k, g, m);
    }
  }

  lemma {:induction false} ProgressDotted(k0: Kernel, k: Kernel, g: string, done: set<string>, m: string)
    requires Sane(k0) && Progress(k0, k, g, done) && Word(m) && Dotted(m)
    ensures Progress(k0, DelDevice(k, g, ScanDevice(m + "\n").0, ScanDevice(m + "\n").1), g, done + {m})
  {
    ProgressKeepsSane(k0, k, g, done);
    DottedLine(k, g, m);
    var base := m[..FirstDot(m)];
    UntilIs(m, 0, FirstDot(m), DOT);
    UntilIs(base, 0, |base|, DOT);
    assert Dotless(base);
    if !Holds(k, g, m) {
      assert (done + {m}) * k0.bridges[g].members == done * k0.bridges[g].members;
    }
  }

  lemma {:induction false} ProgressOther(k0: Kernel, k: Kernel, g: string, done: set<string>, m: string)
    requires Sane(k0) && Progress(k0, k, g, done) && Word(m) && !Dotted(m)
    ensures Progress(k0, DelDevice(k, g, ScanDevice(m + "\n").0, ScanDevice(m + "\n").1), g, done + {m})
  {
    ProgressKeepsSane(k0, k, g, done);
    assert m !in k0.vlans;
    if Dotless(m) {
      DotlessLine(k, g, m);
    } else {
      OddLine(k, g, m);
    }
  }

  /** Handling one more line, whatever it names. */
  lemma {:induction false} ProgressStep(k0: Kernel, k: Kernel, g: string, done: set<string>, m: string)
    requires Sane(k0) && Progress(k0, k, g, done) && Word(m)
    ensures Progress(k0, DelDevice(k, g, ScanDevice(m + "\n").0, ScanDevice(m + "\n").1), g, done + {m})
  {
    if Dotted(m) {
      ProgressDotted(k0, k, g, done, m);
    } else {
      ProgressOther(k0, k, g, done, m);
    }
  }

  lemma {:induction false} ProgressEnd(k0: Kernel, k: Kernel, g: string, done: set<string>)
    requires Sane(k0) && Progress(k0, k, g, done) && k0.bridges[g].members <= done
    ensures k == Cleared(k0, g) && Sane(k)
  {
    ProgressKeepsSane(k0, k, g, done);
    var c := Cleared(k0, g);
    assert k.bridges[g].members == c.bridges[g].members;
    assert k.bridges[g] == c.bridges[g];
    assert k.bridges == c.bridges;
    assert done * k0.bridges[g].members == k0.bridges[g].members;
  }

  /** A group is emptied exactly when each of its dotted members is a VLAN device. */
  lemma {:induction false} WhenClearedIsEmpty(k: Kernel, g: string)
    requires g in k.bridges
    ensures Cleared(k, g).bridges[g].members == {}
       <==> forall m :: m in k.bridges[g].members && !Dotless(m) ==> m in k.vlans
  {
    if m :| m in k.bridges[g].members && !Removable(k, m) {
      assert m in Cleared(k, g).bridges[g].members;
    }
  }

  lemma {:induction false} ClearedIsSane(k: Kernel, g: string)
    requires Sane(k) && g in k.bridges
    ensures Sane(Cleared(k, g))
  {
    forall h, m | Holds(Cleared(k, g), h, m) ensures Holds(k, h, m) {
    }
  }
}
