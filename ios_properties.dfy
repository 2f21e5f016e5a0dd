/** Properties of the iOS detection pass: the filters, the matcher, the
    version updates, the single poll, registration and the fallback. */
module IOSProperties {
  import opened Ruby
  import opened IOS
  import Controller

  // ---------------------------------------------------------------------------
  // The filters

  lemma {:induction false} ConnectedDevicesMembers(devices: seq<LocalDevice>)
    ensures forall d :: d in ConnectedDevices(devices) <==> d in devices && d.trusted
  {
    if devices != [] {
      ConnectedDevicesMembers(devices[1..]);
      assert forall d :: d in devices <==> d == devices[0] || d in devices[1..];
    }
  }

  /** Selecting the trusted devices a second time changes nothing. */
  lemma {:induction false} ConnectedDevicesIdempotent(devices: seq<LocalDevice>)
    ensures ConnectedDevices(ConnectedDevices(devices)) == ConnectedDevices(devices)
  {
    if devices != [] {
      ConnectedDevicesIdempotent(devices[1..]);
      var rest := ConnectedDevices(devices[1..]);
      if devices[0].trusted {
        assert ConnectedDevices(devices) == [devices[0]] + rest;
        assert ([devices[0]] + rest)[1..] == rest;
        assert ConnectedDevices([devices[0]] + rest) == [devices[0]] + ConnectedDevices(rest);
      } else {
        assert ConnectedDevices(devices) == rest;
      }
    }
  }

  /** get_hivemind_devices keeps exactly the records whose OS name is "ios" up
      to ASCII case, and fails when `connected_devices` is missing or some
      record's OS name is not a string. */
  lemma {:induction false} SelectIOSSpec(recs: seq<Record>)
    ensures SelectIOS(recs).Some? <==> forall rec :: rec in recs ==> OsName(rec).Str?
    ensures SelectIOS(recs).Some? ==>
      forall rec :: rec in SelectIOS(recs).value <==> rec in recs && IsIOSRecord(rec)
  {
    if recs != [] {
      SelectIOSSpec(recs[1..]);
      assert forall rec :: rec in recs <==> rec == recs[0] || rec in recs[1..];
    }
  }

  /** The selection keeps snapshot order and duplicates: selecting from two
      parts of the snapshot one after the other gives the selection of the whole. */
  lemma {:induction false} SelectIOSAppend(a: seq<Record>, b: seq<Record>)
    ensures SelectIOS(a + b).Some? <==> SelectIOS(a).Some? && SelectIOS(b).Some?
    ensures SelectIOS(a + b).Some? ==> SelectIOS(a + b).value == SelectIOS(a).value + SelectIOS(b).value
    decreases |a|
  {
    if a == [] {
      assert a + b == b;
    } else {
      SelectIOSAppend(a[1..], b);
      var x := a[0];
      assert (a + b)[0] == x && (a + b)[1..] == a[1..] + b;
      if OsName(x).Str? {
        var head := if IsIOSRecord(x) then [x] else [];
        var rest := SelectIOS(a[1..] + b);
        assert SelectIOS(a + b) == if rest.None? then None else Some(head + rest.value);
        assert SelectIOS(a) == if SelectIOS(a[1..]).None? then None else Some(head + SelectIOS(a[1..]).value);
      }
    }
  }

  /** A single record is kept exactly when it is an iOS record. */
  lemma SelectIOSOne(rec: Record)
    requires OsName(rec).Str?
    ensures SelectIOS([rec]) == Some(if IsIOSRecord(rec) then [rec] else [])
  {
    assert [rec][1..] == [];
    var head := if IsIOSRecord(rec) then [rec] else [];
    assert head + [] == head;
  }

  lemma HiveMindDevicesSpec(details: DeviceDetails)
    ensures HiveMindDevices(details).None? <==>
      details.connectedDevices.None? || exists rec :: rec in details.connectedDevices.value && !OsName(rec).Str?
    ensures HiveMindDevices(details).Some? ==>
      forall rec :: rec in HiveMindDevices(details).value <==> rec in details.connectedDevices.value && IsIOSRecord(rec)
  {
    if details.connectedDevices.Some? {
      SelectIOSSpec(details.connectedDevices.value);
    }
  }

  /** Case-insensitive platform test: "ios", "IOS" and "iOS" are iOS records, "android" is not. */
  lemma IOSNames()
    ensures CaseEqual("IOS", "ios") && CaseEqual("iOS", "ios") && CaseEqual("ios", "ios")
    ensures !CaseEqual("android", "ios") && !CaseEqual("ipados", "ios")
  {
    assert Downcase("IOS") == "ios";
    assert Downcase("iOS") == "ios";
    assert Downcase("ios") == "ios";
    assert |Downcase("android")| == 7;
    assert |Downcase("ipados")| == 6;
  }

  lemma {:induction false} MatchingMembers(pool: seq<LocalDevice>, serial: Value)
    ensures forall d :: d in Matching(pool, serial) <==> d in pool && d.trusted && Str(d.serial) == serial
  {
    if pool != [] {
      MatchingMembers(pool[1..], serial);
      assert forall d :: d in pool <==> d == pool[0] || d in pool[1..];
    }
  }

  // ---------------------------------------------------------------------------
  // A reference for the matcher that does not shrink a pool

  /** The serials of `recs`, as `device['serial']` reads them. */
  function SerialsOf(recs: seq<Record>): set<Value>
    decreases |recs|
  {
    if recs == [] then {} else SerialsOf(recs[..|recs| - 1]) + {Get(recs[|recs| - 1], "serial")}
  }

  lemma {:induction false} SerialsOfHas(recs: seq<Record>, i: nat)
    requires i < |recs|
    ensures Get(recs[i], "serial") in SerialsOf(recs)
    decreases |recs|
  {
    if i < |recs| - 1 {
      SerialsOfHas(recs[..|recs| - 1], i);
    }
  }

  /** The devices of `pool` left once every trusted device whose serial is in `serials` is removed. */
  function Unclaimed(pool: seq<LocalDevice>, serials: set<Value>): seq<LocalDevice>
  {
    if pool == [] then []
    else (if pool[0].trusted && Str(pool[0].serial) in serials then [] else [pool[0]]) + Unclaimed(pool[1..], serials)
  }

  lemma {:induction false} UnclaimedMembers(pool: seq<LocalDevice>, serials: set<Value>)
    ensures forall d :: d in Unclaimed(pool, serials) <==> d in pool && !(d.trusted && Str(d.serial) in serials)
  {
    if pool != [] {
      UnclaimedMembers(pool[1..], serials);
      assert forall d :: d in pool <==> d == pool[0] || d in pool[1..];
    }
  }

  /** The devices record `i` claims: the trusted devices carrying its serial,
      unless an earlier record has the same serial (then there are none left). */
  function Claim(recs: seq<Record>, pool: seq<LocalDevice>, i: nat): seq<LocalDevice>
    requires i < |recs|
  {
    var s := Get(recs[i], "serial");
    if s in SerialsOf(recs[..i]) then [] else Matching(pool, s)
  }

  predicate Matched(recs: seq<Record>, pool: seq<LocalDevice>, i: nat)
    requires i < |recs|
  {
    Claim(recs, pool, i) != []
  }

  /** The device a matched record works with (`registered_device[0]`). */
  function MatchedDevice(recs: seq<Record>, pool: seq<LocalDevice>, i: nat): LocalDevice
    requires i < |recs| && Matched(recs, pool, i)
  {
    Claim(recs, pool, i)[0]
  }

  function ClaimContribution(env: Env, recs: seq<Record>, pool: seq<LocalDevice>, i: nat): Contribution
    requires i < |recs|
  {
    if Matched(recs, pool, i) then Contribute(env, recs[i], MatchedDevice(recs, pool, i))
    else Contribution([], [], [])
  }

  /** What each record adds to the pass, record by record. */
  function Contributions(env: Env, recs: seq<Record>, pool: seq<LocalDevice>): seq<Contribution>
  {
    seq(|recs|, i requires 0 <= i < |recs| => ClaimContribution(env, recs, pool, i))
  }

  function AllCalls(cs: seq<Contribution>): seq<Call>
    decreases |cs|
  {
    if cs == [] then [] else AllCalls(cs[..|cs| - 1]) + cs[|cs| - 1].calls
  }

  function AllHandles(cs: seq<Contribution>): seq<Handle>
    decreases |cs|
  {
    if cs == [] then [] else AllHandles(cs[..|cs| - 1]) + cs[|cs| - 1].handles
  }

  function AllToPoll(cs: seq<Contribution>): seq<Value>
    decreases |cs|
  {
    if cs == [] then [] else AllToPoll(cs[..|cs| - 1]) + cs[|cs| - 1].toPoll
  }

  /** The record loop, described record by record without the shrinking pool. */
  function PerRecord(env: Env, recs: seq<Record>, pool: seq<LocalDevice>): MatchState
  {
    var cs := Contributions(env, recs, pool);
    MatchState(AllCalls(cs), AllHandles(cs), AllToPoll(cs), Unclaimed(pool, SerialsOf(recs)))
  }

  lemma {:induction false} UnclaimedNone(pool: seq<LocalDevice>)
    ensures Unclaimed(pool, {}) == pool
  {
    if pool != [] {
      UnclaimedNone(pool[1..]);
    }
  }

  /** Looking for a serial among the unclaimed devices finds nothing when the
      serial was claimed already, and otherwise what the full pool holds. */
  lemma {:induction false} MatchingUnclaimed(pool: seq<LocalDevice>, serials: set<Value>, s: Value)
    ensures Matching(Unclaimed(pool, serials), s) == if s in serials then [] else Matching(pool, s)
  {
    if pool != [] {
      MatchingUnclaimed(pool[1..], serials, s);
      var x := pool[0];
      var rest := Unclaimed(pool[1..], serials);
      var here := if x.trusted && Str(x.serial) == s then [x] else [];
      assert Matching(pool, s) == here + Matching(pool[1..], s);
      if !(x.trusted && Str(x.serial) in serials) {
        assert Unclaimed(pool, serials) == [x] + rest;
        assert ([x] + rest)[1..] == rest;
        assert Matching([x] + rest, s) == here + Matching(rest, s);
        if s in serials {
          assert here == [];
        }
      } else {
        assert Unclaimed(pool, serials) == rest;
        if s !in serials {
          assert here == [];
        }
      }
    }
  }

  /** Array#- with the devices selected by serial drops exactly those devices. */
  lemma {:induction false} MinusMatching(a: seq<LocalDevice>, b: seq<LocalDevice>, s: Value)
    requires forall x :: x in a ==> (x in b <==> x.trusted && Str(x.serial) == s)
    ensures Minus(a, b) == Unclaimed(a, {s})
  {
    if a != [] {
      MinusMatching(a[1..], b, s);
    }
  }

  lemma {:induction false} UnclaimedUnion(pool: seq<LocalDevice>, serials: set<Value>, s: Value)
    ensures Unclaimed(Unclaimed(pool, serials), {s}) == Unclaimed(pool, serials + {s})
  {
    if pool != [] {
      UnclaimedUnion(pool[1..], serials, s);
      var x := pool[0];
      var rest := Unclaimed(pool[1..], serials);
      var kept := if x.trusted && Str(x.serial) in serials + {s} then [] else [x];
      assert Unclaimed(pool, serials + {s}) == kept + Unclaimed(pool[1..], serials + {s});
      if !(x.trusted && Str(x.serial) in serials) {
        assert Unclaimed(pool, serials) == [x] + rest;
        assert ([x] + rest)[1..] == rest;
        assert Unclaimed([x] + rest, {s}) == kept + Unclaimed(rest, {s});
      } else {
        assert Unclaimed(pool, serials) == rest;
        assert kept == [];
      }
    }
  }

  lemma {:induction false} UnclaimedNoMatch(pool: seq<LocalDevice>, s: Value)
    requires Matching(pool, s) == []
    ensures Unclaimed(pool, {s}) == pool
  {
    if pool != [] {
      UnclaimedNoMatch(pool[1..], s);
    }
  }

  /** One record's claim, seen from the devices left unclaimed by earlier serials. */
  lemma {:induction false} ClaimStep(pool: seq<LocalDevice>, serials: set<Value>, s: Value)
    ensures Matching(Unclaimed(pool, serials), s) == if s in serials then [] else Matching(pool, s)
    ensures Matching(Unclaimed(pool, serials), s) != [] ==>
      Minus(Unclaimed(pool, serials), Matching(Unclaimed(pool, serials), s)) == Unclaimed(pool, serials + {s})
    ensures Matching(Unclaimed(pool, serials), s) == [] ==>
      Unclaimed(pool, serials) == Unclaimed(pool, serials + {s})
  {
    var left := Unclaimed(pool, serials);
    var claim := Matching(left, s);
    MatchingUnclaimed(pool, serials, s);
    UnclaimedUnion(pool, serials, s);
    if claim != [] {
      MatchingMembers(left, s);
      MinusMatching(left, claim, s);
    } else if s in serials {
      assert serials + {s} == serials;
    } else {
      UnclaimedNoMatch(left, s);
    }
  }

  /** The record loop, which removes claimed devices from `connected_devices`
      as it goes, computes the same as the record-by-record reference: record
      `i` works with the first trusted device carrying its serial unless an
      earlier record carries that serial, and the devices left at the end are
      those whose serial no record carries. */
  lemma {:induction false} MatchAllIsPerRecord(env: Env, recs: seq<Record>, pool: seq<LocalDevice>)
    ensures MatchAll(env, recs, pool) == PerRecord(env, recs, pool)
    ensures MatchAll(env, recs, pool).pool == Unclaimed(pool, SerialsOf(recs))
    decreases |recs|
  {
    if recs == [] {
      UnclaimedNone(pool);
      assert Contributions(env, recs, pool) == [];
    } else {
      var n := |recs| - 1;
      MatchAllIsPerRecord(env, recs[..n], pool);
      StepIsPerRecord(env, recs, pool, MatchAll(env, recs[..n], pool));
    }
  }

  lemma StepIsPerRecord(env: Env, recs: seq<Record>, pool: seq<LocalDevice>, st: MatchState)
    requires recs != []
    requires st == PerRecord(env, recs[..|recs| - 1], pool)
    ensures Step(env, st, recs[|recs| - 1]) == PerRecord(env, recs, pool)
  {
    var n := |recs| - 1;
    var s := Get(recs[n], "serial");
    var serials := SerialsOf(recs[..n]);
    assert SerialsOf(recs) == serials + {s};
    ClaimStep(pool, serials, s);
    var claim := Matching(st.pool, s);
    assert claim == Claim(recs, pool, n);
    var c := ClaimContribution(env, recs, pool, n);
    var prev := Contributions(env, recs[..n], pool);
    var cs := Contributions(env, recs, pool);
    ContributionsSnoc(env, recs, pool);
    assert cs[..n] == prev;
    assert PerRecord(env, recs, pool) ==
      MatchState(st.calls + c.calls, st.handles + c.handles, st.toPoll + c.toPoll, Unclaimed(pool, serials + {s}));
    if claim == [] {
      assert c == Contribution([], [], []);
      assert st.calls + c.calls == st.calls && st.handles + c.handles == st.handles && st.toPoll + c.toPoll == st.toPoll;
    } else {
      assert c == Contribute(env, recs[n], claim[0]);
    }
  }

  lemma ContributionsSnoc(env: Env, recs: seq<Record>, pool: seq<LocalDevice>)
    requires recs != []
    ensures Contributions(env, recs, pool)
      == Contributions(env, recs[..|recs| - 1], pool) + [ClaimContribution(env, recs, pool, |recs| - 1)]
  {
    var n := |recs| - 1;
    var cs := Contributions(env, recs, pool);
    var prev := Contributions(env, recs[..n], pool);
    forall i | 0 <= i < n
      ensures cs[i] == prev[i]
    {
      ContributionsPrefixAt(env, recs, pool, n, i);
    }
    assert cs[n] == ClaimContribution(env, recs, pool, n);
    assert cs == prev + [cs[n]];
  }

  lemma ContributionsPrefixAt(env: Env, recs: seq<Record>, pool: seq<LocalDevice>, n: nat, i: nat)
    requires i < n <= |recs|
    ensures Contributions(env, recs[..n], pool)[i] == Contributions(env, recs, pool)[i]
  {
    assert Contributions(env, recs, pool)[i] == ClaimContribution(env, recs, pool, i);
    assert Contributions(env, recs[..n], pool)[i] == ClaimContribution(env, recs[..n], pool, i);
    ClaimContributionPrefix(env, recs, pool, n, i);
  }

  lemma ClaimContributionPrefix(env: Env, recs: seq<Record>, pool: seq<LocalDevice>, n: nat, i: nat)
    requires i < n <= |recs|
    ensures ClaimContribution(env, recs[..n], pool, i) == ClaimContribution(env, recs, pool, i)
  {
    ClaimPrefix(recs, pool, n, i);
  }

  lemma ClaimPrefix(recs: seq<Record>, pool: seq<LocalDevice>, n: nat, i: nat)
    requires i < n <= |recs|
    ensures Claim(recs[..n], pool, i) == Claim(recs, pool, i)
  {
    assert recs[..n][..i] == recs[..i];
  }

  lemma {:induction false} AllCallsMembers(cs: seq<Contribution>)
    ensures forall c :: c in AllCalls(cs) <==> exists i :: 0 <= i < |cs| && c in cs[i].calls
    decreases |cs|
  {
    if cs != [] {
      var n := |cs| - 1;
      AllCallsMembers(cs[..n]);
      assert forall i :: 0 <= i < n ==> cs[..n][i] == cs[i];
    }
  }

  lemma {:induction false} AllHandlesMembers(cs: seq<Contribution>)
    ensures forall h :: h in AllHandles(cs) <==> exists i :: 0 <= i < |cs| && h in cs[i].handles
    decreases |cs|
  {
    if cs != [] {
      var n := |cs| - 1;
      AllHandlesMembers(cs[..n]);
      assert forall i :: 0 <= i < n ==> cs[..n][i] == cs[i];
    }
  }

  /** Each attached device is claimed by at most one record: two matched
      records work with devices of different serials. */
  lemma ClaimedOnce(recs: seq<Record>, pool: seq<LocalDevice>, i: nat, j: nat)
    requires i < j < |recs|
    requires Matched(recs, pool, i) && Matched(recs, pool, j)
    ensures MatchedDevice(recs, pool, i).serial != MatchedDevice(recs, pool, j).serial
  {
    MatchingMembers(pool, Get(recs[i], "serial"));
    MatchingMembers(pool, Get(recs[j], "serial"));
    SerialsOfHas(recs[..j], i);
    assert MatchedDevice(recs, pool, i) in Claim(recs, pool, i);
    assert MatchedDevice(recs, pool, j) in Claim(recs, pool, j);
  }

  // ---------------------------------------------------------------------------
  // Facts about the record loop

  /** Keys of a matched record other than the two it is given keep their value in the handle. */
  lemma MatchedKeyKept(config: Attributes, rec: Record, d: LocalDevice, key: string)
    requires key in rec && key != "os_version" && key != "device_range"
    ensures Get(Controller.Merge(config, MatchedOptions(rec, d)), key) == rec[key]
  {
  }

  /** The serial a handle carries. */
  function HandleSerial(h: Handle): Value { Get(h.attrs, "serial") }

  /** Handles and the ids to poll line up, and a handle carries its id. */
  predicate Paired(hs: seq<Handle>, ids: seq<Value>)
  {
    |hs| == |ids| && forall k :: 0 <= k < |hs| ==> ids[k] == Nil || Get(hs[k].attrs, "id") == ids[k]
  }

  lemma PairedAppend(hs: seq<Handle>, ids: seq<Value>, hs': seq<Handle>, ids': seq<Value>)
    requires Paired(hs, ids) && Paired(hs', ids')
    ensures Paired(hs + hs', ids + ids')
  {
    forall k | |hs| <= k < |hs| + |hs'|
      ensures (hs + hs')[k] == hs'[k - |hs|] && (ids + ids')[k] == ids'[k - |hs|]
    {
    }
  }

  predicate DistinctSerials(hs: seq<Handle>)
  {
    forall k, l :: 0 <= k < l < |hs| ==> HandleSerial(hs[k]) != HandleSerial(hs[l])
  }

  /** What one record's contribution satisfies: only an OS update to "ios",
      at most one handle, paired with the record's id, carrying the record's
      serial, which no earlier record carries and a trusted device carries. */
  lemma ClaimContributionFacts(env: Env, recs: seq<Record>, pool: seq<LocalDevice>, i: nat)
    requires i < |recs|
    ensures forall call :: call in ClaimContribution(env, recs, pool, i).calls ==> call.Update? && call.osName == "ios"
    ensures |ClaimContribution(env, recs, pool, i).handles| <= 1
    ensures Paired(ClaimContribution(env, recs, pool, i).handles, ClaimContribution(env, recs, pool, i).toPoll)
    ensures ClaimContribution(env, recs, pool, i).handles != [] ==>
      && HandleSerial(ClaimContribution(env, recs, pool, i).handles[0]) == Get(recs[i], "serial")
      && Get(recs[i], "serial") !in SerialsOf(recs[..i])
      && exists d :: d in pool && d.trusted && Get(recs[i], "serial") == Str(d.serial)
  {
    var c := ClaimContribution(env, recs, pool, i);
    if c.handles != [] {
      var s := Get(recs[i], "serial");
      var d := MatchedDevice(recs, pool, i);
      MatchingMembers(pool, s);
      assert d in Claim(recs, pool, i);
      MatchedKeyKept(env.config, recs[i], d, "serial");
      if Get(recs[i], "id") != Nil {
        MatchedKeyKept(env.config, recs[i], d, "id");
      }
    }
  }

  lemma {:induction false} AllPaired(cs: seq<Contribution>)
    requires forall i :: 0 <= i < |cs| ==> Paired(cs[i].handles, cs[i].toPoll)
    ensures Paired(AllHandles(cs), AllToPoll(cs))
    decreases |cs|
  {
    if cs != [] {
      var n := |cs| - 1;
      AllPaired(cs[..n]);
      PairedAppend(AllHandles(cs[..n]), AllToPoll(cs[..n]), cs[n].handles, cs[n].toPoll);
    }
  }

  lemma {:induction false} AllDistinct(cs: seq<Contribution>)
    requires forall i :: 0 <= i < |cs| ==> |cs[i].handles| <= 1
    requires forall i, j :: 0 <= i < j < |cs| && cs[i].handles != [] && cs[j].handles != [] ==>
      HandleSerial(cs[i].handles[0]) != HandleSerial(cs[j].handles[0])
    ensures DistinctSerials(AllHandles(cs))
    decreases |cs|
  {
    if cs != [] {
      var n := |cs| - 1;
      var prev := AllHandles(cs[..n]);
      AllDistinct(cs[..n]);
      AllHandlesMembers(cs[..n]);
      var all := AllHandles(cs);
      assert all == prev + cs[n].handles;
      if cs[n].handles != [] {
        forall k | 0 <= k < |prev|
          ensures HandleSerial(all[k]) != HandleSerial(all[|prev|])
        {
          assert prev[k] in prev;
          var i :| 0 <= i < n && prev[k] in cs[..n][i].handles;
          assert cs[..n][i] == cs[i];
        }
      }
    }
  }

  /** What every contribution of a pass satisfies (see ClaimContributionFacts),
      and that two contributions with a handle come from records with
      different serials. */
  predicate ContributionShape(cs: seq<Contribution>, recs: seq<Record>, pool: seq<LocalDevice>)
  {
    && |cs| == |recs|
    && (forall i, call :: 0 <= i < |cs| && call in cs[i].calls ==> call.Update? && call.osName == "ios")
    && (forall i :: 0 <= i < |cs| ==> |cs[i].handles| <= 1 && Paired(cs[i].handles, cs[i].toPoll))
    && (forall i :: 0 <= i < |cs| && cs[i].handles != [] ==>
         && HandleSerial(cs[i].handles[0]) == Get(recs[i], "serial")
         && Get(recs[i], "serial") in SerialsOf(recs)
         && exists d :: d in pool && d.trusted && Get(recs[i], "serial") == Str(d.serial))
    && (forall i, j :: 0 <= i < j < |cs| && cs[i].handles != [] && cs[j].handles != [] ==>
         Get(recs[i], "serial") != Get(recs[j], "serial"))
  }

  /** ClaimContributionFacts for every record of the pass. */
  lemma ContributionsFacts(env: Env, recs: seq<Record>, pool: seq<LocalDevice>, cs: seq<Contribution>)
    requires cs == Contributions(env, recs, pool)
    ensures ContributionShape(cs, recs, pool)
  {
    forall i | 0 <= i < |recs|
      ensures forall call :: call in cs[i].calls ==> call.Update? && call.osName == "ios"
      ensures |cs[i].handles| <= 1 && Paired(cs[i].handles, cs[i].toPoll)
      ensures cs[i].handles != [] ==>
        && HandleSerial(cs[i].handles[0]) == Get(recs[i], "serial")
        && Get(recs[i], "serial") !in SerialsOf(recs[..i])
        && Get(recs[i], "serial") in SerialsOf(recs)
        && exists d :: d in pool && d.trusted && Get(recs[i], "serial") == Str(d.serial)
    {
      assert cs[i] == ClaimContribution(env, recs, pool, i);
      ClaimContributionFacts(env, recs, pool, i);
      SerialsOfHas(recs, i);
    }
    forall i, j | 0 <= i < j < |recs| && cs[i].handles != [] && cs[j].handles != []
      ensures Get(recs[i], "serial") != Get(recs[j], "serial")
    {
      SerialsOfHas(recs[..j], i);
    }
  }

  lemma AllShapeCalls(cs: seq<Contribution>, recs: seq<Record>, pool: seq<LocalDevice>)
    requires ContributionShape(cs, recs, pool)
    ensures forall c :: c in AllCalls(cs) ==> c.Update? && c.osName == "ios"
  {
    AllCallsMembers(cs);
  }

  lemma AllShapeDistinct(cs: seq<Contribution>, recs: seq<Record>, pool: seq<LocalDevice>)
    requires ContributionShape(cs, recs, pool)
    ensures DistinctSerials(AllHandles(cs))
  {
    forall i, j | 0 <= i < j < |cs| && cs[i].handles != [] && cs[j].handles != []
      ensures HandleSerial(cs[i].handles[0]) != HandleSerial(cs[j].handles[0])
    {
    }
    AllDistinct(cs);
  }

  lemma AllShapeHandles(cs: seq<Contribution>, recs: seq<Record>, pool: seq<LocalDevice>)
    requires ContributionShape(cs, recs, pool)
    ensures forall h :: h in AllHandles(cs) ==>
      HandleSerial(h) in SerialsOf(recs) && exists d :: d in pool && d.trusted && HandleSerial(h) == Str(d.serial)
  {
    AllHandlesMembers(cs);
    forall h | h in AllHandles(cs)
      ensures HandleSerial(h) in SerialsOf(recs) && exists d :: d in pool && d.trusted && HandleSerial(h) == Str(d.serial)
    {
      var i :| 0 <= i < |cs| && h in cs[i].handles;
      assert h == cs[i].handles[0];
    }
  }

  /** The record loop only issues OS updates to "ios"; every handle is paired
      with the id polled for it; no two handles carry the same serial; and
      each carries the serial of a record and of a trusted attached device. */
  lemma RecordLoopShape(env: Env, recs: seq<Record>, pool: seq<LocalDevice>)
    ensures forall c :: c in MatchAll(env, recs, pool).calls ==> c.Update? && c.osName == "ios"
    ensures Paired(MatchAll(env, recs, pool).handles, MatchAll(env, recs, pool).toPoll)
    ensures DistinctSerials(MatchAll(env, recs, pool).handles)
    ensures forall h :: h in MatchAll(env, recs, pool).handles ==>
      HandleSerial(h) in SerialsOf(recs) && exists d :: d in pool && d.trusted && HandleSerial(h) == Str(d.serial)
  {
    var cs := Contributions(env, recs, pool);
    MatchAllIsPerRecord(env, recs, pool);
    ContributionsFacts(env, recs, pool, cs);
    AllShapeCalls(cs, recs, pool);
    AllPaired(cs);
    AllShapeDistinct(cs, recs, pool);
    AllShapeHandles(cs, recs, pool);
  }

  // ---------------------------------------------------------------------------
  // Registration

  lemma {:induction false} RegisterAllSpec(env: Env, devices: seq<LocalDevice>)
    ensures forall c :: c in RegisterAll(env, devices) ==> c.Register? || c.Connect?
    ensures forall c :: c in RegisterAll(env, devices) && c.Register? ==>
      exists d :: d in devices && Live(d) && c == RegisterRequest(d)
    ensures forall d :: d in devices && Live(d) ==> RegisterRequest(d) in RegisterAll(env, devices)
    decreases |devices|
  {
    if devices != [] {
      var n := |devices| - 1;
      RegisterAllSpec(env, devices[..n]);
      assert forall d :: d in devices <==> d in devices[..n] || d == devices[n];
    }
  }

  /** A `register` the registry accepts is followed at once by `connect` with
      the id it assigned, and every `connect` follows such a `register`. */
  predicate ConnectsFollowRegisters(env: Env, calls: seq<Call>)
  {
    && (forall k :: 0 <= k < |calls| && calls[k].Register? && env.respond(calls[k]).Accepted? ==>
          k + 1 < |calls| && calls[k + 1] == Connect(env.respond(calls[k]).id))
    && (forall k :: 0 <= k < |calls| && calls[k].Connect? ==>
          k > 0 && calls[k - 1].Register? && env.respond(calls[k - 1]) == Accepted(calls[k].id))
  }

  lemma {:induction false} RegisterAllConnects(env: Env, devices: seq<LocalDevice>)
    ensures ConnectsFollowRegisters(env, RegisterAll(env, devices))
    decreases |devices|
  {
    if devices != [] {
      var n := |devices| - 1;
      RegisterAllConnects(env, devices[..n]);
      var prev := RegisterAll(env, devices[..n]);
      var last := RegisterOne(env, devices[n]);
      var all := prev + last;
      assert all == RegisterAll(env, devices);
      forall k | 0 <= k < |all| && all[k].Register? && env.respond(all[k]).Accepted?
        ensures k + 1 < |all| && all[k + 1] == Connect(env.respond(all[k]).id)
      {
        if k < |prev| {
          assert all[k] == prev[k];
          assert all[k + 1] == prev[k + 1];
        } else {
          assert all[k] == last[k - |prev|];
        }
      }
      forall k | 0 <= k < |all| && all[k].Connect?
        ensures k > 0 && all[k - 1].Register? && env.respond(all[k - 1]) == Accepted(all[k].id)
      {
        if k < |prev| {
          assert all[k] == prev[k];
          assert all[k - 1] == prev[k - 1];
        } else {
          assert all[k] == last[k - |prev|];
          assert k - |prev| == 1;
          assert all[k - 1] == last[0];
        }
      }
    }
  }

  // ---------------------------------------------------------------------------
  // The registry path as a whole

  function PollCount(calls: seq<Call>): nat
  {
    if calls == [] then 0 else (if calls[0].Poll? then 1 else 0) + PollCount(calls[1..])
  }

  lemma {:induction false} PollCountAppend(a: seq<Call>, b: seq<Call>)
    ensures PollCount(a + b) == PollCount(a) + PollCount(b)
  {
    if a != [] {
      PollCountAppend(a[1..], b);
      assert (a + b)[1..] == a[1..] + b;
    } else {
      assert a + b == b;
    }
  }

  lemma {:induction false} PollCountNone(a: seq<Call>)
    requires forall c :: c in a ==> !c.Poll?
    ensures PollCount(a) == 0
  {
    if a != [] {
      PollCountNone(a[1..]);
    }
  }

  /** The call at `p` is the poll: OS updates before it, registrations after
      it, and the ids it polls paired with the handles returned. */
  predicate PollAt(r: Detection, p: int)
    requires r.Found?
  {
    && 0 <= p < |r.calls|
    && r.calls[p].Poll?
    && (forall k :: 0 <= k < p ==> r.calls[k].Update?)
    && (forall k :: p < k < |r.calls| ==> r.calls[k].Register? || r.calls[k].Connect?)
    && Paired(r.handles, r.calls[p].ids)
  }

  /** Updates, then one poll, then registrations: exactly one poll, at the seam. */
  lemma PollBetween(updates: seq<Call>, ids: seq<Value>, regs: seq<Call>, hs: seq<Handle>)
    requires forall c :: c in updates ==> c.Update?
    requires forall c :: c in regs ==> c.Register? || c.Connect?
    requires Paired(hs, ids)
    ensures PollCount(updates + [Poll(ids)] + regs) == 1
    ensures PollAt(Found(updates + [Poll(ids)] + regs, hs), |updates|)
  {
    var calls := updates + [Poll(ids)] + regs;
    var p := |updates|;
    assert forall k :: 0 <= k < p ==> calls[k] == updates[k] && updates[k] in updates;
    assert forall k :: p < k < |calls| ==> calls[k] == regs[k - p - 1] && regs[k - p - 1] in regs;
    PollCountNone(updates);
    PollCountNone(regs);
    PollCountAppend(updates, [Poll(ids)]);
    PollCountAppend(updates + [Poll(ids)], regs);
  }

  /** The registry path polls exactly once, after every OS update and before
      every registration, with as many ids as handles returned: the id of
      each handle's record. It polls even when that list is empty. */
  lemma PollExactlyOnce(env: Env, devices: seq<LocalDevice>, details: DeviceDetails, recs: seq<Record>)
    requires HiveMindDevices(details) == Some(recs)
    ensures WithHiveMind(env, devices, details).Found?
    ensures PollCount(WithHiveMind(env, devices, details).calls) == 1
    ensures exists p :: PollAt(WithHiveMind(env, devices, details), p)
  {
    var m := MatchAll(env, recs, ConnectedDevices(devices));
    var regs := RegisterAll(env, ConnectedDevices(m.pool));
    assert WithHiveMind(env, devices, details) == Found(m.calls + [Poll(m.toPoll)] + regs, m.handles);
    RecordLoopShape(env, recs, ConnectedDevices(devices));
    RegisterAllSpec(env, ConnectedDevices(m.pool));
    PollBetween(m.calls, m.toPoll, regs, m.handles);
  }

  /** The registration calls of the registry path, and where they start. */
  lemma RegistrationPart(env: Env, devices: seq<LocalDevice>, details: DeviceDetails, recs: seq<Record>)
    requires HiveMindDevices(details) == Some(recs)
    ensures var m := MatchAll(env, recs, ConnectedDevices(devices));
      && m.pool == Unclaimed(ConnectedDevices(devices), SerialsOf(recs))
      && WithHiveMind(env, devices, details).calls
         == m.calls + [Poll(m.toPoll)] + RegisterAll(env, ConnectedDevices(m.pool))
      && forall c :: c in WithHiveMind(env, devices, details).calls && (c.Register? || c.Connect?) ==>
           c in RegisterAll(env, ConnectedDevices(m.pool))
  {
    var m := MatchAll(env, recs, ConnectedDevices(devices));
    MatchAllIsPerRecord(env, recs, ConnectedDevices(devices));
    RecordLoopShape(env, recs, ConnectedDevices(devices));
  }

  /** Matched devices are never registered: every `register` is for a
      trusted, answering device whose serial no iOS record carries. */
  lemma RegistersOnlyUnclaimed(env: Env, devices: seq<LocalDevice>, details: DeviceDetails, recs: seq<Record>)
    requires HiveMindDevices(details) == Some(recs)
    ensures forall c :: c in WithHiveMind(env, devices, details).calls && c.Register? ==>
      Str(c.serial) !in SerialsOf(recs)
      && exists d :: d in devices && d.trusted && Live(d) && c == RegisterRequest(d)
  {
    var pool := ConnectedDevices(devices);
    var m := MatchAll(env, recs, pool);
    RegistrationPart(env, devices, details, recs);
    RegisterAllSpec(env, ConnectedDevices(m.pool));
    ConnectedDevicesMembers(m.pool);
    ConnectedDevicesMembers(devices);
    UnclaimedMembers(pool, SerialsOf(recs));
  }

  /** Every trusted, answering device no record claims is offered to the
      registry, whatever happens to the others. */
  lemma RegistersEveryUnclaimed(env: Env, devices: seq<LocalDevice>, details: DeviceDetails, recs: seq<Record>)
    requires HiveMindDevices(details) == Some(recs)
    ensures forall d :: d in devices && d.trusted && Live(d) && Str(d.serial) !in SerialsOf(recs) ==>
      RegisterRequest(d) in WithHiveMind(env, devices, details).calls
  {
    var pool := ConnectedDevices(devices);
    var m := MatchAll(env, recs, pool);
    RegistrationPart(env, devices, details, recs);
    RegisterAllSpec(env, ConnectedDevices(m.pool));
    ConnectedDevicesMembers(m.pool);
    ConnectedDevicesMembers(devices);
    UnclaimedMembers(pool, SerialsOf(recs));
  }

  lemma ConnectsAppend(env: Env, head: seq<Call>, regs: seq<Call>)
    requires forall c :: c in head ==> !c.Register? && !c.Connect?
    requires ConnectsFollowRegisters(env, regs)
    ensures ConnectsFollowRegisters(env, head + regs)
  {
    var calls := head + regs;
    assert forall k :: 0 <= k < |head| ==> calls[k] == head[k] && head[k] in head;
    assert forall k :: |head| <= k < |calls| ==> calls[k] == regs[k - |head|];
  }

  /** An accepted `register` is followed at once by `connect` with the id the
      registry assigned, and every `connect` follows such a `register`. */
  lemma ConnectsAfterRegistration(env: Env, devices: seq<LocalDevice>, details: DeviceDetails, recs: seq<Record>)
    requires HiveMindDevices(details) == Some(recs)
    ensures ConnectsFollowRegisters(env, WithHiveMind(env, devices, details).calls)
  {
    var pool := ConnectedDevices(devices);
    var m := MatchAll(env, recs, pool);
    var regs := RegisterAll(env, ConnectedDevices(m.pool));
    assert WithHiveMind(env, devices, details).calls == (m.calls + [Poll(m.toPoll)]) + regs;
    assert forall c :: c in m.calls + [Poll(m.toPoll)] ==> !c.Register? && !c.Connect? by {
      RecordLoopShape(env, recs, pool);
    }
    RegisterAllConnects(env, ConnectedDevices(m.pool));
    ConnectsAppend(env, m.calls + [Poll(m.toPoll)], regs);
  }

  /** The returned handles are those of matched records: no two carry the
      same serial, each carries the serial of a trusted attached device, and
      no registered device is among them. */
  lemma ReturnedHandles(env: Env, devices: seq<LocalDevice>, details: DeviceDetails, recs: seq<Record>)
    requires HiveMindDevices(details) == Some(recs)
    ensures DistinctSerials(WithHiveMind(env, devices, details).handles)
    ensures forall h :: h in WithHiveMind(env, devices, details).handles ==>
      exists d :: d in devices && d.trusted && HandleSerial(h) == Str(d.serial)
    ensures forall h, c ::
      h in WithHiveMind(env, devices, details).handles && c in WithHiveMind(env, devices, details).calls && c.Register?
      ==> HandleSerial(h) != Str(c.serial)
  {
    var pool := ConnectedDevices(devices);
    RecordLoopShape(env, recs, pool);
    ConnectedDevicesMembers(devices);
    RegistersOnlyUnclaimed(env, devices, details, recs);
  }

  /** Record `i` has its OS fields corrected by `c`: it is matched, its device
      answers, and the registry's version differs from the device's. */
  predicate UpdatesRecord(recs: seq<Record>, pool: seq<LocalDevice>, i: nat, c: Call)
    requires i < |recs|
  {
    && Matched(recs, pool, i)
    && Live(MatchedDevice(recs, pool, i))
    && NeedsUpdate(recs[i], MatchedDevice(recs, pool, i))
    && c == UpdateRequest(recs[i], MatchedDevice(recs, pool, i))
  }

  /** Record `i` yields the handle `h`: it is matched, its device answers,
      the OS update (if one is needed) is accepted, and the device class
      accepts the record's attributes. */
  predicate AttachesRecord(env: Env, recs: seq<Record>, pool: seq<LocalDevice>, i: nat, h: Handle)
    requires i < |recs|
  {
    && Matched(recs, pool, i)
    && var d := MatchedDevice(recs, pool, i);
    && Live(d)
    && (NeedsUpdate(recs[i], d) ==> env.respond(UpdateRequest(recs[i], d)).Accepted?)
    && env.accepts(Controller.Merge(env.config, MatchedOptions(recs[i], d)))
    && h == Controller.Handle(Controller.Merge(env.config, MatchedOptions(recs[i], d)))
  }

  /** Some record is corrected by `c`. */
  predicate UpdatedBySome(recs: seq<Record>, pool: seq<LocalDevice>, c: Call)
  {
    exists i :: 0 <= i < |recs| && UpdatesRecord(recs, pool, i, c)
  }

  /** Some record yields `h`. */
  predicate AttachedBySome(env: Env, recs: seq<Record>, pool: seq<LocalDevice>, h: Handle)
  {
    exists i :: 0 <= i < |recs| && AttachesRecord(env, recs, pool, i, h)
  }

  lemma ContributionAt(env: Env, recs: seq<Record>, pool: seq<LocalDevice>, i: nat)
    requires i < |recs|
    ensures forall c :: c in Contributions(env, recs, pool)[i].calls <==> UpdatesRecord(recs, pool, i, c)
    ensures forall h :: h in Contributions(env, recs, pool)[i].handles <==> AttachesRecord(env, recs, pool, i, h)
  {
    assert Contributions(env, recs, pool)[i] == ClaimContribution(env, recs, pool, i);
  }

  lemma UpdatesOfContributions(env: Env, recs: seq<Record>, pool: seq<LocalDevice>, calls: seq<Call>)
    requires calls == AllCalls(Contributions(env, recs, pool))
    ensures forall c :: c in calls <==> UpdatedBySome(recs, pool, c)
  {
    var cs := Contributions(env, recs, pool);
    AllCallsMembers(cs);
    forall c
      ensures c in AllCalls(cs) <==> UpdatedBySome(recs, pool, c)
    {
      if c in AllCalls(cs) {
        var i :| 0 <= i < |cs| && c in cs[i].calls;
        ContributionAt(env, recs, pool, i);
      } else {
        forall i | 0 <= i < |recs|
          ensures !UpdatesRecord(recs, pool, i, c)
        {
          assert c !in cs[i].calls;
          ContributionAt(env, recs, pool, i);
        }
      }
    }
  }

  lemma HandlesOfContributions(env: Env, recs: seq<Record>, pool: seq<LocalDevice>, hs: seq<Handle>)
    requires hs == AllHandles(Contributions(env, recs, pool))
    ensures forall h :: h in hs <==> AttachedBySome(env, recs, pool, h)
  {
    var cs := Contributions(env, recs, pool);
    AllHandlesMembers(cs);
    forall h
      ensures h in AllHandles(cs) <==> AttachedBySome(env, recs, pool, h)
    {
      if h in AllHandles(cs) {
        var i :| 0 <= i < |cs| && h in cs[i].handles;
        ContributionAt(env, recs, pool, i);
      } else {
        forall i | 0 <= i < |recs|
          ensures !AttachesRecord(env, recs, pool, i, h)
        {
          assert h !in cs[i].handles;
          ContributionAt(env, recs, pool, i);
        }
      }
    }
  }

  /** An OS update is issued for a record exactly when the record is matched,
      its device answers, and the registry's version differs from the
      device's; the update carries the record's id and the device's version. */
  lemma VersionUpdates(env: Env, devices: seq<LocalDevice>, details: DeviceDetails, recs: seq<Record>)
    requires HiveMindDevices(details) == Some(recs)
    ensures var pool := ConnectedDevices(devices);
      forall c: Call :: c.Update? ==>
        (c in WithHiveMind(env, devices, details).calls <==> UpdatedBySome(recs, pool, c))
  {
    var pool := ConnectedDevices(devices);
    var m := MatchAll(env, recs, pool);
    var regs := RegisterAll(env, ConnectedDevices(m.pool));
    assert WithHiveMind(env, devices, details).calls == m.calls + [Poll(m.toPoll)] + regs;
    assert m.calls == AllCalls(Contributions(env, recs, pool)) by {
      MatchAllIsPerRecord(env, recs, pool);
    }
    assert forall c :: c in regs ==> !c.Update? by {
      RegisterAllSpec(env, ConnectedDevices(m.pool));
    }
    UpdatesOfContributions(env, recs, pool, m.calls);
  }

  /** A matched record yields a handle exactly when its device answers, the
      OS update (if one is needed) is accepted, and the device class accepts
      the record's attributes; one record's failure does not affect another. */
  lemma HandlesPerRecord(env: Env, devices: seq<LocalDevice>, details: DeviceDetails, recs: seq<Record>)
    requires HiveMindDevices(details) == Some(recs)
    ensures var pool := ConnectedDevices(devices);
      forall h :: h in WithHiveMind(env, devices, details).handles <==> AttachedBySome(env, recs, pool, h)
  {
    var pool := ConnectedDevices(devices);
    var hs := WithHiveMind(env, devices, details).handles;
    assert hs == AllHandles(Contributions(env, recs, pool)) by {
      MatchAllIsPerRecord(env, recs, pool);
    }
    HandlesOfContributions(env, recs, pool, hs);
  }

  // ---------------------------------------------------------------------------
  // The fallback path and the dispatch

  /** Every trusted device answers its attribute queries. */
  predicate AllLive(ts: seq<LocalDevice>)
  {
    forall d :: d in ts ==> Live(d)
  }

  /** The device class accepts the fallback attributes of every trusted device. */
  predicate AllAccepted(env: Env, ts: seq<LocalDevice>)
  {
    forall k :: 0 <= k < |ts| ==> env.accepts(Controller.Merge(env.config, FallbackInfo(env.config, ts[k])))
  }

  /** The fallback handle built for device `d`. */
  predicate FallbackHandle(env: Env, h: Controller.Handle, d: LocalDevice)
  {
    && h.attrs == Controller.Merge(env.config, FallbackInfo(env.config, d))
    && Get(h.attrs, "id") == Str(d.serial)
    && Get(h.attrs, "serial") == Str(d.serial)
    && Get(h.attrs, "status") == Str("idle")
    && Get(h.attrs, "brand") == Str("Apple")
  }

  /** The handle built from a device's fallback attributes carries the
      device's serial as id and serial, status "idle" and brand "Apple". */
  lemma FallbackFields(env: Env, d: LocalDevice)
    ensures FallbackHandle(env, Controller.Handle(Controller.Merge(env.config, FallbackInfo(env.config, d))), d)
  {
    var info := FallbackInfo(env.config, d);
    var attrs := Controller.Merge(env.config, info);
    assert "id" in info && info["id"] == Str(d.serial);
    assert "serial" in info && info["serial"] == Str(d.serial);
    assert "status" in info && info["status"] == Str("idle");
    assert "brand" in info && info["brand"] == Str("Apple");
  }

  /** The fallback in terms of the trusted devices: a list exactly when every
      one answers and every construction succeeds, and then one handle per
      device, in order, and no registry call. */
  lemma FallbackOnTrusted(env: Env, devices: seq<LocalDevice>, ts: seq<LocalDevice>)
    requires ts == ConnectedDevices(devices)
    ensures WithoutHiveMind(env, devices).Found? || WithoutHiveMind(env, devices).NoList?
    ensures WithoutHiveMind(env, devices).Found? <==> AllLive(ts) && AllAccepted(env, ts)
    ensures WithoutHiveMind(env, devices).Found? ==>
      && WithoutHiveMind(env, devices).calls == []
      && |WithoutHiveMind(env, devices).handles| == |ts|
      && forall k :: 0 <= k < |ts| ==> FallbackHandle(env, WithoutHiveMind(env, devices).handles[k], ts[k])
  {
    ConnectedDevicesIdempotent(devices);
    assert ConnectedDevices(ts) == ts;
    var infos := DeviceInfos(env.config, ts);
    if infos.Some? {
      var made := CreateAll(env, infos.value);
      assert made.Some? <==> AllAccepted(env, ts) by {
        assert forall k :: 0 <= k < |ts| ==> infos.value[k] == FallbackInfo(env.config, ts[k]);
      }
      if made.Some? {
        assert WithoutHiveMind(env, devices) == Found([], made.value);
        forall k | 0 <= k < |ts|
          ensures FallbackHandle(env, made.value[k], ts[k])
        {
          assert infos.value[k] == FallbackInfo(env.config, ts[k]);
          assert made.value[k] == Controller.Handle(Controller.Merge(env.config, infos.value[k]));
          FallbackFields(env, ts[k]);
        }
      } else {
        assert WithoutHiveMind(env, devices) == NoList;
      }
    } else {
      assert !AllLive(ts);
      assert WithoutHiveMind(env, devices) == NoList;
    }
  }

  /** Without the registry: no registry call at all; either one handle per
      trusted device, in order, with id and serial both the device's serial,
      status "idle" and brand "Apple", or no list at all as soon as one device
      or one construction fails. */
  lemma FallbackResult(env: Env, devices: seq<LocalDevice>)
    ensures WithoutHiveMind(env, devices).Found? || WithoutHiveMind(env, devices).NoList?
    ensures var ts := ConnectedDevices(devices);
      WithoutHiveMind(env, devices).Found? <==> AllLive(ts) && AllAccepted(env, ts)
    ensures var ts := ConnectedDevices(devices);
      WithoutHiveMind(env, devices).Found? ==>
        && WithoutHiveMind(env, devices).calls == []
        && |WithoutHiveMind(env, devices).handles| == |ts|
        && forall k :: 0 <= k < |ts| ==> FallbackHandle(env, WithoutHiveMind(env, devices).handles[k], ts[k])
    ensures (exists d :: d in devices && d.trusted && !Live(d)) ==> WithoutHiveMind(env, devices) == NoList
  {
    var ts := ConnectedDevices(devices);
    FallbackOnTrusted(env, devices, ts);
    if exists d :: d in devices && d.trusted && !Live(d) {
      var d :| d in devices && d.trusted && !Live(d);
      ConnectedDevicesMembers(devices);
      assert d in ts;
    }
  }

  /** The fallback runs exactly when the snapshot carries an error: it makes
      no registry call, while the registry path either raises
      DeviceDetectionFailed (only when the snapshot is malformed) or polls
      exactly once. */
  lemma Dispatch(env: Env, devices: seq<LocalDevice>, details: DeviceDetails)
    ensures var r := DetectSpec(env, devices, details);
      details.hasError <==> r.NoList? || (r.Found? && PollCount(r.calls) == 0)
    ensures details.hasError ==> DetectSpec(env, devices, details) == WithoutHiveMind(env, devices)
    ensures DetectSpec(env, devices, details).DetectionFailed? <==>
      !details.hasError && HiveMindDevices(details).None?
    ensures !details.hasError && HiveMindDevices(details).Some? ==>
      DetectSpec(env, devices, details).Found? && PollCount(DetectSpec(env, devices, details).calls) == 1
  {
    FallbackResult(env, devices);
    if details.hasError {
      var r := WithoutHiveMind(env, devices);
      if r.Found? {
        assert PollCount(r.calls) == 0;
      }
    } else if HiveMindDevices(details).Some? {
      PollExactlyOnce(env, devices, details, HiveMindDevices(details).value);
    }
  }

  /** A trusted device no record knows is registered and connected, but it is
      not returned, and the poll goes out with no ids. */
  lemma UnknownDeviceNotReturned(env: Env, d: LocalDevice, details: DeviceDetails, id: Value)
    requires HiveMindDevices(details) == Some([])
    requires d.trusted && Live(d) && env.respond(RegisterRequest(d)) == Accepted(id)
    ensures WithHiveMind(env, [d], details) == Found([Poll([]), RegisterRequest(d), Connect(id)], [])
  {
    assert ConnectedDevices([d]) == [d] by {
      assert [d][1..] == [];
    }
    assert RegisterAll(env, [d]) == RegisterOne(env, d) by {
      assert [d][..0] == [];
    }
  }

  /** A record whose device is not attached yields nothing, yet the poll is still made, empty. */
  lemma MissingDevicePollsNothing(env: Env, details: DeviceDetails, rec: Record)
    requires HiveMindDevices(details) == Some([rec])
    ensures WithHiveMind(env, [], details) == Found([Poll([])], [])
  {
    assert [rec][..0] == [];
    assert MatchAll(env, [rec], []) == MatchState([], [], [], []);
    assert RegisterAll(env, ConnectedDevices([])) == [];
  }

  /** Untrusted devices take no part: the pass gives the same result when
      they are removed from the attached devices. */
  lemma UntrustedIgnored(env: Env, devices: seq<LocalDevice>, details: DeviceDetails)
    ensures DetectSpec(env, devices, details) == DetectSpec(env, ConnectedDevices(devices), details)
  {
    ConnectedDevicesIdempotent(devices);
    ConnectedDevicesIdempotent(ConnectedDevices(devices));
  }
}
