/** Memory regions: every points-to set is represented by a largest one that contains it, and loads and
    stores are attached to the regions they may touch. */
module MemRegions {

  type Obj = nat
  type PointsTo = set<Obj>
  type Fun = nat
  type Edge = nat

  datatype MemRegion = MemRegion(points: PointsTo)

  type Reps = map<PointsTo, PointsTo>

  /** No other inserted set contains c. */
  ghost predicate Maximal(reps: Reps, c: PointsTo)
  {
    c in reps && forall d :: d in reps && c <= d ==> d == c
  }

  /** The map is extensive, idempotent, and its image consists of maximal sets. */
  ghost predicate Representative(reps: Reps)
  {
    forall c {:trigger reps[c]} :: c in reps ==>
      && c <= reps[c]
      && reps[c] in reps && reps[reps[c]] == reps[c]
      && Maximal(reps, reps[c])
  }

  /** The image is exactly the maximal inserted sets. */
  lemma ImageIsMaximal(reps: Reps)
    requires Representative(reps)
    ensures forall c :: c in reps.Values <==> Maximal(reps, c)
  {
    forall c | Maximal(reps, c)
      ensures c in reps.Values
    {
      assert c <= reps[c] && reps[c] == c;
    }
    forall c | c in reps.Values
      ensures Maximal(reps, c)
    {
      var k :| k in reps && reps[k] == c;
    }
  }

  /** What one insertion of a new set finds: the keys whose representative it contains, and a representative
      that contains it, if any. */
  ghost predicate Found(reps: Reps, keys: set<PointsTo>, c: PointsTo, subsets: set<PointsTo>, rep: PointsTo)
    requires keys <= reps.Keys
  {
    && subsets == (set k | k in keys && reps[k] <= c)
    && c <= rep
    && (rep == c || exists k :: k in keys && reps[k] == rep && !(rep <= c))
    && (rep == c ==> forall k :: k in keys && c <= reps[k] ==> reps[k] <= c)
  }

  ghost function Inserted(reps: Reps, c: PointsTo, subsets: set<PointsTo>, rep: PointsTo): Reps
  {
    (map k | k in reps :: if k in subsets then c else reps[k])[c := rep]
  }

  lemma InsertContained(reps: Reps, c: PointsTo, subsets: set<PointsTo>, rep: PointsTo)
    requires Representative(reps) && c !in reps && Found(reps, reps.Keys, c, subsets, rep) && rep != c
    ensures subsets == {} && Representative(Inserted(reps, c, subsets, rep))
  {
    var k0 :| k0 in reps && reps[k0] == rep;
    forall k | k in reps
      ensures !(reps[k] <= c)
    {
      var r := reps[k];
      assert Maximal(reps, r);
      assert r <= c ==> r == rep;
    }
    var after := Inserted(reps, c, subsets, rep);
    forall k | k in after
      ensures k <= after[k] && after[k] in after && after[after[k]] == after[k] && Maximal(after, after[k])
    {
      var r := if k == c then rep else reps[k];
      assert after[k] == r && Maximal(reps, r) && !(r <= c);
    }
  }

  lemma InsertMaximal(reps: Reps, c: PointsTo, subsets: set<PointsTo>)
    requires Representative(reps) && c !in reps && Found(reps, reps.Keys, c, subsets, c)
    ensures Representative(Inserted(reps, c, subsets, c))
  {
    var after := Inserted(reps, c, subsets, c);
    forall d | d in reps
      ensures !(c <= d)
    {
      var r := reps[d];
      assert d <= r && r in reps;
      assert c <= d ==> r == c;
    }
    forall k | k in after
      ensures k <= after[k] && after[k] in after && after[after[k]] == after[k] && Maximal(after, after[k])
    {
      if k != c && k !in subsets {
        assert Maximal(reps, reps[k]) && !(reps[k] <= c);
        assert reps[reps[k]] == reps[k];
      }
    }
  }

  lemma InsertedIs(before: Reps, moved: Reps, c: PointsTo, subsets: set<PointsTo>, rep: PointsTo)
    requires moved.Keys == before.Keys && forall k :: k in moved ==> moved[k] == if k in subsets then c else before[k]
    ensures moved[c := rep] == Inserted(before, c, subsets, rep)
  {
  }

  lemma FoundOneMore(reps: Reps, keys: set<PointsTo>, c: PointsTo, subsets: set<PointsTo>, rep: PointsTo, key: PointsTo)
    requires keys <= reps.Keys && key in reps && key !in keys && Found(reps, keys, c, subsets, rep)
    ensures Found(reps, keys + {key}, c, if reps[key] <= c then subsets + {key} else subsets,
                  if !(reps[key] <= c) && c <= reps[key] then reps[key] else rep)
  {
    if !(reps[key] <= c) && c <= reps[key] {
      assert key in keys + {key};
    } else if rep != c {
      var k :| k in keys && reps[k] == rep && !(rep <= c);
      assert k in keys + {key};
    }
  }

  class MRGenerator {
    var repOf: Reps
    var memRegSet: set<MemRegion>
    var funToPointsTo: map<Fun, set<PointsTo>>
    var funToMRs: map<Fun, set<MemRegion>>
    var edgeToFun: map<Edge, Fun>
    var storesToPointsTo: map<Edge, PointsTo>
    var loadsToPointsTo: map<Edge, PointsTo>
    var storesToMRs: map<Edge, set<MemRegion>>
    var loadsToMRs: map<Edge, set<MemRegion>>

    constructor ()
      ensures Collected() && Representative(repOf) && repOf == map[]
      ensures memRegSet == {} && funToMRs == map[] && storesToMRs == map[] && loadsToMRs == map[]
    {
      repOf, memRegSet, funToPointsTo, funToMRs, edgeToFun := map[], {}, map[], map[], map[];
      storesToPointsTo, loadsToPointsTo, storesToMRs, loadsToMRs := map[], map[], map[], map[];
    }

    /** Loads and stores have nonempty points-to sets, recorded with their function. */
    ghost predicate Collected()
      reads `funToPointsTo, `edgeToFun, `storesToPointsTo, `loadsToPointsTo
    {
      && (forall st :: st in storesToPointsTo ==> RecordedIn(st, storesToPointsTo[st]))
      && (forall ld :: ld in loadsToPointsTo ==> RecordedIn(ld, loadsToPointsTo[ld]))
    }

    ghost predicate RecordedIn(e: Edge, cpts: PointsTo)
      reads `funToPointsTo, `edgeToFun
    {
      cpts != {} && e in edgeToFun && edgeToFun[e] in funToPointsTo && cpts in funToPointsTo[edgeToFun[e]]
    }

    method CollectStore(st: Edge, cpts: PointsTo, fun: Fun)
      requires Collected() && st !in edgeToFun
      modifies this`funToPointsTo, this`edgeToFun, this`storesToPointsTo
      ensures Collected()
      ensures storesToPointsTo == if cpts == {} then old(storesToPointsTo) else old(storesToPointsTo)[st := cpts]
    {
      edgeToFun := edgeToFun[st := fun];
      if cpts == {} {
        return;
      }
      storesToPointsTo := storesToPointsTo[st := cpts];
      funToPointsTo := funToPointsTo[fun := (if fun in funToPointsTo then funToPointsTo[fun] else {}) + {cpts}];
    }

    method CollectLoad(ld: Edge, cpts: PointsTo, fun: Fun)
      requires Collected() && ld !in edgeToFun
      modifies this`funToPointsTo, this`edgeToFun, this`loadsToPointsTo
      ensures Collected()
      ensures loadsToPointsTo == if cpts == {} then old(loadsToPointsTo) else old(loadsToPointsTo)[ld := cpts]
    {
      edgeToFun := edgeToFun[ld := fun];
      if cpts == {} {
        return;
      }
      loadsToPointsTo := loadsToPointsTo[ld := cpts];
      funToPointsTo := funToPointsTo[fun := (if fun in funToPointsTo then funToPointsTo[fun] else {}) + {cpts}];
    }

    /** Insert a set: it is mapped to a set that contains it, and what it contains is mapped to it. */
    method SortPointsTo(cpts: PointsTo)
      requires Representative(repOf)
      modifies this`repOf
      ensures Representative(repOf) && repOf.Keys == old(repOf.Keys) + {cpts}
    {
      if cpts in repOf {
        return;
      }
      ghost var before := repOf;
      var subSetList, repCPts := FindRelatives(cpts);
      MoveTo(subSetList, cpts);
      InsertedIs(before, repOf, cpts, subSetList, repCPts);
      repOf := repOf[cpts := repCPts];
      if repCPts == cpts {
        InsertMaximal(before, cpts, subSetList);
      } else {
        InsertContained(before, cpts, subSetList, repCPts);
      }
    }

    method FindRelatives(cpts: PointsTo) returns (subSetList: set<PointsTo>, repCPts: PointsTo)
      ensures Found(repOf, repOf.Keys, cpts, subSetList, repCPts)
    {
      subSetList, repCPts := {}, cpts;
      var rest := repOf.Keys;
      while rest != {}
        invariant rest <= repOf.Keys
        invariant Found(repOf, repOf.Keys - rest, cpts, subSetList, repCPts)
        decreases rest
      {
        var key :| key in rest;
        FoundOneMore(repOf, repOf.Keys - rest, cpts, subSetList, repCPts, key);
        assert repOf.Keys - (rest - {key}) == repOf.Keys - rest + {key};
        rest := rest - {key};
        var existCPts := repOf[key];
        if existCPts <= cpts {
          subSetList := subSetList + {key};
        } else if cpts <= existCPts {
          repCPts := existCPts;
        }
      }
      assert repOf.Keys - rest == repOf.Keys;
    }

    method MoveTo(subSetList: set<PointsTo>, cpts: PointsTo)
      requires subSetList <= repOf.Keys
      modifies this`repOf
      ensures repOf.Keys == old(repOf.Keys)
      ensures forall k :: k in repOf ==> repOf[k] == if k in subSetList then cpts else old(repOf)[k]
    {
      var moved := subSetList;
      while moved != {}
        invariant moved <= subSetList && repOf.Keys == old(repOf.Keys)
        invariant forall k :: k in repOf ==> repOf[k] == if k in subSetList - moved then cpts else old(repOf)[k]
        decreases moved
      {
        var key :| key in moved;
        moved := moved - {key};
        repOf := repOf[key := cpts];
      }
    }

    method GetRepPointsTo(cpts: PointsTo) returns (rep: PointsTo)
      requires cpts in repOf
      ensures rep == repOf[cpts]
    {
      rep := repOf[cpts];
    }

    method CreateMR(fun: Fun, cpts: PointsTo)
      requires cpts in repOf
      modifies this`memRegSet, this`funToMRs
      ensures memRegSet == old(memRegSet) + {MemRegion(repOf[cpts])}
      ensures forall f :: Lookup(funToMRs, f) == Lookup(old(funToMRs), f) + if f == fun then {MemRegion(repOf[cpts])} else {}
    {
      var repCPts := GetRepPointsTo(cpts);
      var mr := MemRegion(repCPts);
      var regions := Lookup(funToMRs, fun);
      if mr in memRegSet {
        if mr !in regions {
          regions := regions + {mr};
        }
      } else {
        memRegSet := memRegSet + {mr};
        regions := regions + {mr};
      }
      funToMRs := funToMRs[fun := regions];
    }

    /** The region of a set that took part in the partition; the assertion that it exists never fails. */
    method GetMR(cpts: PointsTo) returns (mr: MemRegion)
      requires cpts in repOf && MemRegion(repOf[cpts]) in memRegSet
      ensures mr == MemRegion(repOf[cpts])
    {
      var repCPts := GetRepPointsTo(cpts);
      mr := MemRegion(repCPts);
      assert mr in memRegSet;
    }

    method SortAll(sets: set<PointsTo>)
      requires Representative(repOf)
      modifies this`repOf
      ensures Representative(repOf) && repOf.Keys == old(repOf.Keys) + sets
    {
      var rest := sets;
      while rest != {}
        invariant rest <= sets
        invariant Representative(repOf) && repOf.Keys == old(repOf.Keys) + (sets - rest)
        decreases rest
      {
        var cpts :| cpts in rest;
        rest := rest - {cpts};
        SortPointsTo(cpts);
      }
    }

    method CreateAll(fun: Fun, sets: set<PointsTo>)
      requires sets <= repOf.Keys
      modifies this`memRegSet, this`funToMRs
      ensures memRegSet == old(memRegSet) + RegionsOf(repOf, sets)
      ensures forall f :: Lookup(funToMRs, f) == Lookup(old(funToMRs), f) + if f == fun then RegionsOf(repOf, sets) else {}
    {
      var rest := sets;
      while rest != {}
        invariant rest <= sets
        invariant memRegSet == old(memRegSet) + RegionsOf(repOf, sets - rest)
        invariant forall f :: Lookup(funToMRs, f) == Lookup(old(funToMRs), f) + if f == fun then RegionsOf(repOf, sets - rest) else {}
        decreases rest
      {
        var cpts :| cpts in rest;
        RegionsOfOneMore(repOf, sets, rest, cpts);
        rest := rest - {cpts};
        CreateMR(fun, cpts);
      }
      assert sets - rest == sets;
    }

    /** First all points-to sets are sorted, then every function gets the regions of its own sets. */
    method PartitionMRs()
      requires repOf == map[] && memRegSet == {} && funToMRs == map[]
      modifies this`repOf, this`memRegSet, this`funToMRs
      ensures Representative(repOf) && Partitioned()
    {
      SortAllFunctions();
      CreateAllFunctions();
    }

    method SortAllFunctions()
      requires Representative(repOf)
      modifies this`repOf
      ensures Representative(repOf) && forall f :: f in funToPointsTo ==> funToPointsTo[f] <= repOf.Keys
    {
      var rest := funToPointsTo.Keys;
      while rest != {}
        invariant rest <= funToPointsTo.Keys
        invariant Representative(repOf)
        invariant forall f :: f in funToPointsTo && f !in rest ==> funToPointsTo[f] <= repOf.Keys
        decreases rest
      {
        var fun :| fun in rest;
        rest := rest - {fun};
        SortAll(funToPointsTo[fun]);
      }
    }

    method CreateAllFunctions()
      requires memRegSet == {} && funToMRs == map[]
      requires forall f :: f in funToPointsTo ==> funToPointsTo[f] <= repOf.Keys
      modifies this`memRegSet, this`funToMRs
      ensures Partitioned()
    {
      var rest := funToPointsTo.Keys;
      while rest != {}
        invariant rest <= funToPointsTo.Keys
        invariant forall f :: f in funToPointsTo && f !in rest ==> HasRegions(f)
        invariant forall f :: f in rest ==> Lookup(funToMRs, f) == {}
        decreases rest
      {
        var fun :| fun in rest;
        rest := rest - {fun};
        CreateAll(fun, funToPointsTo[fun]);
      }
    }

    /** The regions of a function are those of its sets, and they all exist. */
    ghost predicate HasRegions(f: Fun)
      reads `repOf, `memRegSet, `funToMRs, `funToPointsTo
    {
      f in funToPointsTo && funToPointsTo[f] <= repOf.Keys &&
      RegionsOf(repOf, funToPointsTo[f]) <= memRegSet &&
      Lookup(funToMRs, f) == RegionsOf(repOf, funToPointsTo[f])
    }

    ghost predicate Partitioned()
      reads `repOf, `memRegSet, `funToMRs, `funToPointsTo
    {
      forall f :: f in funToPointsTo ==> HasRegions(f)
    }

    method GetAliasMemRegions(cpts: PointsTo, fun: Fun) returns (aliasMRs: set<MemRegion>)
      ensures aliasMRs == Aliased(cpts, Lookup(funToMRs, fun))
      ensures forall mr :: mr in aliasMRs <==> fun in funToMRs && mr in funToMRs[fun] && exists o :: o in mr.points && o in cpts
    {
      var regions := Lookup(funToMRs, fun);
      aliasMRs := {};
      var rest := regions;
      while rest != {}
        invariant rest <= regions
        invariant aliasMRs == Aliased(cpts, regions - rest)
        decreases rest
      {
        var mr :| mr in rest;
        rest := rest - {mr};
        if mr.points * cpts != {} {
          aliasMRs := aliasMRs + {mr};
        }
      }
      assert regions - rest == regions;
      forall mr ensures mr in aliasMRs <==> fun in funToMRs && mr in funToMRs[fun] && exists o :: o in mr.points && o in cpts {
        AliasedMeets(cpts, regions, mr);
      }
    }

    /** Stores get the regions of their function they intersect, loads the region of their own set. */
    method UpdateAliasMRs()
      requires Collected() && Partitioned() && storesToMRs == map[] && loadsToMRs == map[]
      modifies this`storesToMRs, this`loadsToMRs
      ensures StoresAttached(storesToPointsTo.Keys) && LoadsAttached(loadsToPointsTo.Keys)
    {
      UpdateStores();
      forall ld | ld in loadsToPointsTo ensures HasRegion(ld) {
        LoadHasRegion(ld);
      }
      UpdateLoads();
    }

    method UpdateStores()
      requires Collected() && storesToMRs == map[]
      modifies this`storesToMRs
      ensures StoresAttached(storesToPointsTo.Keys)
    {
      var stores := storesToPointsTo.Keys;
      while stores != {}
        invariant stores <= storesToPointsTo.Keys
        invariant StoresAttached(storesToPointsTo.Keys - stores)
        decreases stores
      {
        var st :| st in stores;
        stores := stores - {st};
        assert RecordedIn(st, storesToPointsTo[st]);
        var aliasMRs := GetAliasMemRegions(storesToPointsTo[st], edgeToFun[st]);
        storesToMRs := storesToMRs[st := aliasMRs];
      }
      assert storesToPointsTo.Keys - stores == storesToPointsTo.Keys;
    }

    method UpdateLoads()
      requires loadsToMRs == map[] && forall ld :: ld in loadsToPointsTo ==> HasRegion(ld)
      modifies this`loadsToMRs
      ensures LoadsAttached(loadsToPointsTo.Keys)
    {
      var loads := loadsToPointsTo.Keys;
      while loads != {}
        invariant loads <= loadsToPointsTo.Keys
        invariant LoadsAttached(loadsToPointsTo.Keys - loads)
        decreases loads
      {
        var ld :| ld in loads;
        loads := loads - {ld};
        var aliasMRs := GetMRsForLoad(ld);
        loadsToMRs := loadsToMRs[ld := aliasMRs];
      }
      assert loadsToPointsTo.Keys - loads == loadsToPointsTo.Keys;
    }

    method GetMRsForLoad(ld: Edge) returns (aliasMRs: set<MemRegion>)
      requires HasRegion(ld)
      ensures aliasMRs == LoadRegions(ld) && aliasMRs != {}
    {
      var mr := GetMR(loadsToPointsTo[ld]);
      aliasMRs := {mr};
    }

    ghost predicate HasRegion(ld: Edge)
      reads `loadsToPointsTo, `repOf, `memRegSet
    {
      ld in loadsToPointsTo && loadsToPointsTo[ld] in repOf && MemRegion(repOf[loadsToPointsTo[ld]]) in memRegSet
    }

    lemma LoadHasRegion(ld: Edge)
      requires Collected() && Partitioned() && ld in loadsToPointsTo
      ensures HasRegion(ld)
    {
      assert RecordedIn(ld, loadsToPointsTo[ld]) && HasRegions(edgeToFun[ld]);
      assert MemRegion(repOf[loadsToPointsTo[ld]]) in RegionsOf(repOf, funToPointsTo[edgeToFun[ld]]);
    }

    ghost function StoreRegions(st: Edge): set<MemRegion>
      reads `storesToPointsTo, `edgeToFun, `funToMRs
    {
      if st in storesToPointsTo && st in edgeToFun then Aliased(storesToPointsTo[st], Lookup(funToMRs, edgeToFun[st])) else {}
    }

    ghost function LoadRegions(ld: Edge): set<MemRegion>
      reads `loadsToPointsTo, `repOf
    {
      if ld in loadsToPointsTo && loadsToPointsTo[ld] in repOf then {MemRegion(repOf[loadsToPointsTo[ld]])} else {}
    }

    ghost predicate StoresAttached(stores: set<Edge>)
      reads `storesToMRs, `storesToPointsTo, `edgeToFun, `funToMRs
    {
      storesToMRs.Keys == stores && forall st :: st in stores ==> storesToMRs[st] == StoreRegions(st)
    }

    ghost predicate LoadsAttached(loads: set<Edge>)
      reads `loadsToMRs, `loadsToPointsTo, `repOf
    {
      loadsToMRs.Keys == loads && forall ld :: ld in loads ==> loadsToMRs[ld] == LoadRegions(ld)
    }

    /** The regions of a store are those of its function that share an object with its points-to set. */
    lemma StoreMeetsRegions(st: Edge)
      requires Collected() && Partitioned() && StoresAttached(storesToPointsTo.Keys)
      requires st in storesToPointsTo
      ensures st in edgeToFun && edgeToFun[st] in funToPointsTo && funToPointsTo[edgeToFun[st]] <= repOf.Keys
      ensures forall mr :: mr in storesToMRs[st] <==>
                exists c, o :: c in funToPointsTo[edgeToFun[st]] && mr.points == repOf[c] && o in repOf[c] && o in storesToPointsTo[st]
    {
      assert RecordedIn(st, storesToPointsTo[st]);
      var fun, cpts := edgeToFun[st], storesToPointsTo[st];
      assert HasRegions(fun) && storesToMRs[st] == StoreRegions(st);
      forall mr
        ensures mr in storesToMRs[st] <==> exists c, o :: c in funToPointsTo[fun] && mr.points == repOf[c] && o in repOf[c] && o in cpts
      {
        AliasedMeets(cpts, RegionsOf(repOf, funToPointsTo[fun]), mr);
        if mr in storesToMRs[st] {
          var c :| c in funToPointsTo[fun] && mr == MemRegion(repOf[c]);
          var o :| o in mr.points && o in cpts;
        }
        if c, o :| c in funToPointsTo[fun] && mr.points == repOf[c] && o in repOf[c] && o in cpts {
          assert mr == MemRegion(repOf[c]);
        }
      }
    }

    /** A load's region is always among the regions of a store of the same function whose points-to set
        meets the load's. */
    lemma LoadMeetsStore(ld: Edge, st: Edge)
      requires Collected() && Representative(repOf) && Partitioned()
      requires StoresAttached(storesToPointsTo.Keys) && LoadsAttached(loadsToPointsTo.Keys)
      requires ld in loadsToPointsTo && st in storesToPointsTo && ld in edgeToFun && st in edgeToFun && edgeToFun[ld] == edgeToFun[st]
      requires loadsToPointsTo[ld] * storesToPointsTo[st] != {}
      ensures loadsToMRs[ld] <= storesToMRs[st]
    {
      var cpts, fun := loadsToPointsTo[ld], edgeToFun[ld];
      assert RecordedIn(ld, cpts) && HasRegions(fun);
      RegionIsAliased(repOf, funToPointsTo[fun], cpts, storesToPointsTo[st]);
      assert loadsToMRs[ld] == LoadRegions(ld) && storesToMRs[st] == StoreRegions(st);
    }
  }

  lemma AliasedMeets(cpts: PointsTo, regions: set<MemRegion>, mr: MemRegion)
    ensures mr in Aliased(cpts, regions) <==> mr in regions && exists o :: o in mr.points && o in cpts
  {
    if mr in Aliased(cpts, regions) {
      var o :| o in mr.points * cpts;
    }
    if o :| o in mr.points && o in cpts {
      assert o in mr.points * cpts;
    }
  }

  /** The representative of a set meets whatever the set meets. */
  lemma RegionIsAliased(reps: Reps, sets: set<PointsTo>, c: PointsTo, d: PointsTo)
    requires Representative(reps) && sets <= reps.Keys && c in sets && c * d != {}
    ensures MemRegion(reps[c]) in Aliased(d, RegionsOf(reps, sets))
  {
    var o :| o in c && o in d;
    assert c <= reps[c];
    assert o in reps[c] * d;
  }

  function RegionsOf(reps: Reps, sets: set<PointsTo>): set<MemRegion>
    requires sets <= reps.Keys
  {
    set c | c in sets :: MemRegion(reps[c])
  }

  function Lookup(m: map<Fun, set<MemRegion>>, f: Fun): set<MemRegion>
  {
    if f in m then m[f] else {}
  }

  lemma RegionsOfOneMore(reps: Reps, sets: set<PointsTo>, rest: set<PointsTo>, c: PointsTo)
    requires sets <= reps.Keys && rest <= sets && c in rest
    ensures RegionsOf(reps, sets - (rest - {c})) == RegionsOf(reps, sets - rest) + {MemRegion(reps[c])}
  {
    assert sets - (rest - {c}) == sets - rest + {c};
  }

  function Aliased(cpts: PointsTo, regions: set<MemRegion>): set<MemRegion>
  {
    set mr | mr in regions && mr.points * cpts != {}
  }
}
