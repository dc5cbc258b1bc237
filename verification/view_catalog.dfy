/** Initialising the analytical database (db/duckdb_init.py): three views,
    each dropped if it exists and then created as `SELECT *` over Parquet
    files in the Parquet directory. The database's catalog is a map from view
    name to definition. Whether `read_parquet` can bind a path is an abstract
    predicate supplied by the caller, and so is whether the connection
    opens. */
module ViewCatalog {
  import opened Common

  /** `SELECT * FROM read_parquet('<pattern>')`. */
  datatype ViewDef = ParquetScan(pattern: string)

  type Catalog = map<string, ViewDef>

  /** One step of the initialiser: a view name and the file pattern it reads. */
  datatype ViewSpec = ViewSpec(name: string, file: string)

  /** The three views, in the order the initialiser creates them. */
  const Specs: seq<ViewSpec> := [
    ViewSpec("v_statcast", "statcast_*.parquet"),
    ViewSpec("v_lahman_people", "lahman_people.parquet"),
    ViewSpec("v_player_map", "player_map.parquet")
  ]

  /** `str(PARQUET_DIR / file)`. */
  function PathIn(dir: string, file: string): string
  {
    dir + "/" + file
  }

  function Definition(dir: string, spec: ViewSpec): ViewDef
  {
    ParquetScan(PathIn(dir, spec.file))
  }

  /** `a` and `b` say the same about `name`. */
  predicate Agree(a: Catalog, b: Catalog, name: string)
  {
    (name in a <==> name in b) && (name in a ==> a[name] == b[name])
  }

  predicate IsViewName(specs: seq<ViewSpec>, name: string)
  {
    exists i :: 0 <= i < |specs| && specs[i].name == name
  }

  predicate DistinctNames(specs: seq<ViewSpec>)
  {
    forall i, j :: 0 <= i < j < |specs| ==> specs[i].name != specs[j].name
  }

  /** `DROP VIEW IF EXISTS name`: removing an absent view is a no-op. */
  function DropIfExists(c: Catalog, name: string): (c': Catalog)
    ensures name !in c'
    ensures forall n :: n != name ==> Agree(c, c', n)
    ensures name !in c ==> c' == c
  {
    c - {name}
  }

  /** `CREATE VIEW name AS ...`: fails when the name is taken or the files
      cannot be read. */
  function CreateView(c: Catalog, name: string, def: ViewDef, readable: bool): (r: Option<Catalog>)
    ensures r.Some? <==> name !in c && readable
    ensures r.Some? ==> name in r.value && r.value[name] == def
    ensures r.Some? ==> forall n :: n != name ==> Agree(c, r.value, n)
  {
    if name in c || !readable then None else Some(c[name := def])
  }

  /** The outcome of running the steps: the catalog reached, and the index
      of the step whose CREATE failed, if any. */
  datatype StepsResult = StepsResult(catalog: Catalog, failedAt: Option<nat>)

  /** The steps in order inside one `try`: a failing CREATE ends the run,
      leaving its view dropped and later steps not run. */
  function RunSteps(c: Catalog, specs: seq<ViewSpec>, dir: string, readable: string -> bool): (r: StepsResult)
    ensures r.failedAt.Some? ==> r.failedAt.value < |specs|
    ensures r.failedAt == FirstUnreadable(specs, dir, readable)
    ensures r.failedAt.None? ==> forall n :: n in c ==> n in r.catalog
    ensures r.failedAt.None? ==> forall i :: 0 <= i < |specs| ==> specs[i].name in r.catalog
    decreases |specs|
  {
    if |specs| == 0 then StepsResult(c, None)
    else
      var dropped := DropIfExists(c, specs[0].name);
      match CreateView(dropped, specs[0].name, Definition(dir, specs[0]), readable(PathIn(dir, specs[0].file)))
      case None => StepsResult(dropped, Some(0))
      case Some(created) =>
        var rest := RunSteps(created, specs[1..], dir, readable);
        assert forall i :: 0 < i < |specs| ==> specs[i] == specs[1..][i - 1];
        StepsResult(rest.catalog, if rest.failedAt.Some? then Some(rest.failedAt.value + 1) else None)
  }

  /** The first step whose files cannot be read, found independently of the
      catalog. */
  function FirstUnreadable(specs: seq<ViewSpec>, dir: string, readable: string -> bool): (k: Option<nat>)
    ensures k.Some? ==> k.value < |specs| && !readable(PathIn(dir, specs[k.value].file))
    ensures k.Some? ==> forall i :: 0 <= i < k.value ==> readable(PathIn(dir, specs[i].file))
    ensures k.None? ==> forall i :: 0 <= i < |specs| ==> readable(PathIn(dir, specs[i].file))
  {
    if |specs| == 0 then None
    else if !readable(PathIn(dir, specs[0].file)) then Some(0)
    else
      match FirstUnreadable(specs[1..], dir, readable)
      case None => None
      case Some(k) => Some(k + 1)
  }

  /** Where the run stops: the failing step, or past the last step. */
  function StopIndex(specs: seq<ViewSpec>, dir: string, readable: string -> bool): nat
  {
    match FirstUnreadable(specs, dir, readable)
    case None => |specs|
    case Some(k) => k
  }

  /** The effect of the steps, name by name: the steps before the failing
      one have recreated their views, the failing step's view is dropped,
      later views and every other name are untouched. */
  lemma {:induction false} RunStepsEffect(c: Catalog, specs: seq<ViewSpec>, dir: string, readable: string -> bool)
    requires DistinctNames(specs)
    ensures var r := RunSteps(c, specs, dir, readable);
      var k := StopIndex(specs, dir, readable);
      && r.failedAt == FirstUnreadable(specs, dir, readable)
      && (forall i :: 0 <= i < k ==> specs[i].name in r.catalog && r.catalog[specs[i].name] == Definition(dir, specs[i]))
      && (k < |specs| ==> specs[k].name !in r.catalog)
      && (forall i :: k < i < |specs| ==> Agree(c, r.catalog, specs[i].name))
      && (forall n :: !IsViewName(specs, n) ==> Agree(c, r.catalog, n))
    decreases |specs|
  {
    if |specs| > 0 {
      var name := specs[0].name;
      var dropped := DropIfExists(c, name);
      if readable(PathIn(dir, specs[0].file)) {
        var created := dropped[name := Definition(dir, specs[0])];
        var tail := specs[1..];
        assert DistinctNames(tail) by {
          forall i, j | 0 <= i < j < |tail|
            ensures tail[i].name != tail[j].name
          {
            assert tail[i] == specs[i + 1] && tail[j] == specs[j + 1];
          }
        }
        RunStepsEffect(created, tail, dir, readable);
        var r := RunSteps(c, specs, dir, readable);
        assert r.catalog == RunSteps(created, tail, dir, readable).catalog;
        var k := StopIndex(specs, dir, readable);
        assert k == StopIndex(tail, dir, readable) + 1;
        forall i | 0 <= i < |tail|
          ensures tail[i] == specs[i + 1] && tail[i].name != name
        {
          assert specs[0].name != specs[i + 1].name;
        }
        assert name in r.catalog && r.catalog[name] == Definition(dir, specs[0]) by {
          assert !IsViewName(tail, name);
        }
        forall n | !IsViewName(specs, n)
          ensures Agree(c, r.catalog, n)
        {
          assert !IsViewName(tail, n) by {
            forall i | 0 <= i < |tail|
              ensures tail[i].name != n
            {
              assert tail[i] == specs[i + 1];
            }
          }
        }
      }
    }
  }

  /** What ended an initialisation run; every error is only logged. */
  datatype InitOutcome = Completed | ConnectFailed | CreateFailed(step: nat)

  datatype InitResult = InitResult(catalog: Catalog, outcome: InitOutcome)

  /** `initialize_database`. */
  function Initialize(c: Catalog, dir: string, connects: bool, readable: string -> bool): (r: InitResult)
    ensures !connects ==> r == InitResult(c, ConnectFailed)
  {
    if !connects then InitResult(c, ConnectFailed)
    else
      var steps := RunSteps(c, Specs, dir, readable);
      InitResult(steps.catalog, if steps.failedAt.None? then Completed else CreateFailed(steps.failedAt.value))
  }

  lemma SpecsDistinct()
    ensures DistinctNames(Specs)
  {
  }

  /** With every file readable, the run does not stop early. */
  lemma AllReadableNoStop(dir: string, readable: string -> bool)
    requires forall i :: 0 <= i < |Specs| ==> readable(PathIn(dir, Specs[i].file))
    ensures FirstUnreadable(Specs, dir, readable).None?
    ensures StopIndex(Specs, dir, readable) == |Specs|
  {
    var k := FirstUnreadable(Specs, dir, readable);
    if k.Some? {
      assert false;
    }
  }

  /** The view names are exactly the three literal names. */
  lemma ViewNames(n: string)
    ensures IsViewName(Specs, n) <==> n == "v_statcast" || n == "v_lahman_people" || n == "v_player_map"
  {
    if n == "v_statcast" {
      assert Specs[0].name == n;
    } else if n == "v_lahman_people" {
      assert Specs[1].name == n;
    } else if n == "v_player_map" {
      assert Specs[2].name == n;
    }
  }

  /** After a run whose files all bind, the three views read their files in
      the Parquet directory, and no other name has changed. */
  lemma InitializeSucceeds(c: Catalog, dir: string, readable: string -> bool)
    requires forall i :: 0 <= i < |Specs| ==> readable(PathIn(dir, Specs[i].file))
    ensures var r := Initialize(c, dir, true, readable);
      && r.outcome == Completed
      && "v_statcast" in r.catalog && r.catalog["v_statcast"] == ParquetScan(PathIn(dir, "statcast_*.parquet"))
      && "v_lahman_people" in r.catalog && r.catalog["v_lahman_people"] == ParquetScan(PathIn(dir, "lahman_people.parquet"))
      && "v_player_map" in r.catalog && r.catalog["v_player_map"] == ParquetScan(PathIn(dir, "player_map.parquet"))
      && forall n :: n != "v_statcast" && n != "v_lahman_people" && n != "v_player_map" ==> Agree(c, r.catalog, n)
  {
    SpecsDistinct();
    RunStepsEffect(c, Specs, dir, readable);
    AllReadableNoStop(dir, readable);
    var r := Initialize(c, dir, true, readable);
    assert r.catalog == RunSteps(c, Specs, dir, readable).catalog;
    assert r.catalog[Specs[0].name] == Definition(dir, Specs[0]);
    assert r.catalog[Specs[1].name] == Definition(dir, Specs[1]);
    assert r.catalog[Specs[2].name] == Definition(dir, Specs[2]);
    forall n | n != "v_statcast" && n != "v_lahman_people" && n != "v_player_map"
      ensures Agree(c, r.catalog, n)
    {
      ViewNames(n);
    }
  }

  /** When step `k` cannot read its files, the earlier views are recreated,
      view `k` stays dropped, the later views and all other names are as
      before, and the failure is reported only as an outcome. */
  lemma InitializeFailsAt(c: Catalog, dir: string, readable: string -> bool, k: nat)
    requires k < |Specs| && !readable(PathIn(dir, Specs[k].file))
    requires forall i :: 0 <= i < k ==> readable(PathIn(dir, Specs[i].file))
    ensures var r := Initialize(c, dir, true, readable);
      && r.outcome == CreateFailed(k)
      && (forall i :: 0 <= i < k ==> Specs[i].name in r.catalog && r.catalog[Specs[i].name] == Definition(dir, Specs[i]))
      && Specs[k].name !in r.catalog
      && (forall i :: k < i < |Specs| ==> Agree(c, r.catalog, Specs[i].name))
      && (forall n :: !IsViewName(Specs, n) ==> Agree(c, r.catalog, n))
  {
    SpecsDistinct();
    RunStepsEffect(c, Specs, dir, readable);
    FirstUnreadableIsLeast(Specs, dir, readable, k);
  }

  lemma {:induction false} FirstUnreadableIsLeast(specs: seq<ViewSpec>, dir: string, readable: string -> bool, k: nat)
    requires k < |specs| && !readable(PathIn(dir, specs[k].file))
    requires forall i :: 0 <= i < k ==> readable(PathIn(dir, specs[i].file))
    ensures FirstUnreadable(specs, dir, readable) == Some(k)
    decreases k
  {
    if k > 0 {
      FirstUnreadableIsLeast(specs[1..], dir, readable, k - 1);
    }
  }

  /** Two catalogs that agree on every name are equal. */
  lemma AgreeEverywhere(a: Catalog, b: Catalog)
    requires forall n :: Agree(a, b, n)
    ensures a == b
  {
    forall n | n in a
      ensures n in b && a[n] == b[n]
    {
      assert Agree(a, b, n);
    }
    forall n | n in b
      ensures n in a
    {
      assert Agree(a, b, n);
    }
    assert a.Keys == b.Keys;
  }

  /** Initialising twice in a row leaves the catalog of initialising once,
      whether the run completes or stops at a failing step. */
  lemma InitializeIdempotent(c: Catalog, dir: string, connects: bool, readable: string -> bool)
    ensures var once := Initialize(c, dir, connects, readable);
      Initialize(once.catalog, dir, connects, readable) == once
  {
    if connects {
      SpecsDistinct();
      var once := RunSteps(c, Specs, dir, readable);
      var twice := RunSteps(once.catalog, Specs, dir, readable);
      RunStepsEffect(c, Specs, dir, readable);
      RunStepsEffect(once.catalog, Specs, dir, readable);
      var k := StopIndex(Specs, dir, readable);
      forall n
        ensures Agree(once.catalog, twice.catalog, n)
      {
        if IsViewName(Specs, n) {
          var i :| 0 <= i < |Specs| && Specs[i].name == n;
          if k < i {
            assert Agree(c, once.catalog, n) && Agree(c, twice.catalog, n);
          }
        }
      }
      AgreeEverywhere(once.catalog, twice.catalog);
    }
  }

  /** A completed run does not depend on which views existed before: a
      catalog without the views and one that already has them (or older
      definitions of them) end in the same state. */
  lemma InitializeForgetsOldViews(c1: Catalog, c2: Catalog, dir: string, readable: string -> bool)
    requires forall i :: 0 <= i < |Specs| ==> readable(PathIn(dir, Specs[i].file))
    requires forall n :: !IsViewName(Specs, n) ==> Agree(c1, c2, n)
    ensures Initialize(c1, dir, true, readable) == Initialize(c2, dir, true, readable)
  {
    SpecsDistinct();
    RunStepsEffect(c1, Specs, dir, readable);
    RunStepsEffect(c2, Specs, dir, readable);
    var r1 := RunSteps(c1, Specs, dir, readable);
    var r2 := RunSteps(c2, Specs, dir, readable);
    assert StopIndex(Specs, dir, readable) == |Specs|;
    forall n
      ensures Agree(r1.catalog, r2.catalog, n)
    {
      if IsViewName(Specs, n) {
        var i :| 0 <= i < |Specs| && Specs[i].name == n;
      }
    }
    AgreeEverywhere(r1.catalog, r2.catalog);
  }
}
