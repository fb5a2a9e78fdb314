/** The command line front end: the package list a configuration names,
    and the table of results printed after a build. */
module Cli {
  import opened Results
  import opened Collections
  import opened NixTool
  import Orchestrator

  /** The parsed YAML configuration file. */
  datatype Config = Config(
    mydraApi: string,
    pythonVersions: seq<string>,
    pythonPackageNames: seq<string>,
    nativePackages: seq<Attribute>)

  /** Why `execute` stops: an unsupported configuration version
      (NotImplementedError), or a failure of the nix tools. */
  datatype Error = NotImplemented(api: string) | NixFailed(failure: Failure)

  /** The attribute path of package `name` in the package set of Python
      `version`. */
  function PythonAttr(version: string, name: string): Attribute
  {
    "python" + version + "Packages." + name
  }

  /** `itertools.product(versions, names)`, each pair made an attribute. */
  function Product(versions: seq<string>, names: seq<string>): seq<Attribute>
  {
    if versions == [] then []
    else
      seq(|names|, j requires 0 <= j < |names| => PythonAttr(versions[0], names[j]))
      + Product(versions[1..], names)
  }

  /** The position of row `i`, column `j` in a table of `n` columns laid
      out row after row. */
  function Cell(i: nat, j: nat, n: nat): nat
  {
    i * n + j
  }

  /** The product has one attribute per (version, name) pair. */
  lemma {:induction false} ProductLength(versions: seq<string>, names: seq<string>)
    ensures |Product(versions, names)| == |versions| * |names|
  {
    if versions != [] {
      ProductLength(versions[1..], names);
      assert |versions| * |names| == |names| + (|versions| - 1) * |names|;
    }
  }

  /** Version `i` with name `j` sits at position `Cell(i, j, |names|)` of
      the product: the version is the outer loop. */
  lemma {:induction false} ProductAt(versions: seq<string>, names: seq<string>, i: nat, j: nat)
    requires i < |versions| && j < |names|
    ensures Cell(i, j, |names|) < |Product(versions, names)|
    ensures Product(versions, names)[Cell(i, j, |names|)] == PythonAttr(versions[i], names[j])
  {
    var n := |names|;
    var rest := versions[1..];
    ProductLength(rest, names);
    var row := seq(n, k requires 0 <= k < n => PythonAttr(versions[0], names[k]));
    assert Product(versions, names) == row + Product(rest, names);
    if i == 0 {
      assert Cell(i, j, n) == j;
    } else {
      ProductAt(rest, names, i - 1, j);
      assert Cell(i, j, n) == n + Cell(i - 1, j, n);
      assert rest[i - 1] == versions[i];
    }
  }

  /** The whole layout of the product. */
  lemma ProductLayout(versions: seq<string>, names: seq<string>)
    ensures |Product(versions, names)| == |versions| * |names|
    ensures forall i, j | 0 <= i < |versions| && 0 <= j < |names| ::
      Cell(i, j, |names|) < |Product(versions, names)| &&
      Product(versions, names)[Cell(i, j, |names|)] == PythonAttr(versions[i], names[j])
  {
    ProductLength(versions, names);
    forall i, j | 0 <= i < |versions| && 0 <= j < |names|
      ensures Cell(i, j, |names|) < |Product(versions, names)|
      ensures Product(versions, names)[Cell(i, j, |names|)] == PythonAttr(versions[i], names[j])
    {
      ProductAt(versions, names, i, j);
    }
  }

  /** `expand_package_attrnames`: every Python version paired with every
      Python package name, then the native packages; any API version but
      "0" is refused. */
  function ExpandPackageAttrnames(cfg: Config): (r: Result<seq<Attribute>, Error>)
    ensures r.Err? <==> cfg.mydraApi != "0"
    ensures r.Err? ==> r.error == NotImplemented(cfg.mydraApi)
  {
    if cfg.mydraApi != "0" then Err(NotImplemented(cfg.mydraApi))
    else Ok(Product(cfg.pythonVersions, cfg.pythonPackageNames) + cfg.nativePackages)
  }

  /** What an accepted configuration expands to: |versions|·|names|
      Python attributes of the form python{version}Packages.{name} in
      product order, then the native packages verbatim and in order. */
  lemma {:induction false} ExpandLayout(cfg: Config)
    requires cfg.mydraApi == "0"
    ensures var r := ExpandPackageAttrnames(cfg).value;
      var v, n := cfg.pythonVersions, cfg.pythonPackageNames;
      && |r| == |v| * |n| + |cfg.nativePackages|
      && (forall i, j | 0 <= i < |v| && 0 <= j < |n| ::
            Cell(i, j, |n|) < |r| && r[Cell(i, j, |n|)] == PythonAttr(v[i], n[j]))
      && (forall k | 0 <= k < |cfg.nativePackages| :: r[|v| * |n| + k] == cfg.nativePackages[k])
  {
    var v, n := cfg.pythonVersions, cfg.pythonPackageNames;
    var p := Product(v, n);
    var r := p + cfg.nativePackages;
    assert ExpandPackageAttrnames(cfg).value == r;
    ProductLayout(v, n);
    forall i, j | 0 <= i < |v| && 0 <= j < |n|
      ensures Cell(i, j, |n|) < |r| && r[Cell(i, j, |n|)] == PythonAttr(v[i], n[j])
    {
      assert r[Cell(i, j, |n|)] == p[Cell(i, j, |n|)];
    }
    forall k | 0 <= k < |cfg.nativePackages| ensures r[|p| + k] == cfg.nativePackages[k] {
    }
  }

  /** The check mark of a table row: green for a success, white for a
      failure whose reason is CANNOT BUILD, red for any other failure. */
  datatype Mark = Tick | WhiteCross | RedCross

  datatype Row = Row(mark: Mark, attr: Attribute, status: string, path: string)

  /** The rows of `execute`'s table: one per success, then one per
      failure, in the order given. */
  method ResultRows(successes: seq<(Drvpath, Storepath)>, failures: seq<(Drvpath, string)>,
                    drv2attr: map<Drvpath, Attribute>)
    returns (rows: seq<Row>)
    requires forall i | 0 <= i < |successes| :: successes[i].0 in drv2attr
    ensures |rows| == |successes| + |failures|
    ensures forall i | 0 <= i < |rows| :: rows[i].mark == Tick <==> i < |successes|
    ensures forall i | 0 <= i < |successes| ::
      rows[i] == Row(Tick, drv2attr[successes[i].0], "SUCCESS", successes[i].1)
    ensures forall i | 0 <= i < |failures| :: rows[|successes| + i] == FailureRow(failures[i].0, failures[i].1, drv2attr)
  {
    rows := [];
    for i := 0 to |successes|
      invariant |rows| == i
      invariant forall k | 0 <= k < i ::
        rows[k] == Row(Tick, drv2attr[successes[k].0], "SUCCESS", successes[k].1)
    {
      var (drv, storepath) := successes[i];
      rows := rows + [Row(Tick, drv2attr[drv], "SUCCESS", storepath)];
    }
    for i := 0 to |failures|
      invariant |rows| == |successes| + i
      invariant forall k | 0 <= k < |rows| :: rows[k].mark == Tick <==> k < |successes|
      invariant forall k | 0 <= k < |successes| ::
        rows[k] == Row(Tick, drv2attr[successes[k].0], "SUCCESS", successes[k].1)
      invariant forall k | 0 <= k < i :: rows[|successes| + k] == FailureRow(failures[k].0, failures[k].1, drv2attr)
    {
      var (drv, reason) := failures[i];
      var attr := if drv in drv2attr then drv2attr[drv] else "";
      var mark := if reason == CANNOT_BUILD then WhiteCross else RedCross;
      rows := rows + [Row(mark, attr, reason, drv)];
    }
  }

  /** The items of a map, in an order the model leaves open. */
  method Items<V(==)>(m: map<Drvpath, V>) returns (items: seq<(Drvpath, V)>)
    ensures ItemsOf(items, m)
  {
    var keys := SetToSeq(m.Keys);
    items := seq(|keys|, i requires 0 <= i < |keys| => (keys[i], m[keys[i]]));
    DistinctCard(keys, m.Keys);
    forall d | d in m ensures exists i | 0 <= i < |items| :: items[i].0 == d {
      var i :| 0 <= i < |keys| && keys[i] == d;
      assert items[i].0 == d;
    }
  }

  /** `items` lists each entry of `m` exactly once. */
  predicate ItemsOf<V(==)>(items: seq<(Drvpath, V)>, m: map<Drvpath, V>)
  {
    && |items| == |m|
    && (forall i | 0 <= i < |items| :: items[i].0 in m && m[items[i].0] == items[i].1)
    && (forall d | d in m :: exists i | 0 <= i < |items| :: items[i].0 == d)
  }

  /** A list without repeats of exactly the elements of `s` has |s| entries. */
  lemma {:induction false} DistinctCard<T>(xs: seq<T>, s: set<T>)
    requires Distinct(xs)
    requires forall x :: x in xs <==> x in s
    ensures |xs| == |s|
  {
    if xs != [] {
      var x := xs[0];
      assert Distinct(xs[1..]) by {
        forall i, j | 0 <= i < j < |xs| - 1 ensures xs[1..][i] != xs[1..][j] {
          assert xs[1..][i] == xs[i + 1] && xs[1..][j] == xs[j + 1];
        }
      }
      forall y | y in xs[1..] ensures y in s - {x} {
        var k :| 0 <= k < |xs| - 1 && xs[1..][k] == y;
        assert xs[k + 1] == y;
      }
      forall y | y in s - {x} ensures y in xs[1..] {
        var k :| 0 <= k < |xs| && xs[k] == y;
        assert xs[1..][k - 1] == y;
      }
      DistinctCard(xs[1..], s - {x});
    }
  }

  /** `execute`: expand the configuration, instantiate and build the
      packages with the failure cache read and written, and lay out the
      results. Every succeeded derivation has an attribute, so the
      success rows never miss one. */
  method Execute(cfg: Config, nix: Nix, cache: Orchestrator.FailureCache, logs: Orchestrator.LogDir)
    returns (r: Result<seq<Row>, Error>)
    modifies cache, logs
    ensures cfg.mydraApi != "0" ==> r == Err(NotImplemented(cfg.mydraApi))
    ensures r.Ok? ==> forall i | 0 <= i < |r.value| && r.value[i].mark == Tick :: r.value[i].status == "SUCCESS"
    ensures r.Ok? ==> forall i, j | 0 <= i < j < |r.value| && r.value[j].mark == Tick :: r.value[i].mark == Tick
  {
    var packages := ExpandPackageAttrnames(cfg);
    if packages.Err? {
      return Err(packages.error);
    }
    var drv2attr := Orchestrator.Instantiate(packages.value, nix);
    if drv2attr.Err? {
      return Err(NixFailed(drv2attr.error));
    }
    var drvs := new Orchestrator.DrvMap(drv2attr.value);
    var built;
    ghost var requested, order, pending, uncached;
    built, requested, order, pending, uncached := Orchestrator.Build(drvs, cache, logs, nix, true, true);
    if built.Err? {
      return Err(NixFailed(built.error));
    }
    var rows;
    ghost var successes, failures;
    rows, successes, failures := Layout(built.value, drvs.attrs);
    return Ok(rows);
  }

  /** The end of `execute`: the successes, then the failures, one row
      each, in the orders `successes` and `failures` list the two maps. A
      success row carries its attribute, SUCCESS and its store path. A
      failure row carries its attribute or "", its reason and its
      derivation, with a white mark exactly for CANNOT BUILD. */
  method Layout(outcome: Outcome, drv2attr: map<Drvpath, Attribute>)
    returns (rows: seq<Row>, ghost successes: seq<(Drvpath, Storepath)>, ghost failures: seq<(Drvpath, string)>)
    requires outcome.succeeded.Keys <= drv2attr.Keys
    ensures ItemsOf(successes, outcome.succeeded) && ItemsOf(failures, outcome.failed)
    ensures |rows| == |outcome.succeeded| + |outcome.failed|
    ensures forall i | 0 <= i < |rows| :: rows[i].mark == Tick <==> i < |outcome.succeeded|
    ensures forall i | 0 <= i < |rows| && rows[i].mark == Tick :: rows[i].status == "SUCCESS"
    ensures forall i, j | 0 <= i < j < |rows| && rows[j].mark == Tick :: rows[i].mark == Tick
    ensures forall i | 0 <= i < |successes| ::
      rows[i] == Row(Tick, drv2attr[successes[i].0], "SUCCESS", successes[i].1)
    ensures forall i | 0 <= i < |failures| :: rows[|successes| + i] == FailureRow(failures[i].0, failures[i].1, drv2attr)
  {
    var succeededItems := Items(outcome.succeeded);
    var failedItems := Items(outcome.failed);
    successes, failures := succeededItems, failedItems;
    rows := ResultRows(succeededItems, failedItems, drv2attr);
  }

  /** Success rows laid out over the items of `m` are each the row of one
      entry, and every entry has one. */
  lemma SuccessRowsCover(rows: seq<Row>, successes: seq<(Drvpath, Storepath)>, m: map<Drvpath, Storepath>,
                         drv2attr: map<Drvpath, Attribute>)
    requires ItemsOf(successes, m) && m.Keys <= drv2attr.Keys && |successes| <= |rows|
    requires forall i | 0 <= i < |successes| ::
      rows[i] == Row(Tick, drv2attr[successes[i].0], "SUCCESS", successes[i].1)
    ensures forall i | 0 <= i < |m| :: SuccessRowOf(rows[i], m, drv2attr)
    ensures forall d | d in m :: exists i | 0 <= i < |m| :: rows[i].path == m[d]
  {
    forall i | 0 <= i < |m| ensures SuccessRowOf(rows[i], m, drv2attr) {
      var d := successes[i].0;
      assert rows[i] == Row(Tick, drv2attr[d], "SUCCESS", m[d]);
    }
    forall d | d in m ensures exists i | 0 <= i < |m| :: rows[i].path == m[d] {
      var i :| 0 <= i < |successes| && successes[i].0 == d;
      assert rows[i].path == m[d];
    }
  }

  /** Failure rows laid out over the items of `m` are each the row of one
      entry, and every entry has one. */
  lemma FailureRowsCover(rows: seq<Row>, failures: seq<(Drvpath, string)>, m: map<Drvpath, string>,
                         drv2attr: map<Drvpath, Attribute>)
    requires ItemsOf(failures, m) && |rows| == |failures|
    requires forall i | 0 <= i < |failures| :: rows[i] == FailureRow(failures[i].0, failures[i].1, drv2attr)
    ensures forall i | 0 <= i < |rows| :: FailureRowOf(rows[i], m, drv2attr)
    ensures forall d | d in m :: exists i | 0 <= i < |rows| :: rows[i].path == d
  {
    assert forall i | 0 <= i < |rows| :: FailureRowOf(rows[i], m, drv2attr) by {
      forall i | 0 <= i < |rows| ensures FailureRowOf(rows[i], m, drv2attr) {
        var d := failures[i].0;
        assert rows[i] == FailureRow(d, m[d], drv2attr);
      }
    }
    forall d | d in m ensures exists i | 0 <= i < |rows| :: rows[i].path == d {
      var k :| 0 <= k < |failures| && failures[k].0 == d;
      assert rows[k].path == d;
    }
  }

  /** `r` is the success row of some entry of `m`. */
  predicate SuccessRowOf(r: Row, m: map<Drvpath, Storepath>, drv2attr: map<Drvpath, Attribute>)
    requires m.Keys <= drv2attr.Keys
  {
    exists d | d in m :: r == Row(Tick, drv2attr[d], "SUCCESS", m[d])
  }

  /** `r` is the failure row of some entry of `m`. */
  predicate FailureRowOf(r: Row, m: map<Drvpath, string>, drv2attr: map<Drvpath, Attribute>)
  {
    exists d | d in m :: r == FailureRow(d, m[d], drv2attr)
  }

  /** The row of a failed derivation: its attribute or "", its reason and
      the derivation, white for CANNOT BUILD and red otherwise. */
  function FailureRow(drv: Drvpath, reason: string, drv2attr: map<Drvpath, Attribute>): Row
  {
    Row(if reason == CANNOT_BUILD then WhiteCross else RedCross, (if drv in drv2attr then drv2attr[drv] else ""), reason, drv)
  }
}
