/** `instantiate` and `build`: turn package attributes into derivations, and
    build derivations through the failure cache, archiving their logs. */
module Orchestrator {
  import opened Results
  import opened Text
  import opened Collections
  import opened NixTool
  import DryRun
  import Monitor

  /** Some entry of `kv` evaluated to `d`. */
  predicate Evaluated(kv: seq<(Attribute, Option<Drvpath>)>, d: Drvpath)
  {
    exists i | 0 <= i < |kv| :: kv[i].1 == Some(d)
  }

  /** No entry after the i-th evaluated to the same derivation. */
  predicate LastFor(kv: seq<(Attribute, Option<Drvpath>)>, i: int)
    requires 0 <= i < |kv|
  {
    forall j | i < j < |kv| :: kv[j].1 != kv[i].1
  }

  /** `{drvpath: attrib for attrib, drvpath in kv.items() if drvpath is not
      None}`: attributes that failed to evaluate are dropped, and of several
      attributes with the same derivation the last one is kept. */
  function Invert(kv: seq<(Attribute, Option<Drvpath>)>): map<Drvpath, Attribute>
    decreases |kv|
  {
    if kv == [] then map[]
    else
      var n := |kv| - 1;
      match kv[n].1
      case None => Invert(kv[..n])
      case Some(d) => Invert(kv[..n])[d := kv[n].0]
  }

  /** The inverted map holds exactly the derivations some attribute
      evaluated to. */
  lemma {:induction false} InvertDomain(kv: seq<(Attribute, Option<Drvpath>)>)
    ensures forall d :: d in Invert(kv) <==> Evaluated(kv, d)
    decreases |kv|
  {
    if kv != [] {
      var n := |kv| - 1;
      InvertDomain(kv[..n]);
      forall d ensures Evaluated(kv, d) <==> Evaluated(kv[..n], d) || kv[n].1 == Some(d) {
        if Evaluated(kv, d) && kv[n].1 != Some(d) {
          var i :| 0 <= i < |kv| && kv[i].1 == Some(d);
          assert kv[..n][i] == kv[i];
        }
        if Evaluated(kv[..n], d) {
          var i :| 0 <= i < n && kv[..n][i].1 == Some(d);
          assert kv[i] == kv[..n][i];
        }
      }
    }
  }

  /** The last attribute evaluating to a derivation is the one it maps
      to. */
  lemma {:induction false} InvertLast(kv: seq<(Attribute, Option<Drvpath>)>, i: nat)
    requires i < |kv| && kv[i].1.Some? && LastFor(kv, i)
    ensures kv[i].1.value in Invert(kv) && Invert(kv)[kv[i].1.value] == kv[i].0
    decreases |kv|
  {
    var n := |kv| - 1;
    if i < n {
      assert kv[n].1 != kv[i].1;
      assert LastFor(kv[..n], i) by {
        forall j | i < j < n ensures kv[..n][j].1 != kv[..n][i].1 {
          assert kv[j].1 != kv[i].1;
        }
      }
      InvertLast(kv[..n], i);
      assert kv[..n][i] == kv[i];
    }
  }

  /** `instantiate`: evaluate the attributes, keep those that have a
      derivation, and instantiate them; an evaluation that raises or a
      failing `nix-instantiate` stops the run. */
  function Instantiate(packages: seq<Attribute>, nix: Nix): (r: Result<map<Drvpath, Attribute>, Failure>)
    ensures r.Ok? <==> nix.eval(packages).Some? && nix.instantiate(Invert(nix.eval(packages).value).Values)
    ensures r.Err? ==> r.error == if nix.eval(packages).None? then ToolFailed("nix eval") else ToolFailed("nix-instantiate")
    ensures r.Ok? ==> forall d :: d in r.value <==> Evaluated(nix.eval(packages).value, d)
    ensures r.Ok? ==> forall d | d in r.value ::
      exists i | 0 <= i < |nix.eval(packages).value| :: nix.eval(packages).value[i] == (r.value[d], Some(d))
  {
    match nix.eval(packages)
    case None => Err(ToolFailed("nix eval"))
    case Some(kv) =>
      var answer := Invert(kv);
      if nix.instantiate(answer.Values) then
        InvertDomain(kv);
        InvertFrom(kv);
        Ok(answer)
      else Err(ToolFailed("nix-instantiate"))
  }

  /** Every entry of the inverted map comes from one evaluated attribute. */
  lemma {:induction false} InvertFrom(kv: seq<(Attribute, Option<Drvpath>)>)
    ensures forall d | d in Invert(kv) :: exists i | 0 <= i < |kv| :: kv[i] == (Invert(kv)[d], Some(d))
    decreases |kv|
  {
    if kv != [] {
      var n := |kv| - 1;
      InvertFrom(kv[..n]);
      forall d | d in Invert(kv) ensures exists i | 0 <= i < |kv| :: kv[i] == (Invert(kv)[d], Some(d)) {
        if kv[n].1 == Some(d) {
          assert kv[n] == (Invert(kv)[d], Some(d));
        } else {
          var i :| 0 <= i < n && kv[..n][i] == (Invert(kv[..n])[d], Some(d));
          assert kv[i] == kv[..n][i];
        }
      }
    }
  }

  /** The caller's derivation-to-attribute map, which `build` extends in
      place. */
  class DrvMap {
    var attrs: map<Drvpath, Attribute>

    constructor (attrs0: map<Drvpath, Attribute>)
      ensures attrs == attrs0
    {
      attrs := attrs0;
    }

    /** Adds each dependency that is not there yet, with attribute "". */
    method AddDependencies(deps: seq<Drvpath>)
      modifies this
      ensures forall d | d in old(attrs) :: d in attrs && attrs[d] == old(attrs)[d]
      ensures forall d | d in deps :: d in attrs
      ensures forall d | d in attrs && d !in old(attrs) :: d in deps && attrs[d] == ""
    {
      for i := 0 to |deps|
        invariant forall d | d in old(attrs) :: d in attrs && attrs[d] == old(attrs)[d]
        invariant forall d | d in deps[..i] :: d in attrs
        invariant forall d | d in attrs && d !in old(attrs) :: d in deps[..i] && attrs[d] == ""
      {
        assert deps[..i + 1] == deps[..i] + [deps[i]];
        if deps[i] !in attrs {
          attrs := attrs[deps[i] := ""];
        }
      }
      assert deps[..|deps|] == deps;
    }
  }

  /** The failure cache file: None while it does not exist. */
  class FailureCache {
    var stored: Option<map<Drvpath, string>>

    constructor (stored0: Option<map<Drvpath, string>>)
      ensures stored == stored0
    {
      stored := stored0;
    }

    /** What `build` reads: the stored map when the cache is used or
        written and the file exists, an empty map otherwise. */
    function Loaded(useCache: bool, writeCache: bool): (r: map<Drvpath, string>)
      reads this
      ensures stored.Some? && (useCache || writeCache) ==> r == stored.value
      ensures stored.None? || !(useCache || writeCache) ==> r == map[]
    {
      if (useCache || writeCache) && stored.Some? then stored.value else map[]
    }

    /** Overwrites the file with `m`. */
    method Save(m: map<Drvpath, string>)
      modifies this
      ensures stored == Some(m)
    {
      stored := Some(m);
    }
  }

  /** The log directory: file name to contents. */
  class LogDir {
    var files: map<string, string>

    constructor (files0: map<string, string>)
      ensures files == files0
    {
      files := files0;
    }

    /** Saves the log of each derivation, under its base name, unless a file
        of that name exists or `nix log` has nothing. */
    method Archive(drvs: seq<Drvpath>, nix: Nix)
      modifies this
      ensures forall n | n in old(files) :: n in files && files[n] == old(files)[n]
      ensures forall d | d in drvs && nix.log(d).Some? :: Basename(d) in files
      ensures forall n | n in files && n !in old(files) :: LogAmong(drvs, |drvs|, nix, n, files[n])
      ensures (forall d | d in drvs :: Basename(d) in old(files) || nix.log(d).None?) ==> files == old(files)
    {
      for i := 0 to |drvs|
        invariant forall n | n in old(files) :: n in files && files[n] == old(files)[n]
        invariant forall k | 0 <= k < i && nix.log(drvs[k]).Some? :: Basename(drvs[k]) in files
        invariant forall n | n in files && n !in old(files) :: LogAmong(drvs, i, nix, n, files[n])
        invariant files == old(files) || exists k | 0 <= k < i :: Basename(drvs[k]) !in old(files) && nix.log(drvs[k]).Some?
      {
        ghost var before := files;
        SaveLog(drvs[i], nix);
        forall n | n in files && n !in old(files) ensures LogAmong(drvs, i + 1, nix, n, files[n]) {
          if n in before {
            assert files[n] == before[n];
            LogAmongGrows(drvs, i, nix, n, files[n]);
          } else {
            assert Basename(drvs[i]) == n && nix.log(drvs[i]) == Some(files[n]);
          }
        }
        if files != old(files) && before == old(files) {
          assert Basename(drvs[i]) !in old(files) && nix.log(drvs[i]).Some?;
        }
      }
    }

    /** One step of the archive: the log of `drv` is written when no file
        of its name exists and `nix log` has one. */
    method SaveLog(drv: Drvpath, nix: Nix)
      modifies this
      ensures var name := Basename(drv);
        files == if name !in old(files) && nix.log(drv).Some? then old(files)[name := nix.log(drv).value] else old(files)
    {
      var name := Basename(drv);
      if name !in files {
        match nix.log(drv) {
          case None =>
          case Some(text) =>
            files := files[name := text];
        }
      }
    }
  }

  /** File `n` holds `text` because one of the first `i` derivations has
      that base name and that log. */
  predicate LogAmong(drvs: seq<Drvpath>, i: nat, nix: Nix, n: string, text: string)
    requires i <= |drvs|
  {
    exists k | 0 <= k < i :: Basename(drvs[k]) == n && nix.log(drvs[k]) == Some(text)
  }

  lemma LogAmongGrows(drvs: seq<Drvpath>, i: nat, nix: Nix, n: string, text: string)
    requires i < |drvs| && LogAmong(drvs, i, nix, n, text)
    ensures LogAmong(drvs, i + 1, nix, n, text)
  {
    var k :| 0 <= k < i && Basename(drvs[k]) == n && nix.log(drvs[k]) == Some(text);
  }

  /** Splits off the derivations with a cached failure when the cache is
      used: they are not built and count as failed with the cached reason. */
  method Partition(drvs: map<Drvpath, Attribute>, cache: map<Drvpath, string>, useCache: bool)
    returns (toBuild: map<Drvpath, Attribute>, failures: map<Drvpath, string>)
    ensures toBuild.Keys == if useCache then drvs.Keys - cache.Keys else drvs.Keys
    ensures forall d | d in toBuild :: toBuild[d] == drvs[d]
    ensures failures.Keys == if useCache then drvs.Keys * cache.Keys else {}
    ensures forall d | d in failures :: failures[d] == cache[d]
  {
    toBuild, failures := drvs, map[];
    if useCache {
      var keys := SetToSeq(drvs.Keys);
      ghost var done: set<Drvpath> := {};
      for i := 0 to |keys|
        invariant done <= drvs.Keys
        invariant forall k | 0 <= k < i :: keys[k] in done
        invariant toBuild.Keys == drvs.Keys - (cache.Keys * done)
        invariant forall d | d in toBuild :: toBuild[d] == drvs[d]
        invariant failures.Keys == cache.Keys * done
        invariant forall d | d in failures :: failures[d] == cache[d]
      {
        var drv := keys[i];
        if drv in cache {
          toBuild := toBuild - {drv};
          failures := failures[drv := cache[drv]];
        }
        done := done + {drv};
      }
      assert done == drvs.Keys;
    }
  }

  /** Writes every failure except a MYDRA TIMEOUT into the cache, keeping
      the entries that are already there; a MYDRA TIMEOUT can only be in
      the result if the cache already held it. */
  method RememberFailures(cache: map<Drvpath, string>, failures: map<Drvpath, string>)
    returns (r: map<Drvpath, string>)
    ensures r.Keys == cache.Keys + Kept(failures)
    ensures forall d | d in r :: r[d] == if d in Kept(failures) then failures[d] else cache[d]
    ensures forall d | d in r && r[d] == MYDRA_TIMEOUT :: d in cache && cache[d] == MYDRA_TIMEOUT
  {
    r := cache;
    var keys := SetToSeq(failures.Keys);
    ghost var done: set<Drvpath> := {};
    for i := 0 to |keys|
      invariant done <= failures.Keys
      invariant forall k | 0 <= k < i :: keys[k] in done
      invariant r.Keys == cache.Keys + (Kept(failures) * done)
      invariant forall d | d in r :: r[d] == if d in Kept(failures) * done then failures[d] else cache[d]
    {
      var drv := keys[i];
      if failures[drv] != MYDRA_TIMEOUT {
        r := r[drv := failures[drv]];
      }
      done := done + {drv};
    }
    assert done == failures.Keys;
  }

  /** The failures worth caching: all but the MYDRA TIMEOUTs. */
  function Kept(failures: map<Drvpath, string>): set<Drvpath>
  {
    set d | d in failures && failures[d] != MYDRA_TIMEOUT
  }

  /** The first step of `build`: the dry run over the requested
      derivations, listed in `requested`, whose "will be built" list joins
      the map; a failing dry run leaves the map as it was. */
  method Expand(drvs: DrvMap, nix: Nix) returns (err: Option<Failure>, ghost requested: seq<Drvpath>)
    modifies drvs
    ensures Distinct(requested) && forall d :: d in requested <==> d in old(drvs.attrs)
    ensures err.None? <==> DryRun.RunAccepted(nix.dryRun(requested))
    ensures err.Some? ==> DryRun.RunFails(nix.dryRun(requested), err.value) && unchanged(drvs)
    ensures err.None? ==> forall d ::
      d in drvs.attrs <==> d in old(drvs.attrs) || d in DryRun.Parse(nix.dryRun(requested).value).toBuild
    ensures forall d | d in old(drvs.attrs) :: d in drvs.attrs && drvs.attrs[d] == old(drvs.attrs)[d]
    ensures forall d | d in drvs.attrs && d !in old(drvs.attrs) :: drvs.attrs[d] == ""
  {
    var order := SetToSeq(drvs.attrs.Keys);
    requested := order;
    var dry := DryRun.Run(order, nix);
    if dry.Err? {
      return Some(dry.error), requested;
    }
    drvs.AddDependencies(dry.value.toBuild);
    return None, requested;
  }

  /** The middle of `build`: cached failures (when the cache is used) are
      not built; the derivations of `order` are, which gives `uncached`, and
      fresh failures override cached ones. */
  method BuildRest(attrs: map<Drvpath, Attribute>, loaded: map<Drvpath, string>, nix: Nix, useCache: bool)
    returns (r: Result<Outcome, Failure>, ghost order: seq<Drvpath>, ghost pending: seq<Drvpath>,
             ghost uncached: Result<Outcome, Failure>)
    ensures Distinct(order)
    ensures Elems(order) == if useCache then attrs.Keys - loaded.Keys else attrs.Keys
    ensures Monitor.Uncached(order, nix, uncached, pending)
    ensures r.Ok? <==> uncached.Ok?
    ensures r.Err? ==> r == Err(uncached.error)
    ensures r.Ok? ==> r.value.succeeded == uncached.value.succeeded
    ensures r.Ok? ==>
      r.value.failed.Keys == uncached.value.failed.Keys + (if useCache then attrs.Keys * loaded.Keys else {})
    ensures r.Ok? ==> forall d | d in r.value.failed ::
      r.value.failed[d] == if d in uncached.value.failed then uncached.value.failed[d] else loaded[d]
    ensures r.Ok? ==> r.value.succeeded.Keys !! r.value.failed.Keys
    ensures r.Ok? ==> forall d | d in r.value.succeeded :: d in attrs
    ensures r.Ok? ==> forall d | d in attrs :: d in r.value.succeeded || d in r.value.failed
    ensures r.Ok? && useCache ==> forall d | d in attrs && d in loaded :: d in r.value.failed && d !in r.value.succeeded
  {
    var toBuild, cached := Partition(attrs, loaded, useCache);
    var built;
    built, order, pending := BuildAll(toBuild.Keys, nix);
    uncached := built;
    if built.Err? {
      return Err(built.error), order, pending, uncached;
    }
    var succeeded := built.value.succeeded;
    var failures := cached + built.value.failed;
    return Ok(Outcome(succeeded, failures)), order, pending, uncached;
  }

  /** `_build_uncached(list(drvs))`: `order` is the list the set becomes. */
  method BuildAll(drvs: set<Drvpath>, nix: Nix)
    returns (r: Result<Outcome, Failure>, ghost order: seq<Drvpath>, ghost pending: seq<Drvpath>)
    ensures Distinct(order) && Elems(order) == drvs
    ensures Monitor.Uncached(order, nix, r, pending)
    ensures r.Ok? ==> r.value.succeeded.Keys !! r.value.failed.Keys
    ensures r.Ok? ==> r.value.succeeded.Keys <= drvs
    ensures r.Ok? ==> drvs <= r.value.succeeded.Keys + r.value.failed.Keys
  {
    var list := SetToSeq(drvs);
    order := list;
    r, pending := Monitor.BuildUncached(list, nix);
    if r.Ok? {
      Monitor.UncachedSettles(list, nix, r, pending);
    }
  }

  /** A derivation of `outcome` has base name `n` and the log `text`. */
  predicate Archived(outcome: Outcome, nix: Nix, n: string, text: string)
  {
    exists d | d in outcome.succeeded.Keys + outcome.failed.Keys :: Basename(d) == n && nix.log(d) == Some(text)
  }

  /** Every derivation of `outcome` already has a file of its base name
      among `files`, or no log. */
  predicate NoNewLog(outcome: Outcome, nix: Nix, files: map<string, string>)
  {
    forall d | d in outcome.succeeded.Keys + outcome.failed.Keys :: Basename(d) in files || nix.log(d).None?
  }

  /** The last step of `build` when writing the cache: every failure but a
      MYDRA TIMEOUT is recorded over the loaded entries, and the logs of
      every derivation in the outcome are archived. */
  method WriteBack(cache: FailureCache, logs: LogDir, loaded: map<Drvpath, string>, outcome: Outcome, nix: Nix)
    modifies cache, logs
    ensures cache.stored.Some?
    ensures cache.stored.value.Keys == loaded.Keys + Kept(outcome.failed)
    ensures forall d | d in cache.stored.value ::
      cache.stored.value[d] == if d in Kept(outcome.failed) then outcome.failed[d] else loaded[d]
    ensures forall d | d in cache.stored.value && cache.stored.value[d] == MYDRA_TIMEOUT :: d in loaded
    ensures forall d | (d in outcome.succeeded || d in outcome.failed) && nix.log(d).Some? ::
      Basename(d) in logs.files
    ensures forall n | n in old(logs.files) :: n in logs.files && logs.files[n] == old(logs.files)[n]
    ensures forall n | n in logs.files && n !in old(logs.files) :: Archived(outcome, nix, n, logs.files[n])
    ensures NoNewLog(outcome, nix, old(logs.files)) ==> logs.files == old(logs.files)
  {
    var updated := RememberFailures(loaded, outcome.failed);
    var succeededKeys := SetToSeq(outcome.succeeded.Keys);
    var failedKeys := SetToSeq(outcome.failed.Keys);
    var all := succeededKeys + failedKeys;
    logs.Archive(all, nix);
    forall n | n in logs.files && n !in old(logs.files) ensures Archived(outcome, nix, n, logs.files[n]) {
      var k :| 0 <= k < |all| && Basename(all[k]) == n && nix.log(all[k]) == Some(logs.files[n]);
      assert all[k] in all;
    }
    cache.Save(updated);
  }

  /** `build`: expand `drvs` with the dependencies the dry run over
      `requested` lists, split off cached failures, build the rest in
      `order`, which gives `uncached`, merge fresh failures over cached ones,
      and, when writing the cache, record the failures and archive the
      logs. */
  method Build(drvs: DrvMap, cache: FailureCache, logs: LogDir, nix: Nix, useCache: bool, writeCache: bool)
    returns (r: Result<Outcome, Failure>, ghost requested: seq<Drvpath>, ghost order: seq<Drvpath>,
             ghost pending: seq<Drvpath>, ghost uncached: Result<Outcome, Failure>)
    modifies drvs, cache, logs
    ensures Distinct(requested) && forall d :: d in requested <==> d in old(drvs.attrs)
    ensures !DryRun.RunAccepted(nix.dryRun(requested)) ==>
      r.Err? && DryRun.RunFails(nix.dryRun(requested), r.error) && unchanged(drvs)
    ensures DryRun.RunAccepted(nix.dryRun(requested)) ==> forall d ::
      d in drvs.attrs <==> d in old(drvs.attrs) || d in DryRun.Parse(nix.dryRun(requested).value).toBuild
    ensures forall d | d in old(drvs.attrs) :: d in drvs.attrs && drvs.attrs[d] == old(drvs.attrs)[d]
    ensures forall d | d in drvs.attrs && d !in old(drvs.attrs) :: drvs.attrs[d] == ""
    ensures DryRun.RunAccepted(nix.dryRun(requested)) ==>
      && Distinct(order)
      && Elems(order) == (if useCache then drvs.attrs.Keys - old(cache.Loaded(useCache, writeCache)).Keys else drvs.attrs.Keys)
      && Monitor.Uncached(order, nix, uncached, pending)
      && (r.Ok? <==> uncached.Ok?)
      && (r.Err? ==> r == Err(uncached.error))
    ensures r.Ok? ==> r.value.succeeded == uncached.value.succeeded
    ensures r.Ok? ==>
      r.value.failed.Keys ==
      uncached.value.failed.Keys + (if useCache then drvs.attrs.Keys * old(cache.Loaded(useCache, writeCache)).Keys else {})
    ensures r.Ok? ==> forall d | d in r.value.failed ::
      r.value.failed[d] ==
      if d in uncached.value.failed then uncached.value.failed[d] else old(cache.Loaded(useCache, writeCache))[d]
    ensures r.Err? || !writeCache ==> unchanged(cache) && unchanged(logs)
    ensures r.Ok? ==> r.value.succeeded.Keys !! r.value.failed.Keys
    ensures r.Ok? ==> forall d | d in r.value.succeeded :: d in drvs.attrs
    ensures r.Ok? ==> forall d | d in drvs.attrs :: d in r.value.succeeded || d in r.value.failed
    ensures r.Ok? && useCache ==> forall d | d in drvs.attrs && d in old(cache.Loaded(useCache, writeCache)) ::
      d in r.value.failed && d !in r.value.succeeded
    ensures r.Ok? && writeCache ==> cache.stored.Some?
    ensures r.Ok? && writeCache ==>
      cache.stored.value.Keys == old(cache.Loaded(useCache, writeCache)).Keys + Kept(r.value.failed)
    ensures r.Ok? && writeCache ==> forall d | d in cache.stored.value ::
      cache.stored.value[d] ==
      if d in Kept(r.value.failed) then r.value.failed[d] else old(cache.Loaded(useCache, writeCache))[d]
    ensures r.Ok? && writeCache ==> forall d | d in cache.stored.value && cache.stored.value[d] == MYDRA_TIMEOUT ::
      d in old(cache.Loaded(useCache, writeCache))
    ensures r.Ok? && writeCache ==> forall d | (d in r.value.succeeded || d in r.value.failed) && nix.log(d).Some? ::
      Basename(d) in logs.files
    ensures r.Ok? && writeCache ==> forall n | n in old(logs.files) :: n in logs.files && logs.files[n] == old(logs.files)[n]
    ensures r.Ok? && writeCache ==> forall n | n in logs.files && n !in old(logs.files) ::
      Archived(r.value, nix, n, logs.files[n])
    ensures r.Ok? && writeCache && NoNewLog(r.value, nix, old(logs.files)) ==> logs.files == old(logs.files)
  {
    var err;
    err, requested := Expand(drvs, nix);
    if err.Some? {
      return Err(err.value), requested, [], [], Err(err.value);
    }
    var loaded := cache.Loaded(useCache, writeCache);
    r, order, pending, uncached := BuildRest(drvs.attrs, loaded, nix, useCache);
    if r.Ok? && writeCache {
      WriteBack(cache, logs, loaded, r.value, nix);
    }
  }
}
