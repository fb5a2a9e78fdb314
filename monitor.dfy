/** `_build_uncached`: run `nix build` over a list of derivations, classify
    the failures it reports, move the derivations a timeout left unbuilt to
    MYDRA TIMEOUT, and pair the rest with their realised store paths. */
module Monitor {
  import opened Results
  import opened Text
  import opened Collections
  import opened NixTool
  import DryRun

  /** The derivations a recognised line names. The list of a "build of ...
      failed" line is cut at ", " and each piece loses its quotes. */
  function Named(e: Event): seq<Drvpath>
  {
    match e
    case CannotBuild(d, _) => [d]
    case BuildFailed(quoted) =>
      var pieces := Split(quoted, ", ");
      seq(|pieces|, i requires 0 <= i < |pieces| => Strip(pieces[i], {'\''}))
    case BuildTimedOut(d) => [d]
    case BuilderFailed(d, _) => [d]
  }

  /** Every recognised line names at least one derivation, and every
      line but "build of ... failed" exactly one. */
  lemma NamedNonEmpty(e: Event)
    ensures |Named(e)| >= 1
    ensures !e.BuildFailed? ==> |Named(e)| == 1
  {
  }

  /** A derivation path in single quotes, as "build of ... failed" lists
      it. */
  function Quote(d: Drvpath): string
  {
    "'" + d + "'"
  }

  /** A quoted path that has no ", " of its own never lets a ", " start
      inside it, even one running into the separator after it. */
  lemma QuoteNoSep(d: Drvpath)
    requires !Contains(d, ", ")
    ensures NoSepAcross(Quote(d), ", ")
  {
    ContainsIff(d, ", ");
    forall i | 0 <= i < |Quote(d)| ensures !StartsWith((Quote(d) + ", ")[i..], ", ") {
      if 1 <= i < |d| {
        assert !OccursAt(d, ", ", i - 1);
        assert d[i - 1..i + 1] == [d[i - 1], d[i]];
      }
      QuoteNoSepAt(d, i);
    }
  }

  /** QuoteNoSep at one index: a quote or two characters of `d` that are
      not ", " stand where ", " would have to. */
  lemma QuoteNoSepAt(d: Drvpath, i: int)
    requires 0 <= i < |d| + 2
    requires 1 <= i < |d| ==> !(d[i - 1] == ',' && d[i] == ' ')
    ensures !StartsWith((Quote(d) + ", ")[i..], ", ")
  {
    var y := Quote(d) + ", ";
    QuoteChars(d);
    assert y[i..][..2] == [y[i], y[i + 1]];
  }

  /** The characters of a quoted path followed by ", ". */
  lemma QuoteChars(d: Drvpath)
    ensures var y := Quote(d) + ", ";
      && |y| == |d| + 4
      && y[0] == '\'' && y[|d| + 1] == '\'' && y[|d| + 2] == ',' && y[|d| + 3] == ' '
      && forall j | 1 <= j <= |d| :: y[j] == d[j - 1]
  {
  }

  /** Stripping the quotes gives back a path that has none. */
  lemma StripQuote(d: Drvpath)
    requires '\'' !in d
    ensures Strip(Quote(d), {'\''}) == d
  {
    var q := Quote(d);
    var cs := {'\''};
    assert q[1..] == d + "'";
    assert TrimStart(q, cs) == TrimStart(d + "'", cs);
    if d == [] {
      assert TrimStart("'", cs) == TrimStart([], cs);
    } else {
      var e := d + "'";
      assert e[0] == d[0] && d[0] in d;
      assert TrimStart(e, cs) == e;
      assert e[..|e| - 1] == d;
      assert TrimEnd(e, cs) == TrimEnd(d, cs);
      assert d[|d| - 1] in d;
      assert TrimEnd(d, cs) == d;
    }
  }

  /** The list of a "build of ... failed" line names exactly the paths
      quoted and joined with ", " into it, for paths that hold neither a
      quote nor ", ". */
  lemma NamedRecovers(ds: seq<Drvpath>)
    requires ds != []
    requires forall d | d in ds :: '\'' !in d && !Contains(d, ", ")
    ensures Named(BuildFailed(Join(seq(|ds|, i requires 0 <= i < |ds| => Quote(ds[i])), ", "))) == ds
  {
    var qs := seq(|ds|, i requires 0 <= i < |ds| => Quote(ds[i]));
    forall k | 0 <= k < |qs| ensures NoSepAcross(qs[k], ", ") {
      QuoteNoSep(ds[k]);
    }
    JoinSplitBack(qs, ", ");
    var named := Named(BuildFailed(Join(qs, ", ")));
    forall k | 0 <= k < |ds| ensures named[k] == ds[k] {
      StripQuote(ds[k]);
    }
  }

  /** The reason a line gives for the derivations it names. */
  function Reason(e: Event): string
  {
    match e
    case CannotBuild(_, _) => DEP_FAILED
    case BuildFailed(_) => DEP_FAILED
    case BuildTimedOut(_) => BUILD_TIMEOUT
    case BuilderFailed(_, _) => BUILDER_FAILED
  }

  /** Some "cannot build derivation" line names `d`. */
  predicate Forced(es: seq<Event>, d: Drvpath)
  {
    exists k | 0 <= k < |es| :: es[k].CannotBuild? && es[k].drv == d
  }

  /** The reason given by the first line that names `d`. */
  function FirstReason(es: seq<Event>, d: Drvpath): Option<string>
  {
    if es == [] then None
    else if d in Named(es[0]) then Some(Reason(es[0]))
    else FirstReason(es[1..], d)
  }

  /** The reason recorded for `d` once all of `es` has been read: a "cannot
      build" line wins over everything, otherwise the first line naming `d`
      decides. */
  function Verdict(es: seq<Event>, d: Drvpath): Option<string>
  {
    if Forced(es, d) then Some(DEP_FAILED) else FirstReason(es, d)
  }

  /** The first line naming `d` fixes FirstReason. */
  lemma {:induction false} FirstReasonAt(es: seq<Event>, d: Drvpath, k: nat)
    requires k < |es| && d in Named(es[k])
    requires forall j | 0 <= j < k :: d !in Named(es[j])
    ensures FirstReason(es, d) == Some(Reason(es[k]))
  {
    if k > 0 {
      assert d !in Named(es[0]);
      FirstReasonAt(es[1..], d, k - 1);
    }
  }

  /** FirstReason is absent exactly when no line names `d`. */
  lemma {:induction false} FirstReasonNone(es: seq<Event>, d: Drvpath)
    ensures FirstReason(es, d).None? <==> forall k | 0 <= k < |es| :: d !in Named(es[k])
  {
    if es != [] {
      FirstReasonNone(es[1..], d);
      assert forall k | 1 <= k < |es| :: es[k] == es[1..][k - 1];
    }
  }

  /** FirstReason is the reason of some line naming `d`. */
  lemma {:induction false} FirstReasonFrom(es: seq<Event>, d: Drvpath)
    requires FirstReason(es, d).Some?
    ensures exists k | 0 <= k < |es| :: d in Named(es[k]) && FirstReason(es, d).value == Reason(es[k])
  {
    if d !in Named(es[0]) {
      FirstReasonFrom(es[1..], d);
      var k :| 0 <= k < |es| - 1 && d in Named(es[1..][k]) && FirstReason(es[1..], d).value == Reason(es[1..][k]);
      assert es[1..][k] == es[k + 1];
    }
  }

  /** A derivation gets a verdict exactly when some line names it, and
      the verdict is one of the three reasons the lines give: never the
      timeout of the driver itself. */
  lemma {:induction false} VerdictRange(es: seq<Event>, d: Drvpath)
    ensures Verdict(es, d).Some? <==> exists k | 0 <= k < |es| :: d in Named(es[k])
    ensures Verdict(es, d).Some? ==> Verdict(es, d).value in {DEP_FAILED, BUILD_TIMEOUT, BUILDER_FAILED}
  {
    FirstReasonNone(es, d);
    if Forced(es, d) {
      var k :| 0 <= k < |es| && es[k].CannotBuild? && es[k].drv == d;
      assert d in Named(es[k]);
    } else if FirstReason(es, d).Some? {
      FirstReasonFrom(es, d);
    }
  }

  /** Reading one more line: FirstReason only changes when nothing named
      `d` before. */
  lemma {:induction false} FirstReasonSnoc(es: seq<Event>, e: Event, d: Drvpath)
    ensures FirstReason(es + [e], d) ==
      if FirstReason(es, d).Some? then FirstReason(es, d)
      else if d in Named(e) then Some(Reason(e))
      else None
  {
    if es == [] {
      assert [] + [e] == [e];
    } else {
      assert (es + [e])[1..] == es[1..] + [e];
      FirstReasonSnoc(es[1..], e, d);
    }
  }

  /** Reading one more line, as the classification loop does it: a "cannot
      build" line sets DEP FAILED outright, any other line sets its reason
      only for derivations that have none yet. */
  lemma {:induction false} VerdictSnoc(es: seq<Event>, e: Event, d: Drvpath)
    ensures Verdict(es + [e], d) ==
      if e.CannotBuild? && e.drv == d then Some(DEP_FAILED)
      else if Verdict(es, d).None? && d in Named(e) then Some(Reason(e))
      else Verdict(es, d)
  {
    var all := es + [e];
    FirstReasonSnoc(es, e, d);
    if Forced(es, d) {
      var k :| 0 <= k < |es| && es[k].CannotBuild? && es[k].drv == d;
      assert all[k] == es[k];
    } else if e.CannotBuild? && e.drv == d {
      assert all[|es|] == e;
    } else {
      forall k | 0 <= k < |all| ensures !(all[k].CannotBuild? && all[k].drv == d) {
        if k < |es| {
          assert all[k] == es[k];
        }
      }
    }
  }

  /** The classification loop over the recognised lines of `nix build`. */
  method ClassifyOutput(es: seq<Event>) returns (failed: map<Drvpath, string>)
    ensures forall d :: Lookup(failed, d) == Verdict(es, d)
  {
    failed := map[];
    for i := 0 to |es|
      invariant forall d :: Lookup(failed, d) == Verdict(es[..i], d)
    {
      var e := es[i];
      ghost var before := failed;
      assert es[..i + 1] == es[..i] + [e];
      failed := ReadLine(failed, e);
      forall d ensures Lookup(failed, d) == Verdict(es[..i + 1], d) {
        VerdictSnoc(es[..i], e, d);
        assert Lookup(before, d) == Verdict(es[..i], d);
      }
    }
    assert es[..|es|] == es;
  }

  /** One pass of the loop: a "cannot build" line sets DEP FAILED outright;
      any other line sets its reason for the derivations it names that
      have none yet. */
  method ReadLine(failed: map<Drvpath, string>, e: Event) returns (next: map<Drvpath, string>)
    ensures forall d ::
      Lookup(next, d) ==
      if e.CannotBuild? && e.drv == d then Some(DEP_FAILED)
      else if d !in failed && d in Named(e) then Some(Reason(e))
      else Lookup(failed, d)
  {
    match e {
      case CannotBuild(d, _) =>
        next := failed[d := DEP_FAILED];
      case BuildFailed(_) =>
        next := MarkUnset(failed, Named(e), DEP_FAILED);
      case BuildTimedOut(d) =>
        next := MarkUnset(failed, [d], BUILD_TIMEOUT);
      case BuilderFailed(d, _) =>
        next := MarkUnset(failed, [d], BUILDER_FAILED);
    }
  }

  /** Gives `reason` to each of `names` that has no reason yet; first
      match wins. */
  method MarkUnset(failed: map<Drvpath, string>, names: seq<Drvpath>, reason: string)
    returns (next: map<Drvpath, string>)
    ensures forall d :: Lookup(next, d) == if d in names && d !in failed then Some(reason) else Lookup(failed, d)
  {
    next := failed;
    for j := 0 to |names|
      invariant forall d ::
        Lookup(next, d) == if d in names[..j] && d !in failed then Some(reason) else Lookup(failed, d)
    {
      assert names[..j + 1] == names[..j] + [names[j]];
      if names[j] !in next {
        next := next[names[j] := reason];
      }
    }
    assert names[..|names|] == names;
  }

  /** The paths of a dry run can all be removed, one by one, from the list
      of succeeded derivations. */
  predicate Removable(succeeded: seq<Drvpath>, listed: seq<Drvpath>)
  {
    Distinct(listed) && forall d | d in listed :: d in succeeded
  }

  /** One more listed path can be removed exactly when it is still in the
      succeeded list and was not removed before. */
  lemma {:induction false} RemovableSnoc(succeeded: seq<Drvpath>, pre: seq<Drvpath>, d: Drvpath)
    requires Removable(succeeded, pre)
    ensures Removable(succeeded, pre + [d]) <==> d in succeeded && d !in pre
  {
    var post := pre + [d];
    if d in succeeded && d !in pre {
      forall a, b | 0 <= a < b < |post| ensures post[a] != post[b] {
        if b == |pre| {
          assert post[a] == pre[a];
        } else {
          assert post[a] == pre[a] && post[b] == pre[b];
        }
      }
    } else if d in pre {
      var j :| 0 <= j < |pre| && pre[j] == d;
      assert post[j] == post[|pre|];
    } else {
      assert post[|pre|] in post;
    }
  }

  /** After a timeout, every path the dry run still lists is marked MYDRA
      TIMEOUT and removed from the succeeded list; a path that is not (or
      no longer) in that list stops the run. */
  method Reclassify(succeeded: seq<Drvpath>, failed: map<Drvpath, string>, listed: seq<Drvpath>)
    returns (r: Result<(seq<Drvpath>, map<Drvpath, string>), Failure>)
    requires Distinct(succeeded)
    ensures r.Ok? <==> Removable(succeeded, listed)
    ensures r.Ok? ==> r.value.0 == Except(succeeded, Elems(listed))
    ensures r.Ok? ==> forall x ::
      Lookup(r.value.1, x) == if x in listed then Some(MYDRA_TIMEOUT) else Lookup(failed, x)
    ensures r.Err? ==> exists k | 0 <= k < |listed| ::
      && Removable(succeeded, listed[..k])
      && !Removable(succeeded, listed[..k + 1])
      && r.error == NotSucceeded(listed[k])
  {
    var s, f := succeeded, failed;
    ExceptNothing(succeeded);
    assert Elems(listed[..0]) == {};
    for i := 0 to |listed|
      invariant Removable(succeeded, listed[..i])
      invariant s == Except(succeeded, Elems(listed[..i]))
      invariant forall x ::
        Lookup(f, x) == if x in listed[..i] then Some(MYDRA_TIMEOUT) else Lookup(failed, x)
    {
      var d := listed[i];
      ghost var pre := listed[..i];
      assert listed[..i + 1] == pre + [d];
      assert Elems(listed[..i + 1]) == Elems(pre) + {d};
      f := f[d := MYDRA_TIMEOUT];
      ExceptMembers(succeeded, Elems(pre));
      RemovableSnoc(succeeded, pre, d);
      var removed := RemoveFirst(s, d);
      if removed.None? {
        return Err(NotSucceeded(d));
      }
      RemoveExcept(succeeded, Elems(pre), d);
      s := removed.value;
      assert s == Except(succeeded, Elems(listed[..i + 1]));
    }
    assert listed[..|listed|] == listed;
    return Ok((s, f));
  }

  /** `os.path.splitext(e)[0].split("-", 1)[1]`: the name of a derivation
      path, hash and extension removed, or None where Python raises
      IndexError. */
  function DrvName(d: Drvpath): Option<string>
  {
    AfterFirstDash(SplitExtRoot(d))
  }

  /** The set of names of the succeeded derivations, or the first one
      without a '-'. */
  function SucceededNames(ds: seq<Drvpath>): Result<set<string>, Failure>
  {
    if ds == [] then Ok({})
    else
      match DrvName(ds[0])
      case None => Err(NoDash(ds[0]))
      case Some(n) =>
        match SucceededNames(ds[1..])
        case Err(e) => Err(e)
        case Ok(ns) => Ok({n} + ns)
  }

  /** SucceededNames succeeds exactly when every derivation has a name,
      and then holds exactly their names. */
  lemma {:induction false} SucceededNamesSpec(ds: seq<Drvpath>)
    ensures var r := SucceededNames(ds);
      && (r.Ok? <==> forall d | d in ds :: DrvName(d).Some?)
      && (r.Ok? ==> forall d | d in ds :: DrvName(d).Some? && DrvName(d).value in r.value)
      && (r.Ok? ==> forall n | n in r.value :: exists d | d in ds :: DrvName(d) == Some(n))
  {
    if ds != [] && DrvName(ds[0]).Some? {
      SucceededNamesSpec(ds[1..]);
      assert forall d :: d in ds <==> d == ds[0] || d in ds[1..];
    }
  }

  /** `ds[k]` is the first derivation without a name. */
  predicate FirstNameless(ds: seq<Drvpath>, k: int)
  {
    0 <= k < |ds| && DrvName(ds[k]).None? && forall j | 0 <= j < k :: DrvName(ds[j]).Some?
  }

  /** When SucceededNames fails, it names the first derivation without a
      name. */
  lemma {:induction false} SucceededNamesError(ds: seq<Drvpath>)
    ensures SucceededNames(ds).Err? ==>
      exists k :: FirstNameless(ds, k) && SucceededNames(ds).error == NoDash(ds[k])
  {
    if ds == [] {
    } else if DrvName(ds[0]).None? {
      assert FirstNameless(ds, 0);
    } else {
      var rest := SucceededNames(ds[1..]);
      if rest.Err? {
        SucceededNamesError(ds[1..]);
        var k :| FirstNameless(ds[1..], k) && rest.error == NoDash(ds[1..][k]);
        assert ds[1..][k] == ds[k + 1];
        assert forall j | 1 <= j < k + 1 :: ds[j] == ds[1..][j - 1];
        assert FirstNameless(ds, k + 1);
      }
    }
  }

  /** The non-empty lines of `nix-store --realize` whose part after the first
      '-' is the name of a succeeded derivation, in order; None where a line
      has no '-'. */
  function MatchingPaths(lines: seq<string>, names: set<string>): (r: Result<seq<Storepath>, Failure>)
    ensures r.Ok? <==> forall e | e in lines && e != [] :: AfterFirstDash(e).Some?
    ensures r.Ok? ==> |r.value| <= |lines|
    ensures r.Ok? ==> forall p | p in r.value ::
      p in lines && p != [] && AfterFirstDash(p).Some? && AfterFirstDash(p).value in names
    ensures r.Ok? ==> forall e | e in lines && e != [] && AfterFirstDash(e).Some? && AfterFirstDash(e).value in names ::
      e in r.value
    ensures r.Err? ==> exists k | 0 <= k < |lines| ::
      lines[k] != [] && AfterFirstDash(lines[k]).None? && r.error == NoDash(lines[k])
  {
    if lines == [] then Ok([])
    else
      var e := lines[0];
      assert forall x :: x in lines <==> x == e || x in lines[1..];
      if e != [] && AfterFirstDash(e).None? then Err(NoDash(e))
      else
        match MatchingPaths(lines[1..], names)
        case Err(err) =>
          assert forall k | 1 <= k < |lines| :: lines[k] == lines[1..][k - 1];
          Err(err)
        case Ok(ps) =>
          if e != [] && AfterFirstDash(e).value in names then Ok([e] + ps) else Ok(ps)
  }

  /** `lines[k]` is the first non-empty line without a '-'. */
  predicate FirstDashless(lines: seq<string>, k: int)
  {
    && 0 <= k < |lines|
    && lines[k] != [] && AfterFirstDash(lines[k]).None?
    && forall j | 0 <= j < k :: lines[j] == [] || AfterFirstDash(lines[j]).Some?
  }

  /** MatchingPaths stops at the first non-empty line without a '-'. */
  lemma {:induction false} MatchingPathsError(lines: seq<string>, names: set<string>)
    ensures MatchingPaths(lines, names).Err? ==>
      exists k :: FirstDashless(lines, k) && MatchingPaths(lines, names).error == NoDash(lines[k])
  {
    if lines != [] && (lines[0] == [] || AfterFirstDash(lines[0]).Some?) {
      var tail := lines[1..];
      MatchingPathsError(tail, names);
      if MatchingPaths(tail, names).Err? {
        var k :| FirstDashless(tail, k) && MatchingPaths(tail, names).error == NoDash(tail[k]);
        assert forall j | 1 <= j <= k + 1 :: lines[j] == tail[j - 1];
        assert FirstDashless(lines, k + 1);
      }
    } else if lines != [] {
      assert FirstDashless(lines, 0);
    }
  }

  /** Reading one more output line: an error stays, a non-empty line
      without a '-' becomes the error, and a line carrying a succeeded
      name is appended, after all the earlier ones. */
  lemma {:induction false} MatchingPathsSnoc(lines: seq<string>, e: string, names: set<string>)
    ensures MatchingPaths(lines + [e], names) ==
      match MatchingPaths(lines, names)
      case Err(err) => Err(err)
      case Ok(ps) =>
        if e != [] && AfterFirstDash(e).None? then Err(NoDash(e))
        else if e != [] && AfterFirstDash(e).value in names then Ok(ps + [e])
        else Ok(ps)
  {
    if lines == [] {
      var one := [e];
      assert lines + [e] == one && one[1..] == [];
      assert MatchingPaths(one[1..], names) == Ok([]);
      assert [e] + [] == [e];
    } else {
      var all := lines + [e];
      assert all[0] == lines[0] && all[1..] == lines[1..] + [e];
      MatchingPathsSnoc(lines[1..], e, names);
      var rest := MatchingPaths(lines[1..], names);
      if rest.Ok? && !(e != [] && AfterFirstDash(e).None?) {
        var extra := if e != [] && AfterFirstDash(e).value in names then [e] else [];
        assert [lines[0]] + (rest.value + extra) == ([lines[0]] + rest.value) + extra;
        assert rest.value + extra == rest.value + [e] || rest.value + extra == rest.value;
      }
    }
  }

  /** `{d: sp for d, sp in zip(ds, sps)}` for lists of equal length: the
      i-th derivation gets the i-th store path (a later repeat would win). */
  function Pair(ds: seq<Drvpath>, sps: seq<Storepath>): (r: map<Drvpath, Storepath>)
    requires |ds| == |sps|
    ensures r.Keys == set d | d in ds
    ensures forall d | d in r :: r[d] in sps
    ensures Distinct(ds) ==> forall i | 0 <= i < |ds| :: r[ds[i]] == sps[i]
    decreases |ds|
  {
    if ds == [] then map[]
    else
      var n := |ds| - 1;
      var r := Pair(ds[..n], sps[..n]);
      assert ds == ds[..n] + [ds[n]] && sps == sps[..n] + [sps[n]];
      assert Distinct(ds) ==> Distinct(ds[..n]) && ds[n] !in ds[..n];
      r[ds[n] := sps[n]]
  }

  /** The paths a dry-run report lists: those to build, then those to
      fetch. */
  function Unbuilt(lines: seq<string>): seq<Drvpath>
  {
    DryRun.Parse(lines).toBuild + DryRun.Parse(lines).toFetch
  }

  /** The pass after a timeout goes through: the dry run over the
      succeeded list runs and is accepted, and it lists only succeeded
      paths, each once. */
  predicate TimeoutPassOk(succeeded: seq<Drvpath>, nix: Nix)
  {
    DryRun.RunAccepted(nix.dryRun(succeeded)) && Removable(succeeded, Unbuilt(nix.dryRun(succeeded).value))
  }

  /** Why the pass after a timeout stops: the dry run fails, or a listed
      path, the first, cannot be removed from the succeeded list. */
  predicate TimeoutFails(succeeded: seq<Drvpath>, nix: Nix, err: Failure)
  {
    if !DryRun.RunAccepted(nix.dryRun(succeeded)) then DryRun.RunFails(nix.dryRun(succeeded), err)
    else
      var listed := Unbuilt(nix.dryRun(succeeded).value);
      exists k | 0 <= k < |listed| ::
        && Removable(succeeded, listed[..k])
        && !Removable(succeeded, listed[..k + 1])
        && err == NotSucceeded(listed[k])
  }

  /** The derivations still counted as succeeded after the build: all of
      `pending` without a timeout; after one, those the dry run no longer
      lists. */
  function Survivors(pending: seq<Drvpath>, nix: Nix, timedOut: bool): seq<Drvpath>
    requires timedOut ==> TimeoutPassOk(pending, nix)
  {
    if timedOut then Except(pending, Elems(Unbuilt(nix.dryRun(pending).value))) else pending
  }

  /** After a timeout: ask the dry run which succeeded derivations are in
      fact unbuilt, and move those to MYDRA TIMEOUT. */
  method TimeoutPass(succeeded: seq<Drvpath>, failed: map<Drvpath, string>, nix: Nix)
    returns (r: Result<(seq<Drvpath>, map<Drvpath, string>), Failure>)
    requires Distinct(succeeded)
    ensures r.Ok? <==> TimeoutPassOk(succeeded, nix)
    ensures r.Ok? ==> r.value.0 == Survivors(succeeded, nix, true)
    ensures r.Ok? ==> forall x ::
      Lookup(r.value.1, x) ==
      if x in Unbuilt(nix.dryRun(succeeded).value) then Some(MYDRA_TIMEOUT) else Lookup(failed, x)
    ensures r.Err? ==> TimeoutFails(succeeded, nix, r.error)
  {
    var dry := DryRun.Run(succeeded, nix);
    if dry.Err? {
      return Err(dry.error);
    }
    var listed := dry.value.toBuild + dry.value.toFetch;
    r := Reclassify(succeeded, failed, listed);
  }

  /** The middle of `_build_uncached`: classify the output of the build,
      take the derivations it did not report as `pending` (succeeded for
      now), and after a timeout move those the dry run still lists to
      MYDRA TIMEOUT. */
  method Settle(drvs: seq<Drvpath>, stream: Stream, nix: Nix)
    returns (r: Result<(seq<Drvpath>, map<Drvpath, string>), Failure>, ghost pending: seq<Drvpath>)
    ensures Distinct(pending)
    ensures forall d :: d in pending <==> d in drvs && Verdict(stream.events, d).None?
    ensures r.Ok? <==> !stream.timedOut || TimeoutPassOk(pending, nix)
    ensures r.Ok? ==> r.value.0 == Survivors(pending, nix, stream.timedOut)
    ensures r.Ok? ==> forall d ::
      Lookup(r.value.1, d) ==
      if stream.timedOut && d in Unbuilt(nix.dryRun(pending).value) then Some(MYDRA_TIMEOUT)
      else Verdict(stream.events, d)
    ensures r.Err? ==> stream.timedOut && TimeoutFails(pending, nix, r.error)
    ensures r.Ok? ==> Distinct(r.value.0)
    ensures r.Ok? ==> forall d | d in r.value.0 :: d in drvs && d !in r.value.1
    ensures r.Ok? ==> forall d | d in drvs :: d in r.value.0 || d in r.value.1
    ensures r.Ok? ==> forall d | d in r.value.1 && r.value.1[d] == MYDRA_TIMEOUT ::
      stream.timedOut && d in pending
  {
    var failed := ClassifyOutput(stream.events);
    var succeeded := SetToSeq(Elems(drvs) - failed.Keys);
    pending := succeeded;
    if stream.timedOut {
      var moved := TimeoutPass(succeeded, failed, nix);
      if moved.Err? {
        return Err(moved.error), pending;
      }
      ghost var listed := Unbuilt(nix.dryRun(pending).value);
      ExceptMembers(succeeded, Elems(listed));
      ExceptDistinct(succeeded, Elems(listed));
      succeeded, failed := moved.value.0, moved.value.1;
      forall d | d in failed && failed[d] == MYDRA_TIMEOUT ensures d in pending {
        VerdictRange(stream.events, d);
      }
    } else {
      forall d | d in failed ensures failed[d] != MYDRA_TIMEOUT {
        VerdictRange(stream.events, d);
      }
    }
    return Ok((succeeded, failed)), pending;
  }

  /** Store path `p` carries, after its first '-', the name of one of the
      derivations of `m`. */
  predicate NameMatches(m: map<Drvpath, Storepath>, p: Storepath)
  {
    AfterFirstDash(p).Some? && exists e | e in m :: DrvName(e) == AfterFirstDash(p)
  }

  /** Realising `succeeded` goes through: every derivation has a name,
      `nix-store --realize` runs, every non-empty line of its output has a
      '-', and exactly one line per derivation carries a succeeded name. */
  predicate RealizeOk(succeeded: seq<Drvpath>, nix: Nix)
  {
    && SucceededNames(succeeded).Ok?
    && nix.realize(succeeded).Some?
    && MatchingPaths(nix.realize(succeeded).value, SucceededNames(succeeded).value).Ok?
    && |MatchingPaths(nix.realize(succeeded).value, SucceededNames(succeeded).value).value| == |succeeded|
  }

  /** The output lines of `nix-store --realize` paired with the succeeded
      derivations. */
  function Realized(succeeded: seq<Drvpath>, nix: Nix): seq<Storepath>
    requires RealizeOk(succeeded, nix)
  {
    MatchingPaths(nix.realize(succeeded).value, SucceededNames(succeeded).value).value
  }

  /** Why realising stops: the first derivation without a name, the tool
      failing, the first output line without a '-', or a count of
      matching lines other than the count of derivations. */
  predicate RealizeFails(succeeded: seq<Drvpath>, nix: Nix, err: Failure)
  {
    if SucceededNames(succeeded).Err? then
      exists k | 0 <= k < |succeeded| :: FirstNameless(succeeded, k) && err == NoDash(succeeded[k])
    else if nix.realize(succeeded).None? then err == ToolFailed("nix-store --realize")
    else
      var lines := nix.realize(succeeded).value;
      var found := MatchingPaths(lines, SucceededNames(succeeded).value);
      if found.Err? then exists k | 0 <= k < |lines| :: FirstDashless(lines, k) && err == NoDash(lines[k])
      else err == CountMismatch(|found.value|, |succeeded|)
  }

  /** The end of `_build_uncached`: realise the succeeded derivations and
      pair them, by position, with the output lines that carry one of their
      names. */
  method Realize(succeeded: seq<Drvpath>, nix: Nix) returns (r: Result<map<Drvpath, Storepath>, Failure>)
    ensures r.Ok? <==> RealizeOk(succeeded, nix)
    ensures r.Ok? ==> r.value == Pair(succeeded, Realized(succeeded, nix))
    ensures r.Err? ==> RealizeFails(succeeded, nix, r.error)
    ensures r.Ok? ==> r.value.Keys == Elems(succeeded)
    ensures r.Ok? ==> forall d | d in r.value :: NameMatches(r.value, r.value[d])
  {
    var names := SucceededNames(succeeded);
    if names.Err? {
      SucceededNamesError(succeeded);
      return Err(names.error);
    }
    var realized := nix.realize(succeeded);
    if realized.None? {
      return Err(ToolFailed("nix-store --realize"));
    }
    var storepaths := MatchingPaths(realized.value, names.value);
    if storepaths.Err? {
      MatchingPathsError(realized.value, names.value);
      return Err(storepaths.error);
    }
    if |storepaths.value| != |succeeded| {
      return Err(CountMismatch(|storepaths.value|, |succeeded|));
    }
    ghost var sps := Realized(succeeded, nix);
    assert storepaths.value == sps;
    var paired := Pair(succeeded, storepaths.value);
    assert paired == Pair(succeeded, sps);
    SucceededNamesSpec(succeeded);
    forall d | d in paired ensures NameMatches(paired, paired[d]) {
      var e :| e in succeeded && DrvName(e) == Some(AfterFirstDash(paired[d]).value);
      assert e in paired;
    }
    return Ok(paired);
  }

  /** The build of `pending` goes through: the pass after a timeout, when
      there was one, and realising what survives it. */
  predicate BuildOk(pending: seq<Drvpath>, nix: Nix, timedOut: bool)
  {
    (timedOut ==> TimeoutPassOk(pending, nix)) && RealizeOk(Survivors(pending, nix, timedOut), nix)
  }

  /** What `_build_uncached(drvs)` promises of its result `r`, `pending`
      being the derivations no line of the build's output names: nothing
      to do for no derivations; otherwise the run goes through exactly when
      the pass after a timeout and the realisation do, the survivors are
      paired with their store paths, every failure has the verdict of the
      output or, for what the dry run still lists after a timeout, MYDRA
      TIMEOUT, and an error is the one the failing step gives. */
  ghost predicate Uncached(drvs: seq<Drvpath>, nix: Nix, r: Result<Outcome, Failure>, pending: seq<Drvpath>)
  {
    if drvs == [] then r == Ok(Outcome(map[], map[]))
    else
      var stream := nix.build(drvs);
      && Distinct(pending)
      && (forall d :: d in pending <==> d in drvs && Verdict(stream.events, d).None?)
      && (r.Ok? <==> BuildOk(pending, nix, stream.timedOut))
      && (r.Ok? ==>
            var survivors := Survivors(pending, nix, stream.timedOut);
            r.value.succeeded == Pair(survivors, Realized(survivors, nix)))
      && (r.Ok? ==> forall d ::
            Lookup(r.value.failed, d) ==
            if stream.timedOut && d in Unbuilt(nix.dryRun(pending).value) then Some(MYDRA_TIMEOUT)
            else Verdict(stream.events, d))
      && (r.Err? ==>
            if stream.timedOut && !TimeoutPassOk(pending, nix) then TimeoutFails(pending, nix, r.error)
            else RealizeFails(Survivors(pending, nix, stream.timedOut), nix, r.error))
  }

  /** What Uncached promises settles every derivation one way: none both
      succeeds and fails, only requested derivations succeed, every
      requested one is settled, and MYDRA TIMEOUT only marks a derivation
      no output line named, after a timeout. */
  lemma UncachedSettles(drvs: seq<Drvpath>, nix: Nix, r: Result<Outcome, Failure>, pending: seq<Drvpath>)
    requires Uncached(drvs, nix, r, pending) && r.Ok?
    ensures r.value.succeeded.Keys !! r.value.failed.Keys
    ensures forall d | d in r.value.succeeded :: d in drvs
    ensures forall d | d in drvs :: d in r.value.succeeded || d in r.value.failed
    ensures drvs != [] ==> forall d | d in r.value.failed && r.value.failed[d] == MYDRA_TIMEOUT ::
      nix.build(drvs).timedOut && d in pending
  {
    if drvs != [] {
      var stream := nix.build(drvs);
      var survivors := Survivors(pending, nix, stream.timedOut);
      var failed := r.value.failed;
      assert r.value.succeeded.Keys == Elems(survivors);
      if stream.timedOut {
        ExceptMembers(pending, Elems(Unbuilt(nix.dryRun(pending).value)));
      }
      forall d | d in drvs || d in failed || d in survivors
        ensures Lookup(failed, d) == if stream.timedOut && d in Unbuilt(nix.dryRun(pending).value) then Some(MYDRA_TIMEOUT)
          else Verdict(stream.events, d)
        ensures Verdict(stream.events, d).Some? ==> Verdict(stream.events, d).value != MYDRA_TIMEOUT
      {
        VerdictRange(stream.events, d);
      }
    }
  }

  /** `_build_uncached`: build `drvs` with `nix`, which supplies the build's
      output stream, the dry run and `nix-store --realize`. */
  method BuildUncached(drvs: seq<Drvpath>, nix: Nix) returns (r: Result<Outcome, Failure>, ghost pending: seq<Drvpath>)
    ensures Uncached(drvs, nix, r, pending)
    ensures r.Err? ==> drvs != []
    ensures r.Ok? ==> forall d | d in r.value.succeeded :: NameMatches(r.value.succeeded, r.value.succeeded[d])
  {
    if |drvs| == 0 {
      return Ok(Outcome(map[], map[])), [];
    }
    var stream := nix.build(drvs);
    var settled;
    settled, pending := Settle(drvs, stream, nix);
    if settled.Err? {
      assert !BuildOk(pending, nix, stream.timedOut);
      return Err(settled.error), pending;
    }
    var (succeeded, failed) := settled.value;
    ghost var survivors := Survivors(pending, nix, stream.timedOut);
    assert succeeded == survivors;
    var paired := Realize(succeeded, nix);
    if paired.Err? {
      assert !BuildOk(pending, nix, stream.timedOut);
      return Err(paired.error), pending;
    }
    assert BuildOk(pending, nix, stream.timedOut);
    r := Ok(Outcome(paired.value, failed));
  }
}
