/** `build_dry`: the parser for the report of `nix-store --realize --dry-run`.
    The report is a list of store paths under two section headers; every
    other non-blank line is an error. */
module DryRun {
  import opened Results
  import opened Text
  import opened NixTool

  const FETCH_HEADER: string := "these paths will be fetched"
  const BUILD_HEADER: string := "these derivations will be built"
  const STORE_PREFIX: string := "/nix/store"

  /** The two lists a header can select. */
  datatype Section = ToFetch | ToBuild

  /** How one stripped line is read, tests taken in the order the parser
      takes them: a header wins over a path, a path over a blank line. */
  datatype LineKind = Header(section: Section) | StorePath | Blank | Garbage

  function Kind(line: string): LineKind
  {
    if Contains(line, FETCH_HEADER) then Header(ToFetch)
    else if Contains(line, BUILD_HEADER) then Header(ToBuild)
    else if StartsWith(line, STORE_PREFIX) then StorePath
    else if line == "" then Blank
    else Garbage
  }

  /** The kind of the i-th line of the report, once stripped. */
  function KindAt(lines: seq<string>, i: nat): LineKind
    requires i < |lines|
  {
    Kind(StripSpace(lines[i]))
  }

  /** The section chosen by the last header among the first `n` lines, if
      any. */
  function SectionBefore(lines: seq<string>, n: nat): Option<Section>
    requires n <= |lines|
  {
    if n == 0 then None
    else match KindAt(lines, n - 1)
      case Header(section) => Some(section)
      case _ => SectionBefore(lines, n - 1)
  }

  /** The stripped store-path lines among the first `n` lines that stand
      under a header for `section`, in report order. */
  function Listed(lines: seq<string>, n: nat, section: Section): seq<Drvpath>
    requires n <= |lines|
  {
    if n == 0 then []
    else
      Listed(lines, n - 1, section) +
      if KindAt(lines, n - 1) == StorePath && SectionBefore(lines, n - 1) == Some(section)
      then [StripSpace(lines[n - 1])] else []
  }

  /** The parser gets past line `i`: it is no garbage, and when it is a path
      some header came before it. */
  predicate Accepted(lines: seq<string>, i: nat)
    requires i < |lines|
  {
    match KindAt(lines, i)
    case Garbage => false
    case StorePath => SectionBefore(lines, i).Some?
    case _ => true
  }

  /** The error raised at a line that is not accepted. */
  function Rejection(lines: seq<string>, i: nat): Failure
    requires i < |lines|
  {
    if KindAt(lines, i) == Garbage then DryRunParse(StripSpace(lines[i]))
    else NoSection(StripSpace(lines[i]))
  }

  /** What `build_dry` returns: the paths to build and the paths to fetch. */
  datatype Report = Report(toBuild: seq<Drvpath>, toFetch: seq<Drvpath>)

  /** The parse of a report that is accepted line by line. */
  function Parse(lines: seq<string>): Report
  {
    Report(Listed(lines, |lines|, ToBuild), Listed(lines, |lines|, ToFetch))
  }

  /** build_dry after the tool has run: `lines` are its stderr lines. */
  method BuildDry(lines: seq<string>) returns (r: Result<Report, Failure>)
    ensures r.Ok? <==> forall i | 0 <= i < |lines| :: Accepted(lines, i)
    ensures r.Ok? ==> r.value == Parse(lines)
    ensures r.Err? ==> exists i | 0 <= i < |lines| ::
                         && !Accepted(lines, i)
                         && (forall j | 0 <= j < i :: Accepted(lines, j))
                         && r.error == Rejection(lines, i)
  {
    var toFetch: seq<Drvpath> := [];
    var toBuild: seq<Drvpath> := [];
    var cur: Option<Section> := None;
    var i := 0;
    while i < |lines|
      invariant 0 <= i <= |lines|
      invariant cur == SectionBefore(lines, i)
      invariant toBuild == Listed(lines, i, ToBuild)
      invariant toFetch == Listed(lines, i, ToFetch)
      invariant forall j | 0 <= j < i :: Accepted(lines, j)
    {
      var line := StripSpace(lines[i]);
      var kind := KindAt(lines, i);
      assert SectionBefore(lines, i + 1) == if kind.Header? then Some(kind.section) else cur;
      assert Listed(lines, i + 1, ToBuild) ==
        toBuild + if kind == StorePath && cur == Some(ToBuild) then [line] else [];
      match kind {
        case Header(section) =>
          cur := Some(section);
        case StorePath =>
          match cur {
            case None =>
              assert !Accepted(lines, i) && Rejection(lines, i) == NoSection(line);
              return Err(NoSection(line));
            case Some(ToFetch) =>
              toFetch := toFetch + [line];
            case Some(ToBuild) =>
              toBuild := toBuild + [line];
          }
        case Blank =>
        case Garbage =>
          assert !Accepted(lines, i) && Rejection(lines, i) == DryRunParse(line);
          return Err(DryRunParse(line));
      }
      i := i + 1;
    }
    return Ok(Report(toBuild, toFetch));
  }

  /** The dry run ran and its whole report was accepted. */
  predicate RunAccepted(out: Option<seq<string>>)
  {
    out.Some? && AllAccepted(out.value)
  }

  /** Why a dry run stops the caller: the tool failed, or the parser
      rejected a line, the first bad one. */
  predicate RunFails(out: Option<seq<string>>, err: Failure)
  {
    match out
    case None => err == ToolFailed("nix-store --realize --dry-run")
    case Some(lines) =>
      exists i | 0 <= i < |lines| ::
        && !Accepted(lines, i)
        && (forall j | 0 <= j < i :: Accepted(lines, j))
        && err == Rejection(lines, i)
  }

  /** `build_dry(drvs)`: run the dry run over `drvs` and parse its
      report. */
  method Run(drvs: seq<Drvpath>, nix: Nix) returns (r: Result<Report, Failure>)
    ensures r.Ok? <==> RunAccepted(nix.dryRun(drvs))
    ensures r.Ok? ==> r.value == Parse(nix.dryRun(drvs).value)
    ensures r.Err? ==> RunFails(nix.dryRun(drvs), r.error)
  {
    var out := nix.dryRun(drvs);
    if out.None? {
      return Err(ToolFailed("nix-store --realize --dry-run"));
    }
    r := BuildDry(out.value);
  }

  /** The other section. */
  function Other(section: Section): Section
  {
    if section == ToFetch then ToBuild else ToFetch
  }

  /** A store path as the tool prints it: under the store, not ending in
      blank space, and not containing either header phrase. */
  predicate PrintablePath(p: string)
  {
    && StartsWith(p, STORE_PREFIX)
    && p[|p| - 1] !in Whitespace
    && !Contains(p, FETCH_HEADER)
    && !Contains(p, BUILD_HEADER)
  }

  /** A path line of the report, indented by two spaces. */
  function Indent(p: string): string
  {
    "  " + p
  }

  /** Path lines, each indented. */
  function Indents(ps: seq<string>): (r: seq<string>)
    ensures |r| == |ps|
  {
    if ps == [] then [] else Indents(ps[..|ps| - 1]) + [Indent(ps[|ps| - 1])]
  }

  /** The report the dry run prints for `rep`: the header of the paths to
      build and those paths, then the header of the paths to fetch and
      those paths. */
  function Render(rep: Report): seq<string>
  {
    [BUILD_HEADER + ":"] + Indents(rep.toBuild) + [FETCH_HEADER + ":"] + Indents(rep.toFetch)
  }

  /** An indented printable path strips back to the path and reads as a
      path line. */
  lemma {:induction false} IndentedPath(p: string)
    requires PrintablePath(p)
    ensures StripSpace(Indent(p)) == p
    ensures Kind(p) == StorePath
  {
    assert p[0] == '/' by {
      assert p[..|STORE_PREFIX|] == STORE_PREFIX;
    }
    var q := Indent(p);
    assert q[1..] == " " + p && q[1..][1..] == p;
    assert TrimStart(q, Whitespace) == TrimStart(p, Whitespace) == p;
  }

  /** Every line of the report is accepted. */
  predicate AllAccepted(lines: seq<string>)
  {
    forall i | 0 <= i < |lines| :: Accepted(lines, i)
  }

  /** What the parser knows after the first `n` lines does not depend on the
      lines after them. */
  lemma {:induction false} PrefixStable(lines: seq<string>, more: seq<string>, n: nat)
    requires n <= |lines|
    ensures SectionBefore(lines + more, n) == SectionBefore(lines, n)
    ensures Listed(lines + more, n, ToBuild) == Listed(lines, n, ToBuild)
    ensures Listed(lines + more, n, ToFetch) == Listed(lines, n, ToFetch)
  {
    if n > 0 {
      PrefixStable(lines, more, n - 1);
      assert (lines + more)[n - 1] == lines[n - 1];
    }
  }

  /** Appending one line moves the section only when that line is a
      header. */
  lemma {:induction false} SnocSection(lines: seq<string>, line: string)
    ensures SectionBefore(lines + [line], |lines| + 1) ==
      match KindAt(lines + [line], |lines|)
      case Header(s) => Some(s)
      case _ => SectionBefore(lines, |lines|)
  {
    PrefixStable(lines, [line], |lines|);
  }

  /** Appending one line adds at most that line, stripped, to a list. */
  lemma {:induction false} SnocListed(lines: seq<string>, line: string, section: Section)
    ensures Listed(lines + [line], |lines| + 1, section) ==
      Listed(lines, |lines|, section) +
      (if KindAt(lines + [line], |lines|) == StorePath && SectionBefore(lines, |lines|) == Some(section)
       then [StripSpace(line)] else [])
  {
    PrefixStable(lines, [line], |lines|);
    assert (lines + [line])[|lines|] == line;
  }

  /** Appending one line keeps every earlier line accepted or rejected. */
  lemma {:induction false} SnocAccepted(lines: seq<string>, line: string)
    ensures AllAccepted(lines + [line]) <==> AllAccepted(lines) && Accepted(lines + [line], |lines|)
  {
    var n := |lines|;
    var all := lines + [line];
    forall i | 0 <= i < n ensures Accepted(all, i) == Accepted(lines, i) {
      PrefixStable(lines, [line], i);
      assert all[i] == lines[i];
      assert KindAt(all, i) == KindAt(lines, i);
    }
    if AllAccepted(lines) && Accepted(all, n) {
      forall i | 0 <= i < n + 1 ensures Accepted(all, i) {
        if i < n {
          assert Accepted(lines, i);
        }
      }
    }
    if AllAccepted(all) {
      forall i | 0 <= i < n ensures Accepted(lines, i) {
        assert Accepted(all, i);
      }
    }
  }

  /** All three at once, for the two sections. */
  lemma {:induction false} Snoc(lines: seq<string>, line: string)
    ensures SectionBefore(lines + [line], |lines| + 1) ==
      match KindAt(lines + [line], |lines|)
      case Header(s) => Some(s)
      case _ => SectionBefore(lines, |lines|)
    ensures forall section: Section ::
      (Listed(lines + [line], |lines| + 1, section) ==
         Listed(lines, |lines|, section) +
         (if KindAt(lines + [line], |lines|) == StorePath && SectionBefore(lines, |lines|) == Some(section)
          then [StripSpace(line)] else []))
    ensures AllAccepted(lines + [line]) <==> AllAccepted(lines) && Accepted(lines + [line], |lines|)
  {
    SnocSection(lines, line);
    forall section: Section
      ensures Listed(lines + [line], |lines| + 1, section) ==
                Listed(lines, |lines|, section) +
                (if KindAt(lines + [line], |lines|) == StorePath && SectionBefore(lines, |lines|) == Some(section)
                 then [StripSpace(line)] else [])
    {
      SnocListed(lines, line, section);
    }
    SnocAccepted(lines, line);
  }

  /** A run of indented printable paths, appended under a header for
      `section`, adds exactly those paths, in order, to that section's
      list. */
  lemma {:induction false} IndentedBlock(lines: seq<string>, ps: seq<Drvpath>, section: Section)
    requires SectionBefore(lines, |lines|) == Some(section)
    requires AllAccepted(lines)
    requires forall p | p in ps :: PrintablePath(p)
    ensures var all := lines + Indents(ps);
      && SectionBefore(all, |all|) == Some(section)
      && Listed(all, |all|, section) == Listed(lines, |lines|, section) + ps
      && Listed(all, |all|, Other(section)) == Listed(lines, |lines|, Other(section))
      && AllAccepted(all)
    decreases |ps|
  {
    if ps != [] {
      var last := ps[|ps| - 1];
      var qs := ps[..|ps| - 1];
      IndentedBlock(lines, qs, section);
      var before := lines + Indents(qs);
      assert lines + Indents(ps) == before + [Indent(last)];
      IndentedStep(before, last, section);
      assert ps == qs + [last];
      assert Listed(lines, |lines|, section) + qs + [last] == Listed(lines, |lines|, section) + ps;
    } else {
      assert lines + Indents(ps) == lines;
    }
  }

  /** One indented printable path under a header for `section`. */
  lemma {:induction false} IndentedStep(lines: seq<string>, p: Drvpath, section: Section)
    requires SectionBefore(lines, |lines|) == Some(section)
    requires AllAccepted(lines)
    requires PrintablePath(p)
    ensures var all := lines + [Indent(p)];
      && SectionBefore(all, |all|) == Some(section)
      && Listed(all, |all|, section) == Listed(lines, |lines|, section) + [p]
      && Listed(all, |all|, Other(section)) == Listed(lines, |lines|, Other(section))
      && AllAccepted(all)
  {
    IndentedPath(p);
    Snoc(lines, Indent(p));
  }

  /** A line that neither starts nor ends with blank space is left alone
      by `strip`. */
  lemma {:induction false} StripKeeps(s: string)
    requires s != [] && s[0] !in Whitespace && s[|s| - 1] !in Whitespace
    ensures StripSpace(s) == s
  {
  }

  /** The header of the paths to build does not mention the paths to
      fetch: no window of it matches, the first because it differs at
      character 6, the others because they do not start with 't'. */
  lemma {:induction false} BuildHeaderNotFetch(hb: string)
    requires hb == BUILD_HEADER + ":"
    ensures !Contains(hb, FETCH_HEADER)
  {
    ContainsIff(hb, FETCH_HEADER);
    HeaderPrefixes(hb);
    forall i | 0 <= i <= |hb| - |FETCH_HEADER| ensures !OccursAt(hb, FETCH_HEADER, i) {
      if i == 0 {
        MismatchAt(hb, FETCH_HEADER, 0, 6);
      } else {
        MismatchAt(hb, FETCH_HEADER, i, 0);
      }
    }
  }

  /** Where the two headers part: at character 6, and neither has a 't'
      at characters 1 to 5. */
  lemma HeaderPrefixes(hb: string)
    requires hb == BUILD_HEADER + ":"
    ensures |hb| - |FETCH_HEADER| == 5
    ensures hb[6] != FETCH_HEADER[6]
    ensures forall i | 1 <= i <= 5 :: hb[i] != FETCH_HEADER[0]
  {
    var w, f := hb[..7], FETCH_HEADER[..7];
    assert w == "these d" && f == "these p";
    assert hb[6] == w[6] && FETCH_HEADER[6] == f[6];
    forall i | 1 <= i <= 5 ensures hb[i] != FETCH_HEADER[0] {
      assert hb[i] == w[i] && FETCH_HEADER[0] == f[0];
    }
  }

  /** A window of `s` that differs from `t` in one place is no match. */
  lemma MismatchAt(s: string, t: string, i: nat, j: nat)
    requires j < |t| && i + j < |s| && s[i + j] != t[j]
    ensures !OccursAt(s, t, i)
  {
    if i + |t| <= |s| {
      assert s[i..i + |t|][j] == s[i + j];
    }
  }

  /** The two header lines read as headers of their own sections. */
  lemma {:induction false} HeaderLines(hb: string, hf: string)
    requires hb == BUILD_HEADER + ":" && hf == FETCH_HEADER + ":"
    ensures Kind(StripSpace(hb)) == Header(ToBuild)
    ensures Kind(StripSpace(hf)) == Header(ToFetch)
  {
    StripKeeps(hb);
    StripKeeps(hf);
    assert StartsWith(hf, FETCH_HEADER);
    assert StartsWith(hb, BUILD_HEADER);
    BuildHeaderNotFetch(hb);
  }

  /** The first half of the rendering: the build header and its paths. */
  lemma {:induction false} RenderToBuild(rep: Report)
    requires forall p | p in rep.toBuild :: PrintablePath(p)
    ensures var l := [BUILD_HEADER + ":"] + Indents(rep.toBuild);
      && SectionBefore(l, |l|) == Some(ToBuild)
      && Listed(l, |l|, ToBuild) == rep.toBuild
      && Listed(l, |l|, ToFetch) == []
      && AllAccepted(l)
  {
    var hb, hf := BUILD_HEADER + ":", FETCH_HEADER + ":";
    HeaderLines(hb, hf);
    Snoc([], hb);
    assert [] + [hb] == [hb];
    IndentedBlock([hb], rep.toBuild, ToBuild);
  }

  /** Parsing what the dry run prints gives back the report, and no line of
      it is rejected. */
  lemma {:induction false} ParseRender(rep: Report)
    requires forall p | p in rep.toBuild :: PrintablePath(p)
    requires forall p | p in rep.toFetch :: PrintablePath(p)
    ensures forall i | 0 <= i < |Render(rep)| :: Accepted(Render(rep), i)
    ensures Parse(Render(rep)) == rep
  {
    var hb, hf := BUILD_HEADER + ":", FETCH_HEADER + ":";
    HeaderLines(hb, hf);
    RenderToBuild(rep);
    var l2 := [hb] + Indents(rep.toBuild);
    Snoc(l2, hf);
    IndentedBlock(l2 + [hf], rep.toFetch, ToFetch);
    assert Render(rep) == l2 + [hf] + Indents(rep.toFetch);
  }
}
