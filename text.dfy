/** The handful of Python string operations the core relies on: `strip`,
    `in`, `startswith`, `split`/`join`, `os.path.basename` and
    `os.path.splitext`.  Strings are sequences of Unicode scalar values. */
module Text {
  import opened Results

  /** The characters for which Python's `str.isspace()` holds; `str.strip()`
      with no argument removes exactly these. */
  const Whitespace: set<char> := {
    '\t', '\n', '\U{0B}', '\U{0C}', '\r', '\U{1C}', '\U{1D}', '\U{1E}', '\U{1F}', ' ',
    '\U{85}', '\U{A0}', '\U{1680}', '\U{2000}', '\U{2001}', '\U{2002}', '\U{2003}',
    '\U{2004}', '\U{2005}', '\U{2006}', '\U{2007}', '\U{2008}', '\U{2009}', '\U{200A}',
    '\U{2028}', '\U{2029}', '\U{202F}', '\U{205F}', '\U{3000}'
  }

  /** Drops the leading characters that belong to `cs`. */
  function TrimStart(s: string, cs: set<char>): string
    decreases |s|
  {
    if s != [] && s[0] in cs then TrimStart(s[1..], cs) else s
  }

  /** Drops the trailing characters that belong to `cs`. */
  function TrimEnd(s: string, cs: set<char>): string
    decreases |s|
  {
    if s != [] && s[|s| - 1] in cs then TrimEnd(s[..|s| - 1], cs) else s
  }

  /** TrimStart keeps a suffix and cuts off only characters of `cs`. */
  lemma {:induction false} TrimStartSuffix(s: string, cs: set<char>)
    ensures var r := TrimStart(s, cs);
      && |r| <= |s| && r == s[|s| - |r|..]
      && (forall i | 0 <= i < |s| - |r| :: s[i] in cs)
      && (r == [] || r[0] !in cs)
    decreases |s|
  {
    if s != [] && s[0] in cs {
      TrimStartSuffix(s[1..], cs);
    }
  }

  /** TrimEnd keeps a prefix and cuts off only characters of `cs`. */
  lemma {:induction false} TrimEndPrefix(s: string, cs: set<char>)
    ensures var r := TrimEnd(s, cs);
      && |r| <= |s| && r == s[..|r|]
      && (forall i | |r| <= i < |s| :: s[i] in cs)
      && (r == [] || r[|r| - 1] !in cs)
    decreases |s|
  {
    if s != [] && s[|s| - 1] in cs {
      TrimEndPrefix(s[..|s| - 1], cs);
    }
  }

  /** Python's `s.strip(cs)`. */
  function Strip(s: string, cs: set<char>): string
  {
    TrimEnd(TrimStart(s, cs), cs)
  }

  /** What `strip` keeps is the infix of `s` that neither starts nor ends
      with a character of `cs`, everything cut off being in `cs`. */
  lemma StripInfix(s: string, cs: set<char>)
    ensures exists i, j | 0 <= i <= j <= |s| ::
              && Strip(s, cs) == s[i..j]
              && (forall k | 0 <= k < i :: s[k] in cs)
              && (forall k | j <= k < |s| :: s[k] in cs)
    ensures var r := Strip(s, cs); r == [] || (r[0] !in cs && r[|r| - 1] !in cs)
  {
    var t := TrimStart(s, cs);
    var r := TrimEnd(t, cs);
    TrimStartSuffix(s, cs);
    TrimEndPrefix(t, cs);
    var i := |s| - |t|;
    assert r == s[i..i + |r|];
    assert forall k | i + |r| <= k < |s| :: s[k] == t[k - i];
  }

  /** `s.strip()` with no argument. */
  function StripSpace(s: string): string
  {
    Strip(s, Whitespace)
  }

  predicate StartsWith(s: string, prefix: string)
  {
    |prefix| <= |s| && s[..|prefix|] == prefix
  }

  /** `sub` occurs in `s` starting at index `i`. */
  predicate OccursAt(s: string, sub: string, i: int)
  {
    0 <= i && i + |sub| <= |s| && s[i..i + |sub|] == sub
  }

  /** Python's `sub in s` for strings: some window of `s` equals `sub`. */
  function Contains(s: string, sub: string): bool
    decreases |s|
  {
    StartsWith(s, sub) || (s != [] && Contains(s[1..], sub))
  }

  /** Contains holds exactly when some window of `s` equals `sub`. */
  lemma {:induction false} ContainsIff(s: string, sub: string)
    ensures Contains(s, sub) <==> exists i :: OccursAt(s, sub, i)
    decreases |s|
  {
    if StartsWith(s, sub) {
      assert OccursAt(s, sub, 0);
    } else if s != [] {
      ContainsIff(s[1..], sub);
      assert forall i :: OccursAt(s, sub, i) ==> i > 0 && OccursAt(s[1..], sub, i - 1);
      assert forall j :: OccursAt(s[1..], sub, j) ==> OccursAt(s, sub, j + 1);
    }
  }

  /** `sep.join(parts)`. */
  function Join(parts: seq<string>, sep: string): string
  {
    if parts == [] then []
    else if |parts| == 1 then parts[0]
    else parts[0] + sep + Join(parts[1..], sep)
  }

  /** Python's `s.split(sep)` for a non-empty separator: cut `s` at every
      occurrence of `sep`, scanning left to right without overlaps. */
  function Split(s: string, sep: string): (r: seq<string>)
    requires sep != []
    ensures |r| >= 1
    decreases |s|
  {
    if |s| < |sep| then [s]
    else if StartsWith(s, sep) then [[]] + Split(s[|sep|..], sep)
    else
      var rest := Split(s[1..], sep);
      [[s[0]] + rest[0]] + rest[1..]
  }

  /** Joining the pieces of a split with the same separator gives back the
      original string. */
  lemma {:induction false} SplitJoin(s: string, sep: string)
    requires sep != []
    ensures Join(Split(s, sep), sep) == s
    decreases |s|, 1
  {
    if |s| < |sep| {
    } else if StartsWith(s, sep) {
      SplitJoinAtSep(s, sep);
    } else {
      SplitJoinAtChar(s, sep);
    }
  }

  /** SplitJoin when `s` starts with the separator. */
  lemma {:induction false} SplitJoinAtSep(s: string, sep: string)
    requires sep != [] && |s| >= |sep| && StartsWith(s, sep)
    ensures Join(Split(s, sep), sep) == s
    decreases |s|, 0
  {
    var rest := Split(s[|sep|..], sep);
    SplitJoin(s[|sep|..], sep);
    var r := [[]] + rest;
    assert Split(s, sep) == r && r[1..] == rest;
    assert Join(r, sep) == [] + sep + Join(rest, sep);
    assert s == sep + s[|sep|..];
  }

  /** SplitJoin when `s` does not start with the separator. */
  lemma {:induction false} SplitJoinAtChar(s: string, sep: string)
    requires sep != [] && |s| >= |sep| && !StartsWith(s, sep)
    ensures Join(Split(s, sep), sep) == s
    decreases |s|, 0
  {
    var rest := Split(s[1..], sep);
    var r := [[s[0]] + rest[0]] + rest[1..];
    calc {
      Join(Split(s, sep), sep);
      Join(r, sep);
      { JoinConsHead(s[0], rest, sep); }
      [s[0]] + Join(rest, sep);
      { SplitJoin(s[1..], sep); }
      [s[0]] + s[1..];
      s;
    }
  }

  /** Putting a character in front of the first part puts it in front of
      the joined string. */
  lemma {:induction false} JoinConsHead(c: char, parts: seq<string>, sep: string)
    requires |parts| >= 1
    ensures Join([[c] + parts[0]] + parts[1..], sep) == [c] + Join(parts, sep)
  {
    var r := [[c] + parts[0]] + parts[1..];
    if |parts| > 1 {
      var tail := Join(parts[1..], sep);
      assert r[1..] == parts[1..];
      assert Join(r, sep) == ([c] + parts[0]) + sep + tail;
      assert ([c] + parts[0]) + sep + tail == [c] + (parts[0] + sep + tail);
    }
  }

  /** A prefix of `s` free of `sep` after its first character is free of
      `sep` altogether when `s` itself does not start with `sep`. */
  lemma PrefixFree(s: string, head: string, sep: string)
    requires sep != [] && head != []
    requires StartsWith(s, head) && !StartsWith(s, sep)
    requires !Contains(head[1..], sep)
    ensures !Contains(head, sep)
  {
    ContainsIff(head, sep);
    ContainsIff(head[1..], sep);
    forall i | 0 < i
      ensures OccursAt(head, sep, i) ==> OccursAt(head[1..], sep, i - 1)
    {
    }
  }

  /** No piece of a split contains the separator. Together with SplitJoin
      this makes the split the only cut of `s` into separator-free pieces
      when `sep` cannot overlap itself, as ", " cannot. */
  lemma {:induction false} SplitPiecesAreFree(s: string, sep: string)
    requires sep != []
    ensures forall k | 0 <= k < |Split(s, sep)| :: !Contains(Split(s, sep)[k], sep)
    decreases |s|, 1
  {
    if |s| < |sep| {
      assert Split(s, sep) == [s];
      ContainsIff(s, sep);
    } else if StartsWith(s, sep) {
      var rest := Split(s[|sep|..], sep);
      SplitPiecesAreFree(s[|sep|..], sep);
      var r := [[]] + rest;
      assert Split(s, sep) == r;
      assert !Contains([], sep);
      forall k | 1 <= k < |r| ensures !Contains(r[k], sep) {
        assert r[k] == rest[k - 1];
      }
    } else {
      PiecesFreeAtChar(s, sep);
    }
  }

  /** SplitPiecesAreFree when `s` does not start with the separator: the
      first piece grows by one character, which cannot complete a match. */
  lemma {:induction false} PiecesFreeAtChar(s: string, sep: string)
    requires sep != [] && |s| >= |sep| && !StartsWith(s, sep)
    ensures forall k | 0 <= k < |Split(s, sep)| :: !Contains(Split(s, sep)[k], sep)
    decreases |s|, 0
  {
    var rest := Split(s[1..], sep);
    SplitPiecesAreFree(s[1..], sep);
    FirstPieceLeads(s[1..], sep);
    var head := [s[0]] + rest[0];
    var r := [head] + rest[1..];
    assert Split(s, sep) == r;
    assert head[1..] == rest[0];
    assert StartsWith(s, head) by {
      assert s == [s[0]] + s[1..];
    }
    PrefixFree(s, head, sep);
    forall k | 1 <= k < |r| ensures !Contains(r[k], sep) {
      assert r[k] == rest[k];
    }
  }

  /** The first piece of a split is a prefix of the string. */
  lemma {:induction false} FirstPieceLeads(s: string, sep: string)
    requires sep != []
    ensures StartsWith(s, Split(s, sep)[0])
  {
    var r := Split(s, sep);
    SplitJoin(s, sep);
    if |r| > 1 {
      assert Join(r, sep) == r[0] + (sep + Join(r[1..], sep));
    }
  }

  /** No occurrence of `sep` starts inside `p`, not even one running on
      into a separator that follows it. */
  predicate NoSepAcross(p: string, sep: string)
  {
    forall i | 0 <= i < |p| :: !StartsWith((p + sep)[i..], sep)
  }

  /** NoSepAcross also rules out an occurrence starting inside `p` in
      `p + sep + t` and in `p` alone. */
  lemma NoSepAcrossExtends(p: string, t: string, sep: string)
    requires NoSepAcross(p, sep)
    ensures forall i | 0 <= i < |p| :: !StartsWith((p + sep + t)[i..], sep)
    ensures forall i | 0 <= i < |p| :: !StartsWith(p[i..], sep)
  {
    forall i | 0 <= i < |p| ensures !StartsWith((p + sep + t)[i..], sep) && !StartsWith(p[i..], sep) {
      var x := (p + sep)[i..];
      assert !StartsWith(x, sep);
      assert (p + sep + t)[i..][..|sep|] == x[..|sep|];
      assert |p[i..]| >= |sep| ==> p[i..][..|sep|] == x[..|sep|];
    }
  }

  /** A prefix `p` in which no separator starts joins the first piece of
      the split of what follows it. */
  lemma {:induction false} SplitLeading(p: string, t: string, sep: string)
    requires sep != []
    requires forall i | 0 <= i < |p| :: !StartsWith((p + t)[i..], sep)
    ensures Split(p + t, sep) == [p + Split(t, sep)[0]] + Split(t, sep)[1..]
    decreases |p|, 1
  {
    var rt := Split(t, sep);
    if p == [] {
      assert p + t == t && p + rt[0] == rt[0];
      assert [rt[0]] + rt[1..] == rt;
    } else if |p + t| < |sep| {
      assert rt == [t];
    } else {
      SplitLeadingStep(p, t, sep);
    }
  }

  /** SplitLeading for a non-empty `p` long enough to hold a separator:
      the split moves on by one character, which joins the first piece. */
  lemma {:induction false} SplitLeadingStep(p: string, t: string, sep: string)
    requires sep != [] && p != [] && |p + t| >= |sep|
    requires forall i | 0 <= i < |p| :: !StartsWith((p + t)[i..], sep)
    ensures Split(p + t, sep) == [p + Split(t, sep)[0]] + Split(t, sep)[1..]
    decreases |p|, 0
  {
    var s := p + t;
    var rt := Split(t, sep);
    var q := p[1..];
    assert !StartsWith(s, sep) by {
      assert s[0..] == s;
    }
    assert s[1..] == q + t;
    forall i | 0 <= i < |q| ensures !StartsWith((q + t)[i..], sep) {
      assert (q + t)[i..] == s[i + 1..];
    }
    var rest := Split(q + t, sep);
    assert rest[0] == q + rt[0] && rest[1..] == rt[1..] by {
      SplitLeading(q, t, sep);
    }
    calc {
      Split(s, sep);
      [[s[0]] + rest[0]] + rest[1..];
      { assert [s[0]] + (q + rt[0]) == p + rt[0]; }
      [p + rt[0]] + rt[1..];
    }
  }

  /** Splitting pieces joined with `sep` gives the pieces back, when no
      separator starts inside any of them. */
  lemma {:induction false} JoinSplitBack(parts: seq<string>, sep: string)
    requires sep != [] && parts != []
    requires forall k | 0 <= k < |parts| :: NoSepAcross(parts[k], sep)
    ensures Split(Join(parts, sep), sep) == parts
  {
    var p := parts[0];
    NoSepAcrossExtends(p, [], sep);
    if |parts| == 1 {
      assert p + [] == p;
      SplitLeading(p, [], sep);
      assert Split([], sep) == [[]];
    } else {
      var rest := parts[1..];
      JoinSplitBack(rest, sep);
      var j := Join(rest, sep);
      NoSepAcrossExtends(p, j, sep);
      assert p + sep + j == p + (sep + j);
      SplitLeading(p, sep + j, sep);
      assert StartsWith(sep + j, sep) && (sep + j)[|sep|..] == j;
      assert Split(sep + j, sep) == [[]] + rest;
      assert p + [] == p;
    }
  }

  /** Index of the last `c` in `s`, or -1 (Python's `rfind` for one
      character). */
  function LastIndexOf(s: string, c: char): (r: int)
    ensures -1 <= r < |s|
    decreases |s|
  {
    if s == [] then -1
    else if s[|s| - 1] == c then |s| - 1
    else LastIndexOf(s[..|s| - 1], c)
  }

  /** LastIndexOf finds the last occurrence, and -1 means there is none. */
  lemma {:induction false} LastIndexOfSpec(s: string, c: char)
    ensures var r := LastIndexOf(s, c);
      && (r >= 0 ==> s[r] == c)
      && (forall k | r < k < |s| :: s[k] != c)
    decreases |s|
  {
    if s != [] && s[|s| - 1] != c {
      LastIndexOfSpec(s[..|s| - 1], c);
    }
  }

  /** Index of the first `c` in `s`, or -1 (Python's `find` for one
      character). */
  function IndexOf(s: string, c: char): (r: int)
    ensures -1 <= r < |s|
    decreases |s|
  {
    if s == [] then -1
    else if s[0] == c then 0
    else
      var k := IndexOf(s[1..], c);
      if k < 0 then -1 else k + 1
  }

  /** IndexOf finds the first occurrence, and -1 means there is none. */
  lemma {:induction false} IndexOfSpec(s: string, c: char)
    ensures var r := IndexOf(s, c);
      && (r >= 0 ==> s[r] == c)
      && (forall k | 0 <= k < |s| && (r < 0 || k < r) :: s[k] != c)
    decreases |s|
  {
    if s != [] && s[0] != c {
      IndexOfSpec(s[1..], c);
      assert forall k | 1 <= k < |s| :: s[k] == s[1..][k - 1];
    }
  }

  /** `os.path.basename(p)`: what follows the last '/'. */
  function Basename(p: string): string
  {
    p[LastIndexOf(p, '/') + 1..]
  }

  /** Basename is the suffix of `p` after its last '/', or all of `p`. */
  lemma BasenameSpec(p: string)
    ensures var r := Basename(p);
      && '/' !in r
      && |r| <= |p| && r == p[|p| - |r|..]
      && (|r| < |p| ==> p[|p| - |r| - 1] == '/')
  {
    var k := LastIndexOf(p, '/');
    LastIndexOfSpec(p, '/');
    SuffixAfter(p, k, '/');
    var r := p[k + 1..];
    assert Basename(p) == r;
    assert |p| - |r| == k + 1;
  }

  /** No `c` after index `k` means no `c` in the suffix after `k`. */
  lemma SuffixAfter(p: string, k: int, c: char)
    requires -1 <= k < |p|
    requires forall j | k < j < |p| :: p[j] != c
    ensures c !in p[k + 1..]
  {
    var q := p[k + 1..];
    forall j | 0 <= j < |q| ensures q[j] != c {
      assert q[j] == p[k + 1 + j];
    }
  }

  /** `os.path.splitext(p)[0]` on POSIX: the path without its extension,
      where the extension starts at the last '.' of the last path component,
      provided that component has a character other than '.' before it. */
  function SplitExtRoot(p: string): string
  {
    var sep := LastIndexOf(p, '/');
    var dot := LastIndexOf(p, '.');
    if dot > sep && exists k | sep + 1 <= k < dot :: p[k] != '.' then p[..dot] else p
  }

  /** SplitExtRoot cuts off at most one extension: a '.' followed by no
      further '.' and no '/', with some character other than '.' before it
      in the last path component. */
  lemma SplitExtRootSpec(p: string)
    ensures var r := SplitExtRoot(p);
      && StartsWith(p, r)
      && (r != p ==> p[|r|] == '.' && '.' !in p[|r| + 1..] && '/' !in p[|r|..])
      && (r != p ==> exists k | 0 <= k < |r| :: p[k] != '.' && '/' !in p[k..])
  {
    if SplitExtRoot(p) == p {
      assert p[..|p|] == p;
    } else {
      SplitExtRootCut(p);
    }
  }

  /** SplitExtRootSpec where a cut is made: at the last '.', which lies
      after the last '/' and after some other character. */
  lemma SplitExtRootCut(p: string)
    requires SplitExtRoot(p) != p
    ensures var dot := LastIndexOf(p, '.');
      && 0 <= dot < |p| && SplitExtRoot(p) == p[..dot]
      && p[dot] == '.' && '.' !in p[dot + 1..] && '/' !in p[dot..]
      && exists k | 0 <= k < dot :: p[k] != '.' && '/' !in p[k..]
  {
    var sep, dot := LastIndexOf(p, '/'), LastIndexOf(p, '.');
    assert dot > sep && SplitExtRoot(p) == p[..dot];
    assert p[dot] == '.' && '.' !in p[dot + 1..] by {
      LastIndexOfSpec(p, '.');
      SuffixAfter(p, dot, '.');
    }
    assert '/' !in p[dot..] by {
      LastIndexOfSpec(p, '/');
      SuffixAfter(p, dot - 1, '/');
    }
    var k :| sep + 1 <= k < dot && p[k] != '.';
    assert '/' !in p[k..] by {
      LastIndexOfSpec(p, '/');
      SuffixAfter(p, k - 1, '/');
    }
  }

  /** The converse of SuffixAfter: no `c` in the suffix from `k` means no
      `c` at any index from `k` on. */
  lemma SuffixFree(p: string, k: int, c: char)
    requires 0 <= k <= |p| && c !in p[k..]
    ensures forall j | k <= j < |p| :: p[j] != c
  {
    forall j | k <= j < |p| ensures p[j] != c {
      assert p[j] == p[k..][j - k];
    }
  }

  /** SplitExtRoot keeps the whole path exactly when no cut is possible:
      every character in front of a '.' of the last path component is
      itself a '.'. */
  lemma SplitExtRootKeeps(p: string)
    ensures SplitExtRoot(p) == p ==>
      forall i, k | 0 <= k < i < |p| && p[i] == '.' && '/' !in p[k..] :: p[k] == '.'
  {
    LastIndexOfSpec(p, '/');
    LastIndexOfSpec(p, '.');
    var sep, dot := LastIndexOf(p, '/'), LastIndexOf(p, '.');
    if SplitExtRoot(p) == p {
      forall i, k | 0 <= k < i < |p| && p[i] == '.' && '/' !in p[k..] ensures p[k] == '.' {
        SuffixFree(p, k, '/');
        assert i <= dot && sep < k;
      }
    }
  }

  /** `s.split("-", 1)[1]`: what follows the first '-', or None where Python
      raises IndexError because `s` has no '-'. */
  function AfterFirstDash(s: string): Option<string>
  {
    var k := IndexOf(s, '-');
    if k < 0 then None else Some(s[k + 1..])
  }

  /** AfterFirstDash is absent exactly when there is no '-', and is
      otherwise what follows the first one. */
  lemma AfterFirstDashSpec(s: string)
    ensures AfterFirstDash(s).None? <==> '-' !in s
    ensures AfterFirstDash(s).Some? ==> exists k | 0 <= k < |s| ::
      s[k] == '-' && '-' !in s[..k] && AfterFirstDash(s).value == s[k + 1..]
  {
    IndexOfSpec(s, '-');
    var k := IndexOf(s, '-');
    if k >= 0 {
      assert s[k] == '-' && '-' !in s[..k];
    }
  }

  /** Python's `s[:n]` for `n >= 0`: the first `n` characters, or all of `s`
      when it is shorter. */
  function Head(s: string, n: nat): (r: string)
    ensures |r| == if |s| < n then |s| else n
    ensures StartsWith(s, r)
  {
    if |s| <= n then s else s[..n]
  }
}
