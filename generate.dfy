/** The static site generator's per-build page: the status cell with its
    link to the archived log, the package name column, the list of failed
    attributes and the short commit. */
module Generate {
  import opened Results
  import opened Text
  import opened NixTool
  import Monitor

  /** Where the archived build logs are served, one file per derivation
      basename. */
  const LOG_URL: string := "http://mydra-logs.rmcgibbo.org/"

  /** The commit page of nixpkgs on GitHub, without the hash. */
  const COMMIT_URL: string := "https://github.com/NixOS/nixpkgs/commit/"

  /** One entry of `build_results` in a stored build report. */
  datatype Record = Record(attr: Attribute, drvpath: Drvpath, status: string)

  /** A Markdown link `[text](target)`. */
  function MarkdownLink(text: string, target: string): string
  {
    "[" + text + "](" + target + ")"
  }

  /** Reads a Markdown link back: the text up to the first ']', which must
      be followed by '(' and the target, closed by a final ')'. */
  function ParseLink(cell: string): Option<(string, string)>
  {
    if |cell| < 2 || cell[0] != '[' || cell[|cell| - 1] != ')' then None
    else
      var k := IndexOf(cell, ']');
      if k < 1 || k + 2 > |cell| - 1 || cell[k + 1] != '(' then None
      else Some((cell[1..k], cell[k + 2..|cell| - 1]))
  }

  /** A link whose text has no ']' reads back as its text and target. */
  lemma LinkRoundTrip(text: string, target: string)
    requires ']' !in text
    ensures ParseLink(MarkdownLink(text, target)) == Some((text, target))
  {
    var cell := MarkdownLink(text, target);
    IndexOfSpec(cell, ']');
    var k := IndexOf(cell, ']');
    assert cell[|text| + 1] == ']';
    assert forall i | 1 <= i <= |text| :: cell[i] == text[i - 1];
    assert k == |text| + 1;
    assert cell[1..k] == text;
    assert cell[k + 2..|cell| - 1] == target;
  }

  /** `fmt_status_link`: DEP FAILED stays plain text, since a dependency
      failure has no log of its own; any other status links to the log
      archived under the derivation's basename. */
  function FmtStatusLink(status: string, drvpath: Drvpath): (r: string)
    ensures r == DEP_FAILED <==> status == DEP_FAILED
  {
    if status == DEP_FAILED then DEP_FAILED
    else MarkdownLink(status, LOG_URL + Basename(drvpath))
  }

  /** The status cell reads back as the status and the log's URL, unless
      it is the plain DEP FAILED. */
  lemma StatusLinkRoundTrip(status: string, drvpath: Drvpath)
    ensures status == DEP_FAILED ==> ParseLink(FmtStatusLink(status, drvpath)) == None
    ensures status != DEP_FAILED && ']' !in status ==>
      ParseLink(FmtStatusLink(status, drvpath)) == Some((status, LOG_URL + Basename(drvpath)))
  {
    if status != DEP_FAILED && ']' !in status {
      LinkRoundTrip(status, LOG_URL + Basename(drvpath));
    } else if status == DEP_FAILED {
      assert DEP_FAILED[0] == 'D';
    }
  }

  /** Python's `s[n:]`: all but the first `n` characters. */
  function DropFront(s: string, n: nat): (r: string)
  {
    if |s| <= n then [] else s[n..]
  }

  /** Python's `s[:-n]` for `n > 0`: all but the last `n` characters. */
  function DropBack(s: string, n: nat): (r: string)
    requires n > 0
  {
    if |s| <= n then [] else s[..|s| - n]
  }

  /** The `name` column: the derivation's basename without its 32
      character hash and dash in front and its ".drv" behind. */
  function NameColumn(drvpath: Drvpath): string
  {
    DropBack(DropFront(Basename(drvpath), 33), 4)
  }

  /** The basename of `dir/file` is `file` when `file` has no '/'. */
  lemma BasenameOf(dir: string, file: string)
    requires '/' !in file
    ensures Basename(dir + "/" + file) == file
  {
    var p := dir + "/" + file;
    var r := Basename(p);
    BasenameSpec(p);
    assert p[|dir|] == '/';
    assert p[|p| - |file|..] == file;
  }

  /** A derivation path `dir/<hash>-<name>.drv` with a 32 character hash:
      the name column shows exactly `name`. */
  lemma NameColumnOfStorePath(dir: string, hash: string, name: string)
    requires |hash| == 32 && '/' !in hash && '/' !in name
    ensures NameColumn(dir + "/" + hash + "-" + name + ".drv") == name
  {
    var file := hash + "-" + name + ".drv";
    assert dir + "/" + hash + "-" + name + ".drv" == dir + "/" + file;
    BasenameOf(dir, file);
    assert file[33..] == name + ".drv";
    assert (name + ".drv")[..|name|] == name;
  }

  /** The name column and the name that realization matches store paths
      by agree on every derivation path `dir/<hash>-<name>.drv` whose
      directory has no '-' and whose hash has no '-', '.' or '/'. */
  lemma NameColumnIsDrvName(dir: string, hash: string, name: string)
    requires |hash| == 32 && '/' !in hash && '.' !in hash && '-' !in hash
    requires '/' !in name && '-' !in dir
    ensures var p := dir + "/" + hash + "-" + name + ".drv";
      Monitor.DrvName(p) == Some(NameColumn(p))
  {
    NameColumnOfStorePath(dir, hash, name);
    ExtRootOfStorePath(dir, hash, name);
    DashOfStorePath(dir, hash, name);
  }

  /** Splitting the extension off `dir/<hash>-<name>.drv` drops ".drv". */
  lemma ExtRootOfStorePath(dir: string, hash: string, name: string)
    requires |hash| == 32 && '/' !in hash && '.' !in hash && '/' !in name
    ensures SplitExtRoot(dir + "/" + hash + "-" + name + ".drv") == dir + "/" + hash + "-" + name
  {
    var stem := dir + "/" + hash + "-" + name;
    var p := stem + ".drv";
    assert p == dir + "/" + hash + "-" + name + ".drv";
    var sep, dot := |dir|, |stem|;
    LastIndexOfSpec(p, '/');
    LastIndexOfSpec(p, '.');
    assert p[sep] == '/' && p[dot] == '.';
    assert p[dot + 1..] == "drv";
    assert forall k | dot < k < |p| :: p[k] != '.' by {
      forall k | dot < k < |p| ensures p[k] != '.' {
        assert p[k] == p[dot + 1..][k - dot - 1];
      }
    }
    assert forall k | sep < k < |p| :: p[k] != '/' by {
      var file := hash + "-" + name + ".drv";
      assert p[sep + 1..] == file;
      forall k | sep < k < |p| ensures p[k] != '/' {
        assert p[k] == file[k - sep - 1];
      }
    }
    assert LastIndexOf(p, '.') == dot;
    assert LastIndexOf(p, '/') == sep;
    assert p[sep + 1] == hash[0];
    assert p[..dot] == stem;
  }

  /** The first '-' of `dir/<hash>-<name>` is the one after the hash. */
  lemma DashOfStorePath(dir: string, hash: string, name: string)
    requires |hash| == 32 && '-' !in hash && '-' !in dir
    ensures AfterFirstDash(dir + "/" + hash + "-" + name) == Some(name)
  {
    var stem := dir + "/" + hash + "-" + name;
    var k := |dir| + 33;
    IndexOfSpec(stem, '-');
    assert stem[k] == '-';
    assert stem[..k] == dir + "/" + hash;
    assert forall i | 0 <= i < k :: stem[i] != '-' by {
      forall i | 0 <= i < k ensures stem[i] != '-' {
        assert stem[i] == stem[..k][i];
      }
    }
    assert IndexOf(stem, '-') == k;
    assert stem[k + 1..] == name;
  }

  /** Python's ordering of strings: by code point, a proper prefix first. */
  predicate Precedes(a: string, b: string)
  {
    if a == [] then true
    else if b == [] then false
    else if a[0] != b[0] then a[0] < b[0]
    else Precedes(a[1..], b[1..])
  }

  /** The ordering is total. */
  lemma {:induction false} PrecedesTotal(a: string, b: string)
    ensures Precedes(a, b) || Precedes(b, a)
  {
    if a != [] && b != [] && a[0] == b[0] {
      PrecedesTotal(a[1..], b[1..]);
    }
  }

  /** The ordering is transitive. */
  lemma {:induction false} PrecedesTransitive(a: string, b: string, c: string)
    requires Precedes(a, b) && Precedes(b, c)
    ensures Precedes(a, c)
  {
    if a != [] && b != [] && c != [] && a[0] == b[0] && b[0] == c[0] {
      PrecedesTransitive(a[1..], b[1..], c[1..]);
    }
  }

  predicate Sorted(s: seq<string>)
  {
    forall i, j | 0 <= i < j < |s| :: Precedes(s[i], s[j])
  }

  /** Places `x` before the first element it precedes. */
  function Insert(x: string, s: seq<string>): seq<string>
  {
    if s == [] || Precedes(x, s[0]) then [x] + s
    else [s[0]] + Insert(x, s[1..])
  }

  /** `sorted(xs)`, as an insertion sort. */
  function Sort(xs: seq<string>): seq<string>
  {
    if xs == [] then [] else Insert(xs[0], Sort(xs[1..]))
  }

  /** Inserting adds exactly `x`. */
  lemma {:induction false} InsertElements(x: string, s: seq<string>)
    ensures multiset(Insert(x, s)) == multiset(s) + multiset{x}
  {
    if s != [] && !Precedes(x, s[0]) {
      InsertElements(x, s[1..]);
      assert s == [s[0]] + s[1..];
    }
  }

  /** A sorted list stays sorted with an element in front that precedes
      all of it. */
  lemma SortedCons(y: string, t: seq<string>)
    requires Sorted(t)
    requires forall j | 0 <= j < |t| :: Precedes(y, t[j])
    ensures Sorted([y] + t)
  {
    var r := [y] + t;
    forall i, j | 0 <= i < j < |r| ensures Precedes(r[i], r[j]) {
      assert r[j] == t[j - 1];
      if i > 0 {
        assert r[i] == t[i - 1];
      }
    }
  }

  /** What precedes `x` and all of `s` precedes all of `Insert(x, s)`. */
  lemma PrecedesInsert(y: string, x: string, s: seq<string>)
    requires Precedes(y, x)
    requires forall k | 0 <= k < |s| :: Precedes(y, s[k])
    ensures forall j | 0 <= j < |Insert(x, s)| :: Precedes(y, Insert(x, s)[j])
  {
    var t := Insert(x, s);
    InsertElements(x, s);
    forall j | 0 <= j < |t| ensures Precedes(y, t[j]) {
      assert t[j] in multiset(s) + multiset{x};
      if t[j] != x {
        var k :| 0 <= k < |s| && s[k] == t[j];
      }
    }
  }

  /** Inserting keeps a sorted list sorted. */
  lemma {:induction false} InsertSorted(x: string, s: seq<string>)
    requires Sorted(s)
    ensures Sorted(Insert(x, s))
  {
    if s == [] || Precedes(x, s[0]) {
      forall k | 0 <= k < |s| ensures Precedes(x, s[k]) {
        if k > 0 {
          PrecedesTransitive(x, s[0], s[k]);
        }
      }
      SortedCons(x, s);
    } else {
      PrecedesTotal(x, s[0]);
      var rest := s[1..];
      assert Sorted(rest) by {
        forall i, j | 0 <= i < j < |rest| ensures Precedes(rest[i], rest[j]) {
          assert rest[i] == s[i + 1] && rest[j] == s[j + 1];
        }
      }
      InsertSorted(x, rest);
      forall k | 0 <= k < |rest| ensures Precedes(s[0], rest[k]) {
        assert rest[k] == s[k + 1];
      }
      PrecedesInsert(s[0], x, rest);
      SortedCons(s[0], Insert(x, rest));
    }
  }

  /** `sorted` returns a list in ascending order. */
  lemma {:induction false} SortSorted(xs: seq<string>)
    ensures Sorted(Sort(xs))
  {
    if xs != [] {
      SortSorted(xs[1..]);
      InsertSorted(xs[0], Sort(xs[1..]));
    }
  }

  /** `sorted` keeps every element, as often as it occurs. */
  lemma {:induction false} SortElements(xs: seq<string>)
    ensures multiset(Sort(xs)) == multiset(xs)
  {
    if xs != [] {
      SortElements(xs[1..]);
      InsertElements(xs[0], Sort(xs[1..]));
      assert xs == [xs[0]] + xs[1..];
    }
  }

  /** `sorted` returns the same elements, in ascending order. */
  lemma SortSpec(xs: seq<string>)
    ensures Sorted(Sort(xs))
    ensures multiset(Sort(xs)) == multiset(xs)
  {
    SortSorted(xs);
    SortElements(xs);
  }

  /** A row whose attribute goes into the failure line of the page. */
  predicate CountsAsFailed(rec: Record)
  {
    (rec.status == BUILDER_FAILED || rec.status == DEP_FAILED) && rec.attr != ""
  }

  /** The attributes of the counted rows, in row order. */
  function FailedRows(records: seq<Record>): seq<Attribute>
  {
    if records == [] then []
    else (if CountsAsFailed(records[0]) then [records[0].attr] else []) + FailedRows(records[1..])
  }

  /** `failed_attrs`: the non-empty attributes of the rows whose status is
      BUILDER FAILED or DEP FAILED, sorted. */
  function FailedAttrs(records: seq<Record>): seq<Attribute>
  {
    Sort(FailedRows(records))
  }

  /** Exactly the attributes of counted rows get in. */
  lemma {:induction false} FailedRowsMembers(records: seq<Record>, a: Attribute)
    ensures a in FailedRows(records) <==>
      exists i | 0 <= i < |records| :: CountsAsFailed(records[i]) && records[i].attr == a
  {
    if records != [] {
      FailedRowsMembers(records[1..], a);
      if a in FailedRows(records[1..]) {
        var i :| 0 <= i < |records| - 1 && CountsAsFailed(records[1..][i]) && records[1..][i].attr == a;
        assert records[i + 1] == records[1..][i];
      }
      if exists i | 0 <= i < |records| :: CountsAsFailed(records[i]) && records[i].attr == a {
        var i :| 0 <= i < |records| && CountsAsFailed(records[i]) && records[i].attr == a;
        if i > 0 {
          assert records[1..][i - 1] == records[i];
        }
      }
    }
  }

  /** The failure line is sorted, and holds the attributes of the counted
      rows: each as often as in the rows, and no other. */
  lemma FailedAttrsSpec(records: seq<Record>, a: Attribute)
    ensures Sorted(FailedAttrs(records))
    ensures multiset(FailedAttrs(records)) == multiset(FailedRows(records))
    ensures a in FailedAttrs(records) <==>
      exists i | 0 <= i < |records| :: CountsAsFailed(records[i]) && records[i].attr == a
  {
    SortSpec(FailedRows(records));
    FailedRowsMembers(records, a);
    assert a in FailedAttrs(records) <==> a in multiset(FailedAttrs(records));
  }

  /** `commit[:8]`, shown in the title and as the link text. */
  function ShortCommit(commit: string): string
  {
    Head(commit, 8)
  }

  /** The page title. */
  function Title(commit: string): string
  {
    "nixpkgs " + ShortCommit(commit)
  }

  /** The commit line's link: the short hash pointing at the full
      commit on GitHub. */
  function CommitLink(commit: string): string
  {
    MarkdownLink(ShortCommit(commit), COMMIT_URL + commit)
  }

  /** The title and the link text show the first eight characters of the
      commit (all of it if shorter), and the link goes to the whole
      commit. */
  lemma CommitLinkSpec(commit: string)
    requires ']' !in commit
    ensures var short := ShortCommit(commit);
      && |short| == (if |commit| < 8 then |commit| else 8)
      && StartsWith(commit, short)
      && Title(commit) == "nixpkgs " + short
      && ParseLink(CommitLink(commit)) == Some((short, COMMIT_URL + commit))
  {
    var short := ShortCommit(commit);
    assert ']' !in short by {
      assert short == commit[..|short|];
    }
    LinkRoundTrip(short, COMMIT_URL + commit);
  }
}
