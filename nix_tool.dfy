/** The vocabulary shared by the build driver: derivation and store paths,
    the failure reasons it records, the errors that abort a run, and the
    external `nix` tools, which this model sees only through their outputs. */
module NixTool {
  import opened Results

  type Drvpath = string
  type Storepath = string
  type Attribute = string

  /** Failure reasons, spelled as the build driver writes them. */
  const DEP_FAILED: string := "DEP FAILED"
  const BUILDER_FAILED: string := "BUILDER FAILED"
  const BUILD_TIMEOUT: string := "BUILD TIMEOUT"
  const MYDRA_TIMEOUT: string := "MYDRA TIMEOUT"
  /** Tested for by the command-line report, never produced by the driver. */
  const CANNOT_BUILD: string := "CANNOT BUILD"

  /** What aborts a run, one constructor per Python exception. */
  datatype Failure =
    | DryRunParse(line: string)         // RuntimeError("dry-run parsing failed: ...")
    | NoSection(line: string)           // UnboundLocalError: a path before any header
    | ToolFailed(tool: string)          // CalledProcessError from `run(..., check=True)`
    | NotSucceeded(drv: Drvpath)        // ValueError from `drvs_succeeded.remove(drv)`
    | NoDash(path: string)              // IndexError from `path.split("-", 1)[1]`
    | CountMismatch(paths: nat, drvs: nat) // the `assert len(storepaths) == len(drvs_succeeded)`

  /** What a build returns: the store path of every derivation that was
      built, and the reason for every one that was not. */
  datatype Outcome = Outcome(succeeded: map<Drvpath, Storepath>, failed: map<Drvpath, string>)

  /** One line of `nix build` output recognised by one of the four patterns.
      The patterns start with different words, so a matched line is
      recognised by exactly one of them. */
  datatype Event =
    | CannotBuild(drv: Drvpath, why: string)     // cannot build derivation 'D': WHY
    | BuildFailed(quoted: string)                // build of 'D1', 'D2' failed  (quoted = "'D1', 'D2'")
    | BuildTimedOut(drv: Drvpath)                // building of 'D' timed out after ...
    | BuilderFailed(drv: Drvpath, exitCode: nat) // builder for 'D' failed with exit code N;

  /** What the read loop over `nix build` saw: the recognised lines in order,
      and whether the loop stopped because the deadline passed (true) or
      because the process reached end of output (false). */
  datatype Stream = Stream(events: seq<Event>, timedOut: bool)

  /** The external tools, as functions of their arguments. `None` stands for
      a non-zero exit status. */
  datatype Nix = Nix(
    eval: seq<Attribute> -> Option<seq<(Attribute, Option<Drvpath>)>>, // `nix.eval` of each attribute's drvPath, None inside where `tryEval` catches the error
    instantiate: set<Attribute> -> bool,          // `nix-instantiate` of those attributes succeeds
    dryRun: seq<Drvpath> -> Option<seq<string>>,  // stderr lines of `nix-store --realize --dry-run`
    build: seq<Drvpath> -> Stream,                // `nix build --no-link --keep-going`, under the deadline
    realize: seq<Drvpath> -> Option<seq<string>>, // stdout lines of `nix-store --realize`
    log: Drvpath -> Option<string>)               // `nix log`
}
