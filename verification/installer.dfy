/** `installTexLive` as a plan of steps, and an executor that runs a plan
    against the statuses the steps report and fails as the source does.

    A first-time install downloads the installer archive, runs it with the
    generated profile, turns off tlmgr's automatic backups, points tlmgr at
    the repository, installs the requested packages and finally updates
    everything. Refreshing a restored installation only re-points the
    repository and updates. Unpacking the archive and writing the profile
    happen between the download and the installer run and are not steps. */
module Installer {
  import opened Wrappers
  import opened Text
  import opened Platform

  /** A step either fetches a URL (it succeeds with HTTP status 200) or runs
      a command (it succeeds with exit status 0). `verbatim` is the
      `windowsVerbatimArguments` exec option. */
  datatype Operation =
    | Download(url: string)
    | Exec(command: string, args: seq<string>, verbatim: bool)

  datatype Step = Step(description: string, action: Operation)

  const DefaultRepository := "https://mirrors.ctan.org/systems/texlive/tlnet"

  function Tlmgr(p: TlPlatform): (cmd: string)
    ensures cmd == "tlmgr.bat" <==> p == Windows
    ensures p != Windows ==> cmd == "tlmgr"
  {
    if p == Windows then "tlmgr.bat" else "tlmgr"
  }

  /** `core.toPosixPath`: back slashes become slashes. */
  function ToPosixPath(path: string): (r: string)
    ensures |r| == |path| && '\\' !in r
    ensures forall i | 0 <= i < |path| :: r[i] == if path[i] == '\\' then '/' else path[i]
  {
    seq(|path|, i requires 0 <= i < |path| => if path[i] == '\\' then '/' else path[i])
  }

  /** `core.toPlatformPath`: every slash and back slash becomes the host's
      separator, a back slash on Windows and a slash elsewhere. */
  function ToPlatformPath(path: string, windows: bool): (r: string)
    ensures |r| == |path|
    ensures windows ==> '/' !in r
    ensures !windows ==> '\\' !in r
    ensures forall i | 0 <= i < |path| ::
              r[i] == if path[i] == '/' || path[i] == '\\' then (if windows then '\\' else '/') else path[i]
  {
    var sep := if windows then '\\' else '/';
    seq(|path|, i requires 0 <= i < |path| => if path[i] == '/' || path[i] == '\\' then sep else path[i])
  }

  /** Where the installer archive is downloaded from: the chosen repository,
      or the CTAN redirector, holding a zip archive for Windows and a
      gzipped tarball elsewhere. */
  function InstallerUrl(repository: Option<string>, p: TlPlatform): (url: string)
    ensures var base := repository.GetOr(DefaultRepository) + "/";
            |base| + 7 <= |url| && url[..|base|] == base
    ensures p == Windows <==> url[|url| - 4..] == ".zip"
    ensures p != Windows ==> url[|url| - 7..] == ".tar.gz"
  {
    var base := repository.GetOr(DefaultRepository);
    var archive := if p == Windows then "/install-tl.zip" else "/install-tl-unx.tar.gz";
    var url := base + archive;
    assert url[..|base| + 1] == base + "/";
    assert url[|url| - 4..] == archive[|archive| - 4..];
    assert url[|url| - 7..] == archive[|archive| - 7..];
    url
  }

  /** The installer script of the unpacked archive in `tmpdir`:
      `install-tl-windows.bat` on Windows and `install-tl` elsewhere, with
      every separator turned into the host's. */
  function InstallerPath(tmpdir: string, p: TlPlatform): (path: string)
    ensures var name := if p == Windows then "install-tl-windows.bat" else "install-tl";
            |path| == |tmpdir| + 17 + |name| && path[|path| - |name|..] == name
    ensures p == Windows ==> '/' !in path
    ensures p != Windows ==> '\\' !in path
    ensures path == ToPlatformPath(tmpdir + "/install-texlive/"
                                   + (if p == Windows then "install-tl-windows.bat" else "install-tl"), p == Windows)
  {
    var name := if p == Windows then "install-tl-windows.bat" else "install-tl";
    var path := ToPlatformPath(tmpdir + "/install-texlive/" + name, p == Windows);
    PlatformPathKeepsName(tmpdir + "/install-texlive/", name, p == Windows);
    path
  }

  /** A name without separators at the end of a path survives the conversion
      to the host's separators. */
  lemma PlatformPathKeepsName(dir: string, name: string, windows: bool)
    requires '/' !in name && '\\' !in name
    ensures var r := ToPlatformPath(dir + name, windows);
            |r| == |dir| + |name| && r[|dir|..] == name
  {
    var r := ToPlatformPath(dir + name, windows);
    forall i | 0 <= i < |name| ensures r[|dir| + i] == name[i] {
      assert (dir + name)[|dir| + i] == name[i];
    }
  }

  /** The arguments of the installer run: the repository, when one was
      chosen, then the profile. */
  function InstallerArgs(repository: Option<string>, profilePath: string): (args: seq<string>)
    ensures 1 <= |args| <= 2
    ensures args[|args| - 1] == "--profile=" + profilePath
    ensures repository.None? <==> |args| == 1
    ensures repository.Some? ==> args[0] == "--repository=" + repository.value
  {
    match repository
    case None => ["--profile=" + profilePath]
    case Some(r) => ["--repository=" + r, "--profile=" + profilePath]
  }

  function SetRepository(repository: Option<string>, p: TlPlatform): Step {
    Step("Setting repository", Exec(Tlmgr(p), ["option", "repository", repository.GetOr("ctan")], false))
  }

  function Update(p: TlPlatform): Step {
    Step("Updating TeX Live", Exec(Tlmgr(p), ["update", "--self", "--all"], true))
  }

  /** The steps `installTexLive` runs, in order; `tmpdir` is `os.tmpdir()`. */
  function InstallPlan(initialInstall: bool, repository: Option<string>, p: TlPlatform,
                       packages: seq<string>, tmpdir: string): (plan: seq<Step>)
    ensures initialInstall ==> |plan| == 6
    ensures !initialInstall ==> plan == [SetRepository(repository, p), Update(p)]
    ensures initialInstall ==> plan[3..] == [SetRepository(repository, p), plan[4], Update(p)]
    ensures plan[|plan| - 1] == Update(p)
    ensures initialInstall ==> plan[0].action == Download(InstallerUrl(repository, p))
    ensures initialInstall ==>
              plan[1].action == Exec(InstallerPath(tmpdir, p),
                                     InstallerArgs(repository, ToPosixPath(tmpdir + "/texlive.profile")), true)
    ensures initialInstall ==> plan[2].action == Exec(Tlmgr(p), ["option", "--", "autobackup", "0"], false)
    ensures initialInstall ==> plan[4].action == Exec(Tlmgr(p), ["install"] + packages, false)
  {
    if initialInstall then
      var profilePath := ToPosixPath(tmpdir + "/texlive.profile");
      [ Step("Downloading installer", Download(InstallerUrl(repository, p))),
        Step("Installing TeX Live",
             Exec(InstallerPath(tmpdir, p),
                  InstallerArgs(repository, profilePath), true)),
        Step("Setting tlmgr options", Exec(Tlmgr(p), ["option", "--", "autobackup", "0"], false)),
        SetRepository(repository, p),
        Step("Installing packages", Exec(Tlmgr(p), ["install"] + packages, false)),
        Update(p) ]
    else
      [SetRepository(repository, p), Update(p)]
  }

  function Descriptions(plan: seq<Step>): (ds: seq<string>)
    ensures |ds| == |plan|
    ensures forall i | 0 <= i < |plan| :: ds[i] == plan[i].description
  {
    seq(|plan|, i requires 0 <= i < |plan| => plan[i].description)
  }

  /** Which steps each branch runs, by description. */
  lemma PlanDescriptions(repository: Option<string>, p: TlPlatform, packages: seq<string>, tmpdir: string)
    ensures Descriptions(InstallPlan(false, repository, p, packages, tmpdir))
         == ["Setting repository", "Updating TeX Live"]
    ensures Descriptions(InstallPlan(true, repository, p, packages, tmpdir))
         == ["Downloading installer", "Installing TeX Live", "Setting tlmgr options",
             "Setting repository", "Installing packages", "Updating TeX Live"]
  {
    var plan := InstallPlan(true, repository, p, packages, tmpdir);
    assert plan[0].description == "Downloading installer";
    assert plan[1].description == "Installing TeX Live";
    assert plan[2].description == "Setting tlmgr options";
    assert plan[3].description == "Setting repository";
    assert plan[4].description == "Installing packages";
    assert plan[5].description == "Updating TeX Live";
  }

  /** Every tlmgr step uses `tlmgr.bat` exactly on Windows, the repository
      step names the chosen repository or `ctan`, and the package step
      installs exactly the requested packages. */
  lemma PlanCommands(initialInstall: bool, repository: Option<string>, p: TlPlatform,
                     packages: seq<string>, tmpdir: string)
    ensures var plan := InstallPlan(initialInstall, repository, p, packages, tmpdir);
            forall i | 0 <= i < |plan| && plan[i].action.Exec? && plan[i].description != "Installing TeX Live" ::
              plan[i].action.command == (if p == Windows then "tlmgr.bat" else "tlmgr")
    ensures var plan := InstallPlan(initialInstall, repository, p, packages, tmpdir);
            exists i | 0 <= i < |plan| :: plan[i].action == Exec(Tlmgr(p), ["option", "repository", repository.GetOr("ctan")], false)
    ensures initialInstall ==>
              InstallPlan(initialInstall, repository, p, packages, tmpdir)[4].action.args == ["install"] + packages
  {
    var plan := InstallPlan(initialInstall, repository, p, packages, tmpdir);
    var tlmgr := if p == Windows then "tlmgr.bat" else "tlmgr";
    assert Tlmgr(p) == tlmgr;
    var i := if initialInstall then 3 else 0;
    assert plan[i] == SetRepository(repository, p);
    forall j | 0 <= j < |plan| && plan[j].action.Exec? && plan[j].description != "Installing TeX Live"
      ensures plan[j].action.command == tlmgr
    {
      if initialInstall {
        assert j != 0 && j != 1;
        assert plan[j].action.command == Tlmgr(p);
      }
    }
  }

  /** Whether a step with this action succeeded given its status. */
  predicate Succeeded(action: Operation, status: int) {
    if action.Download? then status == 200 else status == 0
  }

  /** The message of the error a failed step ends the install with. A
      download with a status other than 200 throws "<description> failed
      with status code <n>", the wording of `handleExecResult`. A command
      that exits with a non-zero status makes `exec` reject before
      `handleExecResult` sees the status, since no call sets
      `ignoreReturnCode`; its message names the executable `which` resolves
      the command to and the exit code. */
  function FailureMessage(step: Step, status: int, which: string -> string): string {
    match step.action
    case Download(_) => step.description + " failed with status code " + IntToString(status)
    case Exec(command, _, _) => "The process '" + which(command) + "' failed with exit code " + IntToString(status)
  }

  /** The part of a failure message in front of the status. */
  function FailureHead(step: Step, which: string -> string): string {
    match step.action
    case Download(_) => step.description + " failed with status code "
    case Exec(command, _, _) => "The process '" + which(command) + "' failed with exit code "
  }

  predicate AllSucceed(plan: seq<Step>, status: nat -> int, from: nat, to: nat)
    requires from <= to <= |plan|
  {
    forall i | from <= i < to :: Succeeded(plan[i].action, status(i))
  }

  /** Runs the steps from index `k` on; step `i` reports `status(i)`, and
      `which` gives the path a command resolves to. */
  function ExecuteFrom(plan: seq<Step>, status: nat -> int, which: string -> string, k: nat): (r: Outcome<string>)
    requires k <= |plan|
    ensures r.Pass? <==> AllSucceed(plan, status, k, |plan|)
    ensures r.Fail? ==> exists i | k <= i < |plan| ::
              AllSucceed(plan, status, k, i) && !Succeeded(plan[i].action, status(i))
              && r.error == FailureMessage(plan[i], status(i), which)
    decreases |plan| - k
  {
    if k == |plan| then Pass
    else if !Succeeded(plan[k].action, status(k)) then
      var msg := FailureMessage(plan[k], status(k), which);
      assert AllSucceed(plan, status, k, k);
      Fail(msg)
    else
      var r := ExecuteFrom(plan, status, which, k + 1);
      FailureExtends(plan, status, which, k, r);
      r
  }

  /** A failure found from step `k + 1` on, after step `k` succeeded, is a
      failure found from step `k` on. */
  lemma FailureExtends(plan: seq<Step>, status: nat -> int, which: string -> string, k: nat, r: Outcome<string>)
    requires k < |plan| && Succeeded(plan[k].action, status(k))
    requires r.Fail? ==> exists i | k + 1 <= i < |plan| ::
               AllSucceed(plan, status, k + 1, i) && !Succeeded(plan[i].action, status(i))
               && r.error == FailureMessage(plan[i], status(i), which)
    ensures r.Fail? ==> exists i | k <= i < |plan| ::
              AllSucceed(plan, status, k, i) && !Succeeded(plan[i].action, status(i))
              && r.error == FailureMessage(plan[i], status(i), which)
  {
    if r.Fail? {
      var i :| k + 1 <= i < |plan| && AllSucceed(plan, status, k + 1, i) && !Succeeded(plan[i].action, status(i))
               && r.error == FailureMessage(plan[i], status(i), which);
      AllSucceedCons(plan, status, k, i);
    }
  }

  lemma AllSucceedCons(plan: seq<Step>, status: nat -> int, k: nat, i: nat)
    requires k < i <= |plan| && Succeeded(plan[k].action, status(k))
    requires AllSucceed(plan, status, k + 1, i)
    ensures AllSucceed(plan, status, k, i)
  {
  }

  /** Runs a plan until its first failing step: it passes when every step
      succeeds, and otherwise fails with the message of the first step that
      did not. */
  function Execute(plan: seq<Step>, status: nat -> int, which: string -> string): (r: Outcome<string>)
    ensures r.Pass? <==> AllSucceed(plan, status, 0, |plan|)
    ensures r.Fail? ==> exists i | 0 <= i < |plan| ::
              AllSucceed(plan, status, 0, i) && !Succeeded(plan[i].action, status(i))
              && r.error == FailureMessage(plan[i], status(i), which)
  {
    ExecuteFrom(plan, status, which, 0)
  }

  /** How many steps are started: all of them, or up to and including the
      first that fails. */
  function StepsRun(plan: seq<Step>, status: nat -> int, k: nat): (n: nat)
    requires k <= |plan|
    ensures k <= n <= |plan|
    ensures k < |plan| ==> k < n
    ensures k < n ==> AllSucceed(plan, status, k, n - 1)
    ensures n < |plan| ==> !Succeeded(plan[n - 1].action, status(n - 1))
    decreases |plan| - k
  {
    if k == |plan| then k
    else if !Succeeded(plan[k].action, status(k)) then k + 1
    else StepsRun(plan, status, k + 1)
  }

  /** The final update runs only when every earlier step succeeded. */
  lemma UpdateRunsOnlyAfterSuccess(plan: seq<Step>, status: nat -> int)
    requires 0 < |plan|
    ensures StepsRun(plan, status, 0) == |plan| <==> AllSucceed(plan, status, 0, |plan| - 1)
  {
    StepsRunReaches(plan, status, 0);
  }

  lemma {:induction false} StepsRunReaches(plan: seq<Step>, status: nat -> int, k: nat)
    requires k < |plan|
    ensures StepsRun(plan, status, k) == |plan| <==> AllSucceed(plan, status, k, |plan| - 1)
    decreases |plan| - k
  {
    if k + 1 < |plan| && Succeeded(plan[k].action, status(k)) {
      StepsRunReaches(plan, status, k + 1);
    }
  }

  /** A failed install names the failing step (by its description for the
      download, by the resolved executable for a command), and the status
      can be read back from the message. */
  lemma FailureIdentifiesStep(plan: seq<Step>, status: nat -> int, which: string -> string)
    requires Execute(plan, status, which).Fail?
    ensures exists i | 0 <= i < |plan| ::
              var msg := Execute(plan, status, which).error;
              var head := FailureHead(plan[i], which);
              && !Succeeded(plan[i].action, status(i))
              && |head| <= |msg| && msg[..|head|] == head && ParseInt(msg[|head|..]) == status(i)
  {
    var i :| 0 <= i < |plan| && AllSucceed(plan, status, 0, i) && !Succeeded(plan[i].action, status(i))
             && Execute(plan, status, which).error == FailureMessage(plan[i], status(i), which);
    var head := FailureHead(plan[i], which);
    var msg := Execute(plan, status, which).error;
    assert msg == head + IntToString(status(i));
    assert msg[..|head|] == head;
    assert msg[|head|..] == IntToString(status(i));
    ParseIntToString(status(i));
  }
}
