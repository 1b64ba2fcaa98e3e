/** `run`: the action's entry point, with every outside effect supplied by
    the caller. It resolves the repository and the package list, derives the
    cache key, detects the platform, then restores the cache: an exact hit
    ends the run; otherwise TeX Live is installed (nothing restored) or
    refreshed (an older entry restored), and the result is saved under the
    full key. A failed refresh may fall back to the restored installation
    when stale caches are accepted; a failed first install never does. */
module Action {
  import opened Wrappers
  import opened InputResolution
  import opened Tokenizer
  import opened Packages
  import opened CacheKey
  import opened Platform
  import opened Mirrors
  import opened Installer

  /** The value of the `key` output, or the message the run fails with. */
  datatype RunOutcome = Output(key: string) | Failed(message: string)

  /** What a run did: whether `installTexLive` was called and with which
      `initialInstall`, under which key the cache was saved, and how it ended. */
  datatype Run = Run(install: Option<bool>, savedUnder: Option<string>, outcome: RunOutcome)

  /** The decision after the restore. `restored` is what `restoreCache`
      returned, `install(initialInstall)` how `installTexLive` ends, and
      `saved` what `saveCache` returns. */
  function Orchestrate(key: CacheKey, restored: Option<string>, acceptStale: bool,
                       install: bool -> Outcome<string>, saved: string): (r: Run)
    ensures restored == Some(key.full) ==> r == Run(None, None, Output(key.full))
    ensures restored != Some(key.full) ==> r.install == Some(restored.None?)
    ensures r.savedUnder.Some? <==> restored != Some(key.full) && install(restored.None?).Pass?
    ensures r.savedUnder.Some? ==> r.savedUnder.value == key.full && r.outcome == Output(saved)
    ensures r.outcome.Failed? <==>
              restored != Some(key.full) && install(restored.None?).Fail? && (!acceptStale || restored.None?)
    ensures r.outcome.Failed? ==> r.outcome.message == install(restored.None?).error
    ensures restored.Some? && restored != Some(key.full) && acceptStale && install(false).Fail? ==>
              r == Run(Some(false), None, Output(restored.value))
  {
    if restored == Some(key.full) then Run(None, None, Output(key.full))
    else
      var initialInstall := restored.None?;
      match install(initialInstall)
      case Pass => Run(Some(initialInstall), Some(key.full), Output(saved))
      case Fail(e) =>
        if !acceptStale || restored.None? then Run(Some(initialInstall), None, Failed(e))
        else Run(Some(initialInstall), None, Output(restored.value))
  }

  /** A failed first-time install fails the run, whether or not stale
      caches are accepted. */
  lemma FirstInstallFailureIsFatal(key: CacheKey, acceptStale: bool, install: bool -> Outcome<string>, saved: string)
    requires install(true).Fail?
    ensures Orchestrate(key, None, acceptStale, install, saved) == Run(Some(true), None, Failed(install(true).error))
  {
  }

  /** The key a run outputs is the full key of an exact hit, the saved
      cache's key after an install, or the key of the stale cache it fell
      back to. */
  lemma OutputIsAKnownKey(key: CacheKey, restored: Option<string>, acceptStale: bool,
                          install: bool -> Outcome<string>, saved: string)
    ensures var r := Orchestrate(key, restored, acceptStale, install, saved);
            r.outcome.Output? ==>
              (r.outcome.key == key.full && r.install.None?)
              || (r.outcome.key == saved && r.savedUnder == Some(key.full))
              || (restored.Some? && r.outcome.key == restored.value && r.install == Some(false) && r.savedUnder.None?)
  {
  }

  /** The action's inputs as `core.getInput` returns them, trimmed, except
      `cacheVersion`: the required input's check looks at the value before
      it is trimmed, so it is given as set. */
  datatype Inputs = Inputs(repository: string, packageFile: string, packages: string,
                           cacheVersion: string, acceptStale: string)

  /** What the host reports: `os.platform()`, `os.machine()`, `os.tmpdir()`
      and today's UTC date as `YYYY-MM-DD`. */
  datatype Host = Host(platform: string, machine: string, tmpdir: string, date: string)

  /** The answers of everything outside the action: the mirror-list fetch
      and the two random numbers, the package file reader, SHA-256, the
      cache store (`restore(full, prefix)` and the value `saveCache`
      returns), the status of each installer step in turn, and the path
      `exec` resolves each command to. */
  datatype World = World(mirrorFetch: Fetch, logDraw: Fraction, pickDraw: Fraction,
                         readFile: string -> Result<string, string>, sha256: seq<byte> -> Digest,
                         restore: (string, string) -> Option<string>, saved: string,
                         status: nat -> int, which: string -> string)

  /** Everything `run` settles before it looks at the cache. */
  datatype Prepared = Prepared(repository: Option<string>, acceptStale: bool, packages: seq<string>,
                               key: CacheKey, platform: TlPlatform)

  /** The repository: the `repository` input, or else a mirror from the list. */
  function Repository(inputs: Inputs, world: World): (r: Option<string>)
    ensures inputs.repository != "" ==> r == Some(inputs.repository)
    ensures inputs.repository == "" ==>
              r == FindRepository(world.mirrorFetch, world.logDraw, world.pickDraw).Repository()
  {
    match OptionalInput(inputs.repository)
    case Some(repo) => Some(repo)
    case None => FindRepository(world.mirrorFetch, world.logDraw, world.pickDraw).Repository()
  }

  /** The part of `run` before the restore, in the source's order: the
      cache version is checked first, then `accept-stale` is parsed, then
      the package text is read; the platform is detected after the key is
      derived. */
  function Prepare(inputs: Inputs, host: Host, world: World): (r: Result<Prepared, string>)
    ensures inputs.cacheVersion == "" ==> r == Failure("Input required and not supplied: cache_version")
    ensures inputs.cacheVersion != "" && BooleanInput("accept-stale", inputs.acceptStale).Failure? ==>
              r == Failure(BooleanInputError("accept-stale"))
    ensures inputs.cacheVersion != "" && BooleanInput("accept-stale", inputs.acceptStale).Success?
            && inputs.packages == "" && inputs.packageFile == "" ==>
              r == Failure(MissingPackagesError)
    ensures inputs.cacheVersion != "" && BooleanInput("accept-stale", inputs.acceptStale).Success?
            && PackageText(inputs.packages, inputs.packageFile, world.readFile).Failure? ==>
              r == Failure(PackageText(inputs.packages, inputs.packageFile, world.readFile).error)
    ensures inputs.cacheVersion != "" && BooleanInput("accept-stale", inputs.acceptStale).Success?
            && PackageText(inputs.packages, inputs.packageFile, world.readFile).Success?
            && DetectTlPlatform(host.platform, host.machine).Failure? ==>
              r == Failure(DetectTlPlatform(host.platform, host.machine).error)
    ensures r.Success? <==> inputs.cacheVersion != ""
                            && BooleanInput("accept-stale", inputs.acceptStale).Success?
                            && PackageText(inputs.packages, inputs.packageFile, world.readFile).Success?
                            && DetectTlPlatform(host.platform, host.machine).Success?
    ensures r.Success? ==> DetectTlPlatform(host.platform, host.machine) == Success(r.value.platform)
    ensures r.Success? ==> Success(r.value.acceptStale) == BooleanInput("accept-stale", inputs.acceptStale)
    ensures r.Success? ==>
              var text := PackageText(inputs.packages, inputs.packageFile, world.readFile);
              text.Success? && r.value.packages == ParsePackages(text.value)
    ensures r.Success? ==>
              r.value.key == CalculateCacheKey(Trim(inputs.cacheVersion), r.value.packages, host.platform, host.machine,
                                               host.date, world.sha256)
    ensures r.Success? ==> r.value.key.full == r.value.key.prefix + host.date
    ensures r.Success? ==> r.value.repository == Repository(inputs, world)
  {
    var repository := Repository(inputs, world);
    assert "Input required and not supplied: " + "cache_version" == "Input required and not supplied: cache_version";
    var cacheVersion :- MandatoryInput("cache_version", inputs.cacheVersion);
    var acceptStale :- BooleanInput("accept-stale", inputs.acceptStale);
    var text :- PackageText(inputs.packages, inputs.packageFile, world.readFile);
    var packages := ParsePackages(text);
    var key := CalculateCacheKey(cacheVersion, packages, host.platform, host.machine, host.date, world.sha256);
    var platform :- DetectTlPlatform(host.platform, host.machine);
    Success(Prepared(repository, acceptStale, packages, key, platform))
  }

  /** The install or refresh of a prepared run, ending with the first
      failing step's error. */
  function Install(p: Prepared, tmpdir: string, status: nat -> int, which: string -> string,
                   initialInstall: bool): Outcome<string> {
    Execute(InstallPlan(initialInstall, p.repository, p.platform, p.packages, tmpdir), status, which)
  }

  /** `run()`. */
  function RunAction(inputs: Inputs, host: Host, world: World): (r: Run)
    ensures Prepare(inputs, host, world).Failure? ==>
              r == Run(None, None, Failed(Prepare(inputs, host, world).error))
    ensures Prepare(inputs, host, world).Success? ==>
              var key := Prepare(inputs, host, world).value.key;
              world.restore(key.full, key.prefix) == Some(key.full) <==> r.outcome.Output? && r.install.None?
    ensures r.savedUnder.Some? ==> r.savedUnder.value == Prepare(inputs, host, world).value.key.full
  {
    match Prepare(inputs, host, world)
    case Failure(e) => Run(None, None, Failed(e))
    case Success(p) =>
      var restored := world.restore(p.key.full, p.key.prefix);
      Orchestrate(p.key, restored, p.acceptStale, initial => Install(p, host.tmpdir, world.status, world.which, initial), world.saved)
  }

  /** Package texts that list the same packages, each as often, make runs
      that do exactly the same. */
  lemma RunOrderIndependent(inputs: Inputs, host: Host, world: World, other: string)
    requires inputs.packages != "" && other != ""
    requires multiset(Tokens(StripComments(inputs.packages))) == multiset(Tokens(StripComments(other)))
    ensures RunAction(inputs, host, world) == RunAction(inputs.(packages := other), host, world)
  {
    ParseOrderIndependent(inputs.packages, other);
    PrepareSamePackages(inputs, host, world, other);
  }

  /** Only the parsed package list of the inline text reaches the rest of the run. */
  lemma PrepareSamePackages(inputs: Inputs, host: Host, world: World, other: string)
    requires inputs.packages != "" && other != ""
    requires ParsePackages(inputs.packages) == ParsePackages(other)
    ensures Prepare(inputs, host, world) == Prepare(inputs.(packages := other), host, world)
  {
    InlineWins(inputs.packages, inputs.packageFile, inputs.packageFile, world.readFile, world.readFile);
    InlineWins(other, inputs.packageFile, inputs.packageFile, world.readFile, world.readFile);
  }

  /** With the `repository` input set the mirror list plays no part. */
  lemma RepositoryInputSkipsMirrorList(inputs: Inputs, host: Host, world: World, fetch: Fetch)
    requires inputs.repository != ""
    ensures RunAction(inputs, host, world) == RunAction(inputs, host, world.(mirrorFetch := fetch))
  {
    var moved := world.(mirrorFetch := fetch);
    assert Repository(inputs, world) == Repository(inputs, moved);
    assert Prepare(inputs, host, world) == Prepare(inputs, host, moved);
  }
}
