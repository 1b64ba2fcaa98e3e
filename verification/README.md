# install-texlive, modelled in Dafny

A model of the decision and string logic of the `install-texlive` GitHub
action (`src/main.ts`). The action installs TeX Live on a CI runner and
caches the installation. It:

1. resolves its inputs: an explicit repository or a random mirror from a
   published list, and package names given inline or read from a file;
2. parses the package list;
3. derives a cache key from the cache version, the host and a SHA-256
   digest of the packages;
4. detects the TeX Live platform name;
5. restores the cache;
6. then either stops on an exact hit, installs from scratch, or refreshes a
   restored older installation;
7. saves the result under the full key, or falls back to a stale cache
   when that is allowed.

Everything the action does to the outside world is given to the model as
an input:

- the mirror-list fetch, as a thrown error or an HTTP status with a body;
- the two `Math.random()` draws, as fractions in `[0, 1)`;
- the package file reader, as a function from path to contents or error;
- SHA-256, as a function from bytes to a 32-byte digest;
- today's UTC date, as a string;
- `os.platform()`, `os.machine()` and `os.tmpdir()`;
- the cache store: the restore result for a full key and prefix, and the
  value `saveCache` returns;
- the status of each installer step in turn: the HTTP status of the
  download, the exit status of a command;
- the path `exec` resolves each command to.

The modules follow the source's functions:

| module | models |
|---|---|
| `Wrappers` | `Option`, `Result` and a pass/fail `Outcome` |
| `Text` | `toString(radix)`, `${n}`, `padStart`, `join` (with `split` as its inverse) |
| `StringOrder` | the order of `Array.prototype.sort()`, and sorting |
| `Tokenizer` | the `/\S+/g` match list |
| `Packages` | `parsePackages`, including the comment-removing regex |
| `Utf8` | `TextEncoder.encode`, with a decoder as its inverse |
| `CacheKey` | `calculateCacheKey`: hex encoding and key layout |
| `Platform` | `detectTlPlatform` |
| `InputResolution` | `getOptionalInput`, `getMandatoryInput` with the required check and trimming of `core.getInput`, `core.getBooleanInput`, `inlineOrFilecontent` and the package-text step of `run` |
| `Mirrors` | `findRepository` |
| `Installer` | `installTexLive` as a list of steps, and an executor that stops at the first failing step: the download at its own status check, a command at `exec`'s rejection of a non-zero exit |
| `Action` | `run` |

Behaviour of the code that the model keeps, because the code does it:

- **Comments ending in CR LF are kept.** The comment pattern `#.*?(\n|$)`
  uses `.`, which matches no line terminator. A `#` comment is therefore
  removed only when a line feed, or the end of the text, comes before any
  other line terminator (CR, U+2028, U+2029). A comment ended by CR LF
  stays, and its words are installed as packages; a comment on a last
  line with no line ending is still removed.
  `Packages.ParseKeepsCrLfComment` states this.
- **The logged mirror is a different draw.** `findRepository` logs one
  random mirror and returns another, independent draw.
  `Mirrors.LoggedMayDifferFromChosen` exhibits the difference.
- **The hash input is the comma join.** Packages are joined with `,`, so
  a name containing a comma hashes like the two names around it.
  `CacheKey.CommaCollision` shows this. Names taken from the parser
  never contain white space, but they can contain commas.

## Model

| member | source | states |
|---|---|---|
| Text.NumberToString | src/main.ts:53 | `toString(radix)` writes a non-empty string of digits valid in the radix |
| Text.ParseNumberToString | src/main.ts:53 | reading the digits back gives the number, so `toString(16)` loses nothing |
| Text.IntToString | src/main.ts:121 | a status is written in decimal, starting with `-` exactly when it is negative |
| Text.ParseIntToString | src/main.ts:121 | the decimal text of a status determines the status |
| Text.PadStart | src/main.ts:53 | the result has length max(width, \|s\|), ends with `s`, and is fill characters before it |
| Text.SplitJoin | src/main.ts:49 | splitting the join of non-empty separator-free parts gives the parts back |
| Text.SplitAfter | src/main.ts:49 | a separator-free piece followed by the separator splits off as the first part |
| Text.JoinInjective | src/main.ts:49 | two lists of separator-free parts with the same join are equal |
| StringOrder.LeTotal | src/main.ts:35 | any two strings are comparable under the order `sort()` uses |
| StringOrder.LeAntisymmetric | src/main.ts:35 | strings that each come no later than the other are equal |
| StringOrder.LeTransitive | src/main.ts:35 | the order is transitive |
| StringOrder.Insert | src/main.ts:35 | inserting into a sorted list keeps it sorted and adds exactly one copy of the element |
| StringOrder.Sort | src/main.ts:35 | the result is sorted and a permutation of the input, duplicates kept |
| StringOrder.SortedUnique | src/main.ts:35 | two sorted lists with the same elements and multiplicities are equal, so every correct sort returns the same list |
| StringOrder.SortByMultiset | src/main.ts:35 | the sort result depends only on the multiset of the input |
| StringOrder.SortSorted | src/main.ts:35 | a list already in order is returned unchanged |
| Tokenizer.RunLength | src/main.ts:33 | a match extends exactly to the first white-space character |
| Tokenizer.Tokens | src/main.ts:33 | every `\S+` match is non-empty and has no white space |
| Tokenizer.TokensCoverText | src/main.ts:33 | the matches laid end to end are the text with its white space removed: nothing else is lost |
| Tokenizer.TokensSplitAt | src/main.ts:33 | a white-space character separates: the matches are those of the text before it, then those after it |
| Tokenizer.TokensSplitAtPair | src/main.ts:33 | two white-space characters in a row separate like one |
| Tokenizer.TokensOfToken | src/main.ts:33 | a single white-space-free word is one match |
| Tokenizer.TokensOfSpace | src/main.ts:33 | white space alone has no match |
| Tokenizer.TokensOfJoin | src/main.ts:113 | matching the space-joined list of words gives the list back |
| Packages.TerminatorFromFinds | src/main.ts:33 | a comment extends to the first line terminator after its `#`, or to the end |
| Packages.StripComments | src/main.ts:33 | removing comments never lengthens the text |
| Packages.StripCommentLine | src/main.ts:33 | a comment ended by a line feed is replaced by that line feed; the text on either side is stripped on its own |
| Packages.StripBeforeCommentLine | src/main.ts:33 | text in front of a comment line closed by a line feed is stripped independently of it |
| Packages.StripCommentAtEnd | src/main.ts:33 | a comment running to the end of the text is dropped |
| Packages.StripBeforeOpenComment | src/main.ts:33 | text in front of a comment running to the end is stripped independently of it |
| Packages.StripUpToOtherTerminator | src/main.ts:33 | text up to a CR, U+2028 or U+2029 is kept verbatim, `#` included, because no comment crosses those |
| Packages.StripNoHash | src/main.ts:33 | text without `#` is unchanged |
| Packages.StripIdempotent | src/main.ts:33 | removing comments twice is the same as once |
| Packages.StripKeepsCrLfComment | src/main.ts:33 | a comment ended by CR LF is kept, with its `#` and its line ending |
| Packages.ParsePackages | src/main.ts:32-36 | the result is sorted, is a permutation (duplicates kept) of the words of the comment-stripped text, and every entry is a non-empty white-space-free word |
| Packages.ParseOrderIndependent | src/main.ts:32-36 | texts with the same words, each as often, parse to identical lists |
| Packages.ParseDropsComment | src/main.ts:33-35 | a comment closed by a line feed contributes no package, and its line feed still separates the words around it |
| Packages.ParseKeepsCrLfComment | src/main.ts:33-35 | with CR LF endings the comment's words are packages, one of them starting with `#` |
| Packages.ReorderedWithCommentParsesAlike | src/main.ts:32-36 | two packages listed in either order, one with a trailing comment, give the same list |
| Utf8.EncodeChar | src/main.ts:49 | a character takes one to four bytes, and one exactly when it is ASCII |
| Utf8.DecodeEncodeChar | src/main.ts:49 | a character's encoding decodes back to it, whatever bytes follow |
| Utf8.DecodeEncode | src/main.ts:49 | decoding the encoding of a string gives the string |
| Utf8.EncodeInjective | src/main.ts:49 | different strings give different bytes to hash |
| Utf8.EncodeAscii | src/main.ts:49 | ASCII text is hashed as its character codes, one byte each |
| CacheKey.ByteToHex | src/main.ts:53 | each byte becomes exactly two lower-case hex digits, high nibble first |
| CacheKey.HexEncode | src/main.ts:45-54 | the hex string has two lower-case hex digits per byte |
| CacheKey.HexRoundTrip | src/main.ts:45-54 | decoding the hex string gives the digest bytes back, so the encoding loses nothing |
| CacheKey.CalculateCacheKey | src/main.ts:38-62 | the full key is the prefix followed by the date; the prefix is `texlive-<platform>-<machine>-<version>-`, then 64 lower-case hex digits, then `-`; those digits decode to the SHA-256 of the hashed bytes |
| CacheKey.PrefixLayout | src/main.ts:56 | where the head, the 64 hex digits and the final `-` sit in a prefix |
| CacheKey.PrefixDeterminesDigest | src/main.ts:56-57 | on one host and cache version, equal prefixes mean equal package digests, whatever the dates |
| CacheKey.HashInputInjective | src/main.ts:49 | lists of non-empty comma-free names with the same hashed bytes are equal |
| CacheKey.CommaCollision | src/main.ts:49 | the package `a,b` and the packages `a` and `b` hash the same bytes |
| Platform.DetectTlPlatform | src/main.ts:69-90 | darwin gives universal-darwin, win32 gives windows, linux with x86_64 or arm64 gives the matching Linux name (each an if-and-only-if); any other linux machine is "Unsupported architecture", any other platform is "Unsupported platform" |
| Platform.MachineIgnoredOffLinux | src/main.ts:70-77 | off Linux the machine does not affect the result |
| InputResolution.OptionalInput | src/main.ts:15-17 | an input is absent exactly when it is empty, and otherwise is its text |
| InputResolution.Trim | src/main.ts:11-17 | the white space at both ends is removed: the result is empty exactly when the value is all white space, and otherwise starts and ends with a non-space character |
| InputResolution.TrimPadded | src/main.ts:11-17 | trimming recovers a text that neither starts nor ends with white space from any padding around it |
| InputResolution.MandatoryInput | src/main.ts:11-13 | the required check looks at the value before trimming: only an empty value is an error naming the input; any other value is accepted, trimmed |
| InputResolution.BlankRequiredInput | src/main.ts:11-13 | a required input of white space alone passes the check and becomes the empty string |
| InputResolution.BooleanInput | src/main.ts:199 | `true`, `True` and `TRUE` read as true, `false`, `False` and `FALSE` as false, each exactly; anything else is the YAML "Core Schema" error naming the input |
| InputResolution.BooleanSpellings | src/main.ts:199 | other case mixes, other words and the empty value are refused |
| InputResolution.InlineOrFileContent | src/main.ts:19-30 | inline text wins; with neither input there is no text; a named file is read only without inline text, and a read error propagates |
| InputResolution.PackageText | src/main.ts:201-210 | inline packages are used whenever given; otherwise the file's contents; with neither the run fails with "package-file or packages input required" |
| InputResolution.InlineWins | src/main.ts:23-24 | with inline packages, the file name and the reader do not matter |
| Mirrors.MirrorListText | src/main.ts:95-106 | the list text exists exactly when the fetch returned status 200, and it is the body |
| Mirrors.Draw | src/main.ts:114 | `Math.floor(Math.random() * n)` is an index below n when n > 0, and 0 otherwise |
| Mirrors.At | src/main.ts:116 | indexing gives a mirror exactly when the index is in range |
| Mirrors.FindRepository | src/main.ts:92-117 | the list is unavailable exactly when the fetch threw or returned a status other than 200; the mirrors are the body's words; a returned mirror is one of them; nothing is chosen or logged exactly when the list has no word |
| Mirrors.DrawHitting | src/main.ts:114-116 | for every index there is a random value that draws it |
| Mirrors.EveryMirrorReachable | src/main.ts:113-116 | every mirror in the list can be returned |
| Mirrors.RepositoryIgnoresLoggedDraw | src/main.ts:114-116 | the returned mirror does not depend on the logged draw |
| Mirrors.LoggedMayDifferFromChosen | src/main.ts:114-116 | the logged mirror and the returned mirror can differ |
| Installer.Tlmgr | src/main.ts:130 | the package manager is `tlmgr.bat` exactly on Windows and `tlmgr` elsewhere |
| Installer.InstallerArgs | src/main.ts:158-160 | the installer gets the profile last, preceded by the repository exactly when one was chosen |
| Installer.InstallerUrl | src/main.ts:133-138 | the archive is fetched from inside the chosen repository, or the CTAN redirector when none was chosen; it is a `.zip` exactly on Windows and a `.tar.gz` elsewhere |
| Installer.InstallerPath | src/main.ts:155-157 | the installer is `install-tl-windows.bat` on Windows and `install-tl` elsewhere, under `install-texlive` in the temporary directory, with only back slashes as separators on Windows and only slashes elsewhere |
| Installer.InstallPlan | src/main.ts:130-189 | a first install has six steps: the download of the installer archive, the run of the installer at its platform path with the repository and the POSIX-style profile path as arguments, autobackup switched off, the repository, the requested packages, the update; a refresh only sets the repository and updates; both end with the update, preceded by the repository step |
| Installer.PlanDescriptions | src/main.ts:131-189 | the step descriptions of each branch, in order |
| Installer.PlanCommands | src/main.ts:166-177 | every package-manager step uses `tlmgr.bat` exactly on Windows; the repository step names the chosen repository or `ctan`; the package step installs exactly the requested packages |
| Installer.ExecuteFrom | src/main.ts:119-189 | running from a step passes exactly when every later step succeeds; otherwise it fails with the message of the first failing step |
| Installer.Execute | src/main.ts:133-189 | a plan passes exactly when every step succeeds (status 200 for the download, 0 for commands); otherwise the first failing step ends it, with "Downloading installer failed with status code <n>" for the download and `exec`'s own "The process '<path>' failed with exit code <n>" for a command, since no call sets `ignoreReturnCode` |
| Installer.StepsRun | src/main.ts:133-189 | steps run up to and including the first failure, all earlier ones having succeeded |
| Installer.StepsRunReaches | src/main.ts:133-189 | the last step runs exactly when every step before it succeeded |
| Installer.UpdateRunsOnlyAfterSuccess | src/main.ts:184-189 | the final update runs exactly when every earlier step succeeded |
| Installer.FailureIdentifiesStep | src/main.ts:133-189 | a failure message names a step that failed, by its description for the download and by the resolved executable for a command, and the status can be read back from it |
| Action.Orchestrate | src/main.ts:224-252 | an exact hit outputs the full key with no install and no save; otherwise it installs, from scratch exactly when nothing was restored; it saves under the full key exactly when the install passes; it fails exactly when the install fails and stale caches are not accepted or nothing was restored; an accepted stale fallback outputs the restored key |
| Action.FirstInstallFailureIsFatal | src/main.ts:238-245 | a failed first install fails the run, even when stale caches are accepted |
| Action.OutputIsAKnownKey | src/main.ts:224-252 | the output key is the hit's full key, the saved cache's key, or the restored stale key |
| Action.Repository | src/main.ts:194-195 | the `repository` input wins; otherwise the mirror drawn from the list |
| Action.Prepare | src/main.ts:194-215 | an empty cache version is the first error, then an unreadable `accept-stale` value, then a missing or unreadable package text, then an unsupported platform, each with its own message; preparation succeeds exactly when none of these occurs, and then the repository is the resolved one, `accept-stale` is the parsed value, the packages are the parse of the package text, the key is the cache key of the trimmed cache version, those packages and the host, and the platform is the detected one |
| Action.RunAction | src/main.ts:192-257 | a failed preparation fails the run with its message; after preparation the run ends on an exact hit exactly when the restore returns the full key; a save is always under the full key |
| Action.RunOrderIndependent | src/main.ts:201-212 | inline package texts with the same words, each as often, give identical runs |
| Action.PrepareSamePackages | src/main.ts:201-212 | only the parsed list of the inline package text reaches the rest of the run |
| Action.RepositoryInputSkipsMirrorList | src/main.ts:194-195 | with the `repository` input set, the mirror-list fetch does not affect the run |

## Left out

- HTTP requests, `decompress`, file reads and writes, and `exec`: these are input and output. Their results enter as the fetch outcome, the reader function, the step statuses and the resolved command paths.
- The cache store: only the restore result and the value `saveCache` returns are modelled. The saved value is kept as an opaque string, though `saveCache` returns a number.
- SHA-256: a given function from bytes to a 32-byte digest.
- `Temporal.Now.plainDateISO('UTC')`: the date enters as a string.
- `Math.random()`: the two draws enter as fractions in `[0, 1)`.
- `core.info`, `core.error`, `core.addPath`, `core.setOutput` and `core.setFailed`: the run's result is the output key or the failure message. The `Error: ` prefix that `toString()` adds to a failure message is not modelled.
- `os.homedir()`: it only names the cached and added paths, which are not modelled.
- `src/tlprofile.ts`: a fixed profile text. Writing it and unpacking the installer happen between the download and the installer run; their failures are not modelled.
- `@actions/core` is not part of this model. `Trim`, `MandatoryInput` and `BooleanInput` write out what its `getInput` and `getBooleanInput` do. The cache version enters as set, because the required check comes before trimming. The other inputs enter as the trimmed strings `getInput` returns.
- An HTTP request that throws during the installer download: it is modelled as a failed download with some status, not as a distinct thrown error.
- `@actions/exec` is not part of this model. A command reaches the executor as its resolved path and exit status. The rejection `exec` gives when it cannot find the executable at all is not modelled.
- Tests (`__tests__/index.test.ts`) and `vitest.config.ts`: test scaffolding and tool configuration.
- StringOrder.Le: compares whole characters. JavaScript compares UTF-16 code units, which orders characters above U+FFFF differently from some characters in U+E000 to U+FFFF.
- Packages.StripComments: its own contract only bounds the length. What it does is stated by the lemmas listed under it.
- CacheKey.HexEncode: its own contract states the length and the digit set. That it loses nothing is stated by `CacheKey.HexRoundTrip`.
- Installer.ToPosixPath and Installer.ToPlatformPath: `core.toPosixPath` and `core.toPlatformPath` come from the actions toolkit, which is not part of this model; they are written out only as far as the install plan uses them.
