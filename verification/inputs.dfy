/** How the action's inputs become values. An input arrives as the string
    `core.getInput` returns: the variable's value with white space trimmed
    from both ends, `""` when not set. A required input is the exception: it
    is checked for emptiness before trimming, so it arrives untrimmed.
    Reading the package file is supplied by the caller as a function from
    path to contents or error. */
module InputResolution {
  import opened Wrappers
  import opened Tokenizer

  /** `s.trim()`: `s` without the white space at either end. `trim` removes
      the same characters `\s` matches. */
  function Trim(s: string): (r: string)
    ensures |r| <= |s|
    ensures r != "" ==> !IsSpace(r[0]) && !IsSpace(r[|r| - 1])
    ensures r == "" <==> forall k | 0 <= k < |s| :: IsSpace(s[k])
  {
    TrimEnd(TrimStart(s))
  }

  /** `s` without its leading white space. */
  function TrimStart(s: string): (r: string)
    ensures |r| <= |s| && r == s[|s| - |r|..]
    ensures forall k | 0 <= k < |s| - |r| :: IsSpace(s[k])
    ensures r != "" ==> !IsSpace(r[0])
    decreases |s|
  {
    if |s| > 0 && IsSpace(s[0]) then TrimStart(s[1..]) else s
  }

  /** `s` without its trailing white space. */
  function TrimEnd(s: string): (r: string)
    ensures |r| <= |s| && r == s[..|r|]
    ensures forall k | |r| <= k < |s| :: IsSpace(s[k])
    ensures r != "" ==> !IsSpace(r[|r| - 1])
    decreases |s|
  {
    if |s| > 0 && IsSpace(s[|s| - 1]) then TrimEnd(s[..|s| - 1]) else s
  }

  /** Trimming recovers a text that neither starts nor ends with white
      space from any white space padding around it. */
  lemma TrimPadded(a: string, t: string, b: string)
    requires forall k | 0 <= k < |a| :: IsSpace(a[k])
    requires forall k | 0 <= k < |b| :: IsSpace(b[k])
    requires t != "" && !IsSpace(t[0]) && !IsSpace(t[|t| - 1])
    ensures Trim(a + t + b) == t
  {
    TrimStartPadded(a, t + b);
    assert a + t + b == a + (t + b);
    TrimEndPadded(t, b);
  }

  lemma {:induction false} TrimStartPadded(a: string, u: string)
    requires forall k | 0 <= k < |a| :: IsSpace(a[k])
    requires u != "" && !IsSpace(u[0])
    ensures TrimStart(a + u) == u
    decreases |a|
  {
    if |a| > 0 {
      assert (a + u)[1..] == a[1..] + u;
      TrimStartPadded(a[1..], u);
    } else {
      assert a + u == u;
    }
  }

  lemma {:induction false} TrimEndPadded(t: string, b: string)
    requires forall k | 0 <= k < |b| :: IsSpace(b[k])
    requires t != "" && !IsSpace(t[|t| - 1])
    ensures TrimEnd(t + b) == t
    decreases |b|
  {
    if |b| > 0 {
      assert (t + b)[..|t + b| - 1] == t + b[..|b| - 1];
      TrimEndPadded(t, b[..|b| - 1]);
    } else {
      assert t + b == t;
    }
  }

  /** `getOptionalInput`: an empty input counts as not given. */
  function OptionalInput(value: string): (r: Option<string>)
    ensures r.None? <==> value == ""
    ensures r.Some? ==> r.value == value
  {
    if value == "" then None else Some(value)
  }

  /** `getMandatoryInput`: `core.getInput(name, { required: true })` on the
      untrimmed value `raw`. Only an empty value is an error naming the
      input; any other value, white space alone included, is accepted and
      trimmed. */
  function MandatoryInput(name: string, raw: string): (r: Result<string, string>)
    ensures r.Failure? <==> raw == ""
    ensures r.Success? ==> r.value == Trim(raw)
    ensures r.Failure? ==> r.error == "Input required and not supplied: " + name
  {
    if raw == "" then Failure("Input required and not supplied: " + name) else Success(Trim(raw))
  }

  /** A required input of white space alone passes the check and is the
      empty string from then on. */
  lemma BlankRequiredInput(name: string, raw: string)
    requires raw != "" && forall k | 0 <= k < |raw| :: IsSpace(raw[k])
    ensures MandatoryInput(name, raw) == Success("")
  {
  }

  /** The two parts of the error `core.getBooleanInput` throws for a value
      it does not accept; the input's name goes between them. */
  const BooleanErrorHead := "Input does not meet YAML 1.2 \"Core Schema\" specification: "
  const BooleanErrorTail := "\nSupport boolean input list: `true | True | TRUE | false | False | FALSE`"

  function BooleanInputError(name: string): string {
    BooleanErrorHead + name + BooleanErrorTail
  }

  /** The spellings `core.getBooleanInput` reads as true. */
  predicate TrueSpelling(value: string) {
    value == "true" || value == "True" || value == "TRUE"
  }

  /** The spellings `core.getBooleanInput` reads as false. */
  predicate FalseSpelling(value: string) {
    value == "false" || value == "False" || value == "FALSE"
  }

  /** `core.getBooleanInput(name)` on the trimmed value: three spellings of
      each truth value are accepted, anything else (the empty string
      included) is an error. */
  function BooleanInput(name: string, value: string): (r: Result<bool, string>)
    ensures r == Success(true) <==> TrueSpelling(value)
    ensures r == Success(false) <==> FalseSpelling(value)
    ensures r.Failure? ==> r.error == BooleanInputError(name)
  {
    if TrueSpelling(value) then
      assert |value| == 4 && !FalseSpelling(value);
      Success(true)
    else if FalseSpelling(value) then Success(false)
    else Failure(BooleanInputError(name))
  }

  /** No spelling is read both ways, and any other case mix is refused. */
  lemma BooleanSpellings(name: string)
    ensures BooleanInput(name, "true") == BooleanInput(name, "TRUE") == Success(true)
    ensures BooleanInput(name, "false") == BooleanInput(name, "FALSE") == Success(false)
    ensures BooleanInput(name, "tRUE").Failure? && BooleanInput(name, "yes").Failure?
    ensures BooleanInput(name, "").Failure?
  {
  }

  /** `inlineOrFilecontent`: inline text when given, otherwise the file's
      contents when a file is named, otherwise nothing. The file is read
      only when no inline text is given. */
  function InlineOrFileContent(inline: Option<string>, filename: Option<string>,
                               readFile: string -> Result<string, string>): (r: Result<Option<string>, string>)
    ensures inline.Some? ==> r == Success(inline)
    ensures inline.None? && filename.None? ==> r == Success(None)
    ensures inline.None? && filename.Some? ==>
              match readFile(filename.value)
              case Success(text) => r == Success(Some(text))
              case Failure(e) => r == Failure(e)
  {
    if inline.Some? || filename.None? then Success(inline)
    else
      match readFile(filename.value)
      case Success(text) => Success(Some(text))
      case Failure(e) => Failure(e)
  }

  const MissingPackagesError := "package-file or packages input required"

  /** The package text of a run, from the `packages` and `package_file`
      inputs: inline text wins, a named file is read otherwise, and with
      neither the run fails. */
  function PackageText(packages: string, packageFile: string,
                       readFile: string -> Result<string, string>): (r: Result<string, string>)
    ensures packages != "" ==> r == Success(packages)
    ensures packages == "" && packageFile == "" ==> r == Failure(MissingPackagesError)
    ensures packages == "" && packageFile != "" ==> r == readFile(packageFile)
  {
    match InlineOrFileContent(OptionalInput(packages), OptionalInput(packageFile), readFile)
    case Failure(e) => Failure(e)
    case Success(None) => Failure(MissingPackagesError)
    case Success(Some(text)) => Success(text)
  }

  /** Whatever file is named, and whatever reading it would do, inline
      packages are what the run uses. */
  lemma InlineWins(packages: string, f1: string, f2: string,
                   read1: string -> Result<string, string>, read2: string -> Result<string, string>)
    requires packages != ""
    ensures PackageText(packages, f1, read1) == PackageText(packages, f2, read2) == Success(packages)
  {
  }
}
