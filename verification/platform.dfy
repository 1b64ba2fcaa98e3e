/** `detectTlPlatform`: the TeX Live platform for the host's `os.platform()`
    and `os.machine()`. */
module Platform {
  import opened Wrappers

  /** The four TeX Live platforms the action supports: `universal-darwin`,
      `windows`, `x86_64-linux` and `aarch64-linux`. */
  datatype TlPlatform = UniversalDarwin | Windows | X86_64Linux | Aarch64Linux

  /** Darwin and Windows hosts map to one platform each; on Linux the
      machine decides; anything else is an error naming what was found. */
  function DetectTlPlatform(platform: string, machine: string): (r: Result<TlPlatform, string>)
    ensures r == Success(UniversalDarwin) <==> platform == "darwin"
    ensures r == Success(Windows) <==> platform == "win32"
    ensures r == Success(X86_64Linux) <==> platform == "linux" && machine == "x86_64"
    ensures r == Success(Aarch64Linux) <==> platform == "linux" && machine == "arm64"
    ensures r.Failure? <==> platform !in {"darwin", "win32", "linux"}
                            || (platform == "linux" && machine !in {"x86_64", "arm64"})
    ensures r.Failure? && platform == "linux" ==> r.error == "Unsupported architecture " + machine
    ensures r.Failure? && platform != "linux" ==> r.error == "Unsupported platform " + platform
  {
    match platform
    case "darwin" => Success(UniversalDarwin)
    case "win32" => Success(Windows)
    case "linux" => (
      match machine
      case "x86_64" => Success(X86_64Linux)
      case "arm64" => Success(Aarch64Linux)
      case _ => Failure("Unsupported architecture " + machine))
    case _ => Failure("Unsupported platform " + platform)
  }

  /** Off Linux the machine is never looked at. */
  lemma MachineIgnoredOffLinux(platform: string, m1: string, m2: string)
    requires platform != "linux"
    ensures DetectTlPlatform(platform, m1) == DetectTlPlatform(platform, m2)
  {
  }
}
