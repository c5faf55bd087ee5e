/**
 * `ooo.oshi.SystemInfo`: classifies the running platform from the `os.name`
 * property, creates the matching operating-system facade and hands out one
 * memoized instance of it.
 */
module SystemInfo {
  import opened Wrappers
  import opened Platform
  import opened JavaInt
  import opened Memoizer

  const NOT_SUPPORTED: string := "Operating system not supported: "

  predicate StartsWith(s: string, prefix: string)
  {
    |prefix| <= |s| && s[..|prefix|] == prefix
  }

  /**
   * The static `CURRENT_PLATFORM`: tests of `os.name` prefixes in turn. The
   * four prefixes begin with different letters, so at most one test succeeds
   * and the order of the tests does not matter.
   */
  function CurrentPlatform(osName: string): (p: PlatformEnum)
    ensures p == LINUX <==> StartsWith(osName, "Linux")
    ensures p == MACOS <==> StartsWith(osName, "Mac") || StartsWith(osName, "Darwin")
    ensures p == WINDOWS <==> StartsWith(osName, "Windows")
    ensures p == UNSUPPORTED <==>
      !StartsWith(osName, "Linux") && !StartsWith(osName, "Mac") &&
      !StartsWith(osName, "Darwin") && !StartsWith(osName, "Windows")
  {
    FirstLetter(osName, "Linux");
    FirstLetter(osName, "Mac");
    FirstLetter(osName, "Darwin");
    FirstLetter(osName, "Windows");
    if StartsWith(osName, "Linux") then LINUX
    else if StartsWith(osName, "Mac") || StartsWith(osName, "Darwin") then MACOS
    else if StartsWith(osName, "Windows") then WINDOWS
    else UNSUPPORTED
  }

  lemma FirstLetter(s: string, prefix: string)
    ensures StartsWith(s, prefix) && |prefix| > 0 ==> s[0] == prefix[0]
  {
    if StartsWith(s, prefix) && |prefix| > 0 {
      assert s[..|prefix|][0] == prefix[0];
    }
  }

  /** Appending to a recognised `os.name` never changes its platform. */
  lemma {:induction false} ClassificationKeepsUnderExtension(osName: string, suffix: string)
    requires CurrentPlatform(osName) != UNSUPPORTED
    ensures CurrentPlatform(osName + suffix) == CurrentPlatform(osName)
  {
    var s := osName + suffix;
    forall prefix: string | StartsWith(osName, prefix) ensures StartsWith(s, prefix) {
      assert s[..|prefix|] == osName[..|prefix|];
    }
  }

  /**
   * A platform's own friendly name classifies back to it, except "macOS",
   * whose lower-case first letter misses the "Mac" prefix test.
   */
  lemma OwnNameClassification(p: PlatformEnum)
    ensures CurrentPlatform(Name(p)) == p <==> p != MACOS
  {
    if p == MACOS {
      assert Name(p)[0] == 'm';
      assert !StartsWith(Name(p), "Mac");
      assert !StartsWith(Name(p), "Darwin");
      assert !StartsWith(Name(p), "Linux");
      assert !StartsWith(Name(p), "Windows");
    } else if p == UNSUPPORTED {
      assert Name(p)[0] == 'U';
      assert !StartsWith(Name(p), "Mac");
      assert !StartsWith(Name(p), "Darwin");
      assert !StartsWith(Name(p), "Linux");
      assert !StartsWith(Name(p), "Windows");
    } else if p == LINUX {
      assert StartsWith(Name(p), "Linux");
    } else {
      assert StartsWith(Name(p), "Windows");
    }
  }

  /** The platform-specific facades `createOperatingSystem` can build. */
  datatype OperatingSystemKind = WindowsOperatingSystem | LinuxOperatingSystem | MacOperatingSystem

  function PlatformOf(k: OperatingSystemKind): PlatformEnum
  {
    match k
    case WindowsOperatingSystem => WINDOWS
    case LinuxOperatingSystem => LINUX
    case MacOperatingSystem => MACOS
  }

  /**
   * `createOperatingSystem`: the facade of the current platform, or the
   * `UnsupportedOperationException` thrown for an unsupported one.
   */
  function CreateOperatingSystem(platform: PlatformEnum): (r: Result<OperatingSystemKind, string>)
    ensures r.Failure? <==> platform == UNSUPPORTED
    ensures r.Failure? ==> r.error == NOT_SUPPORTED
    ensures r.Success? ==> PlatformOf(r.value) == platform
  {
    match platform
    case WINDOWS => Success(WindowsOperatingSystem)
    case LINUX => Success(LinuxOperatingSystem)
    case MACOS => Success(MacOperatingSystem)
    case UNSUPPORTED => Failure(NOT_SUPPORTED)
  }

  /**
   * A constructed facade object: its kind and the identity (`serial`) that
   * distinguishes it from any other object built by the same constructor.
   */
  datatype OperatingSystemInstance = OperatingSystemInstance(kind: OperatingSystemKind, serial: nat)

  /** A `SystemInfo` object; `platform` is the static classification of `os.name`. */
  class SystemInfo {
    const platform: PlatformEnum
    const os: ExpiringMemoizer<OperatingSystemInstance>

    constructor (osName: string)
      ensures platform == CurrentPlatform(osName)
      ensures fresh(os) && os.Valid() && os.ttlNanos < 0 && os.calls == 0
    {
      platform := CurrentPlatform(osName);
      os := new ExpiringMemoizer.MemoizeForever();
    }

    /**
     * `getOperatingSystem()`. `serial` is the identity a facade built by this
     * call would get. An unsupported platform throws before anything is
     * stored; otherwise the first facade ever built is returned forever.
     */
    method GetOperatingSystem(now: Int64, serial: nat) returns (r: Result<OperatingSystemInstance, string>)
      requires os.Valid() && os.ttlNanos < 0
      requires os.value.Some? ==> PlatformOf(os.value.value.kind) == platform
      modifies os
      ensures os.Valid()
      ensures os.value.Some? ==> PlatformOf(os.value.value.kind) == platform
      ensures platform == UNSUPPORTED ==> r == Failure(NOT_SUPPORTED) && unchanged(os)
      ensures platform != UNSUPPORTED ==> r.Success? && os.value == Some(r.value) && PlatformOf(r.value.kind) == platform
      ensures r.Success? && old(os.calls) == 0 ==> r.value.serial == serial && os.calls == 1
      ensures old(os.calls) > 0 ==> r == Success(old(os.value).value) && os.calls == old(os.calls)
    {
      var created := CreateOperatingSystem(platform);
      if created.Failure? {
        return Failure(created.error);
      }
      var instance := os.Get(now, OperatingSystemInstance(created.value, serial));
      r := Success(instance);
    }
  }
}
