/** `ooo.oshi.PlatformEnum`: the supported operating systems and their display names. */
module Platform {

  datatype PlatformEnum = MACOS | LINUX | WINDOWS | UNSUPPORTED

  /** `getName()`: the friendly name each constant is constructed with. */
  function Name(p: PlatformEnum): (r: string)
    ensures p == MACOS ==> r == "macOS"
    ensures p == LINUX ==> r == "Linux"
    ensures p == WINDOWS ==> r == "Windows"
    ensures p == UNSUPPORTED ==> r == "Unsupported Operating System"
  {
    match p
    case MACOS => "macOS"
    case LINUX => "Linux"
    case WINDOWS => "Windows"
    case UNSUPPORTED => "Unsupported Operating System"
  }

  /** The name table is injective: no two platforms share a friendly name. */
  lemma NamesDistinct(p: PlatformEnum, q: PlatformEnum)
    ensures Name(p) == Name(q) <==> p == q
  {
  }
}
