/** The execute-permission test, in its unix and its non-unix variant. */
module Permissions {
  import opened FileSystem

  datatype Platform = Unix | NonUnix

  /** The three execute bits, `0o111`. */
  const EXECUTE_BITS: Mode := 0x49

  function IsExecutable(platform: Platform, mode: Mode): (r: bool)
    ensures platform.NonUnix? ==> !r
    ensures platform.Unix? ==> (r <==> (mode & 0x40 != 0 || mode & 0x08 != 0 || mode & 0x01 != 0))
  {
    match platform
    case Unix => mode & EXECUTE_BITS != 0
    case NonUnix => false
  }
}
