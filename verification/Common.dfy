// Shared by the models of several source files.
module Common {
  datatype Option<T> = None | Some(value: T)

  // s without its element k.
  function RemovedAt<T>(s: seq<T>, k: int): seq<T>
    requires 0 <= k < |s|
  {
    s[..k] + s[k + 1..]
  }

  function IndexOf<T(==)>(s: seq<T>, x: T): (k: int)
    requires x in s
    ensures 0 <= k < |s| && s[k] == x
  {
    if s[0] == x then 0 else 1 + IndexOf(s[1..], x)
  }

  // The moduli of the fixed-width unsigned types.
  const M16: int := 0x1_0000
  const M32: int := 0x1_0000_0000
  const M64: int := 0x1_0000_0000_0000_0000
}
