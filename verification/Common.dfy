/** Types and constants shared by the models. */
module Common {

  datatype Option<+T> = None | Some(value: T)

  /** The versions a request may have. */
  datatype Version = V1 | V2 | V3

  function Rank(v: Version): (r: nat)
    ensures r <= 2
  {
    match v case V1 => 0 case V2 => 1 case V3 => 2
  }

  const TWO31 := 0x8000_0000
  const TWO32 := 0x1_0000_0000

  /** Conversion of an unsigned value to a 32-bit int. */
  function ToInt32(x: nat): (r: int)
    ensures -TWO31 <= r < TWO31
    ensures (x - r) % TWO32 == 0
  {
    var low := x % TWO32;
    if low < TWO31 then low else low - TWO32
  }

  /** Linux error numbers; the code returns them negated. */
  const EPERM := 1
  const ENOENT := 2
  const EIO := 5
  const EBADF := 9
  const EACCES := 13
  const EEXIST := 17
  const ENOTDIR := 20
  const ENOSPC := 28
  const ENAMETOOLONG := 36
  const ENOTEMPTY := 39
  const EPROTO := 71
  const EOPNOTSUPP := 95
  const ENOTCONN := 107
}
