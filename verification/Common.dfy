/** Types that several modules share. */
module Common {
  type byte = x: int | 0 <= x < 256

  datatype Option<+T> = None | Some(value: T)

  function Repeat<T>(x: T, n: nat): (r: seq<T>)
    ensures |r| == n
  {
    seq(n, _ => x)
  }

  /** n zero bytes. */
  function Nulls(n: nat): (z: seq<byte>)
    ensures |z| == n
  {
    Repeat(0, n)
  }
}
