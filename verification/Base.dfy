/** Vocabulary shared by every module: bytes, machine widths, socket addresses
    and the two result shapes the code returns. */
module Base {

  type byte = n: int | 0 <= n < 0x100

  type Bytes = seq<byte>

  type u16 = n: int | 0 <= n < 0x1_0000

  const U32_MAX: nat := 0xFFFF_FFFF
  const U64_MODULUS: nat := 0x1_0000_0000_0000_0000

  type u64 = n: int | 0 <= n < 0x1_0000_0000_0000_0000

  /** A wall-clock instant. Only its total order matters. */
  type Time = int

  type Octets4 = b: Bytes | |b| == 4 witness [0, 0, 0, 0]

  type Octets16 = b: Bytes | |b| == 16 witness [0, 0, 0, 0, 0, 0, 0, 0, 0, 0, 0, 0, 0, 0, 0, 0]

  datatype IpAddr = V4(v4: Octets4) | V6(v6: Octets16)

  datatype SocketAddr = SocketAddr(ip: IpAddr, port: u16)

  datatype Option<+T> = None | Some(value: T)

  datatype Result<+T, +E> = Ok(value: T) | Err(error: E)

  function Min(a: int, b: int): int {
    if a <= b then a else b
  }

  function Max(a: int, b: int): int {
    if a >= b then a else b
  }

  function SaturatingSub(a: nat, b: nat): nat {
    if a >= b then a - b else 0
  }

  function SaturatingAdd(a: nat, b: nat, limit: nat): nat {
    Min(a + b, limit)
  }

  /** What an atomic fetch-add leaves in a 64-bit cell. */
  function WrappingAdd(a: u64, b: u64): u64 {
    if a + b < U64_MODULUS then a + b else a + b - U64_MODULUS
  }

  function Pow2(n: nat): (r: nat)
    ensures r >= 1
  {
    if n == 0 then 1 else 2 * Pow2(n - 1)
  }
}
