/** Constants and small helpers shared by the host library, the VE library and
    the two-buffer prototype (veo_udma.h and veo_udma_comm.h). */
module UdmaConst {

  /** A byte of a data buffer. */
  type Byte = bv8

  // veo_udma.h
  const UDMA_MAX_PROCS: nat := 8
  const UDMA_MAX_PEERS: nat := 64
  const UDMA_MAX_SPLIT: nat := 64
  const UDMA_BUFF_LEN: nat := 64 * 1024 * 1024

  // veo_udma_comm.h (the two-buffer prototype)
  const PROTO_MAX_SPLIT: nat := 32
  const PROTO_BUFF_LEN: nat := 1 * 1024 * 1024
  const PROTO_NUM_BUFFS: nat := 2

  /** Size of one mailbox word (size_t / uint64_t). */
  const WORD: nat := 8

  /** Linux errno values the libraries return negated. */
  const EPERM: nat := 1
  const EAGAIN: nat := 11
  const ENOMEM: nat := 12
  const EINVAL: nat := 22
  const ETIME: nat := 62

  /** 2^64: size_t and uint64_t arithmetic wraps modulo this. */
  const U64: nat := 0x1_0000_0000_0000_0000

  /** 2^63: an int64_t holds values below this; a size_t at or above it
      turns negative when assigned to one. */
  const I64: nat := 0x8000_0000_0000_0000

  /** The MIN macro of veo_udma.h. */
  function Min(a: int, b: int): (m: int)
    ensures m <= a && m <= b
    ensures m == a || m == b
  {
    if a < b then a else b
  }

  /** Conversion of a C integer to size_t / uint64_t (two's complement wrap). */
  function ToU64(x: int): (r: nat)
    ensures r < U64
    ensures 0 <= x < U64 ==> r == x
  {
    x % U64
  }

  /** A 64-bit word read into an int64_t (two's complement): words of 2^63
      and more become negative. */
  function ToI64(x: int): (r: int)
    ensures -(I64 as int) <= r < I64
    ensures 0 <= x < I64 ==> r == x
    ensures I64 <= x < U64 ==> r == x - U64
  {
    var u := x % U64;
    if u < I64 then u else u - U64
  }

  /** ALIGN8B: the length rounded up to a multiple of 8. The macro is not
      defined in any file of this model; this is the rounding it is used for. */
  function Align8(n: nat): (r: nat)
    ensures r % 8 == 0
    ensures n <= r < n + 8
  {
    (n + 7) / 8 * 8
  }
}
