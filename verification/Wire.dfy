/** Bytes, machine widths and little-endian integers, shared by every on-disk format. */
module Wire {

  type byte = x: int | 0 <= x < 256
  type Bytes = seq<byte>

  const U32_LIMIT: int := 0x1_0000_0000
  const U64_LIMIT: int := 0x1_0000_0000_0000_0000

  type u32 = x: int | 0 <= x < U32_LIMIT
  type u64 = x: int | 0 <= x < U64_LIMIT

  /** `u64::saturating_add`. */
  function SatAdd(a: u64, b: u64): (r: u64)
    ensures r == a + b || (r == U64_LIMIT - 1 && a + b >= U64_LIMIT)
  {
    if a + b < U64_LIMIT then a + b else U64_LIMIT - 1
  }

  function Pow256(width: nat): (r: nat)
    ensures r > 0
  {
    if width == 0 then 1 else 256 * Pow256(width - 1)
  }

  /** The `width` low bytes of `n`, least significant first (`to_le_bytes`). */
  function Le(n: nat, width: nat): (r: Bytes)
    ensures |r| == width
  {
    if width == 0 then [] else [n % 256] + Le(n / 256, width - 1)
  }

  /** `from_le_bytes`. */
  function FromLe(b: Bytes): (n: nat)
    ensures n < Pow256(|b|)
  {
    if b == [] then 0 else b[0] + 256 * FromLe(b[1..])
  }

  lemma {:induction false} LeRoundTrip(n: nat, width: nat)
    requires n < Pow256(width)
    ensures FromLe(Le(n, width)) == n
  {
    if width > 0 {
      LeRoundTrip(n / 256, width - 1);
      assert Le(n, width)[1..] == Le(n / 256, width - 1);
    }
  }

  lemma Widths()
    ensures Pow256(2) == 0x1_0000 && Pow256(4) == U32_LIMIT && Pow256(8) == U64_LIMIT
  {
    assert Pow256(2) == 256 * Pow256(1);
    assert Pow256(4) == 256 * 256 * Pow256(2);
    assert Pow256(6) == 256 * 256 * Pow256(4);
    assert Pow256(8) == 256 * 256 * Pow256(6);
  }

  const HEX: Bytes := [48, 49, 50, 51, 52, 53, 54, 55, 56, 57, 97, 98, 99, 100, 101, 102]

  /** Lower-case hexadecimal, two digits a byte. */
  function Hex(b: Bytes): (r: Bytes)
    ensures |r| == 2 * |b|
  {
    if b == [] then [] else [HEX[b[0] / 16], HEX[b[0] % 16]] + Hex(b[1..])
  }
}

/** Hashes as arbitrary functions, and the absence of collisions among given inputs. */
module Hashing {
  import opened Wire

  /** The hash tells these byte strings apart. */
  predicate Apart(sha: Bytes -> string, all: set<Bytes>) {
    forall a <- all, b <- all :: sha(a) == sha(b) ==> a == b
  }

  lemma ApartFewer(sha: Bytes -> string, all: set<Bytes>, some: set<Bytes>)
    requires Apart(sha, all) && some <= all
    ensures Apart(sha, some)
  {
  }
}

module Outcomes {

  datatype Option<+T> = None | Some(value: T)

  datatype Result<+T> = Ok(value: T) | Err(error: Error)

  /** The error kinds of the runtime; `Panic` is an out-of-range slice that aborts the caller. */
  datatype Error =
    | InvalidConfig
    | Conflict
    | CapacityExceeded
    | Storage
    | Corrupt
    | DurabilityUnavailable
    | InvalidTransition
    | TaskUnknown
    | AttemptStale
    | Protocol
    | WorkerUnavailable
    | QuorumLost
    | NotLeader
    | Fenced
    | GrantExpired
    | ControlLeaseExpired
    | WorkerRejected
    | Incompatible
    | Panic
}
