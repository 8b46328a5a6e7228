/** Machine-level value types and the library record shared by the parsers. */
module Types {

  const UINT32_LIMIT: int := 0x1_0000_0000
  const UINT64_LIMIT: int := 0x1_0000_0000_0000_0000

  /** A Go `byte`. */
  type Byte = b: int | 0 <= b < 256

  /** A Go `uint32`; arithmetic on it is written out modulo UINT32_LIMIT. */
  type Uint32 = x: int | 0 <= x < 0x1_0000_0000

  /** A Go `uint64`; arithmetic on it is written out modulo UINT64_LIMIT. */
  type Uint64 = x: int | 0 <= x < 0x1_0000_0000_0000_0000

  /** `k` zero bytes: what a short read leaves in the rest of a buffer. */
  function Zeros(k: nat): (z: seq<Byte>)
    ensures |z| == k
    ensures forall i :: 0 <= i < k ==> z[i] == 0
  {
    seq(k, _ => 0)
  }

  /** Where a library was declared in a manifest (`types.Location`). */
  datatype Location = Location(startLine: int, endLine: int)

  /** The fields of `types.Library` that the modelled code reads or writes. */
  datatype Library = Library(
    name: string,
    version: string,
    buildId: string,
    warnings: seq<string>,
    locations: seq<Location>)
}
