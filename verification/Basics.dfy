/** Types shared by every part of the model. */
module Basics {
  /** One octet of a DNS message, a name or an arena. */
  newtype byte = x: int | 0 <= x < 256

  datatype Option<+T> = None | Some(value: T)

  /** Octets of a canonical name at most. */
  const MAX_NAME_LEN: nat := 255

  const U16_LIMIT: nat := 0x1_0000
  const U32_LIMIT: nat := 0x1_0000_0000

  /** A narrowing cast to 16 bits. */
  function AsU16(n: nat): (r: nat)
    ensures r < U16_LIMIT && (n < U16_LIMIT ==> r == n)
  {
    n % U16_LIMIT
  }

  /** A narrowing cast to 32 bits. */
  function AsU32(n: nat): (r: nat)
    ensures r < U32_LIMIT && (n < U32_LIMIT ==> r == n)
  {
    n % U32_LIMIT
  }

  /** ASCII lower-casing of one octet, as `make_ascii_lowercase` does it. */
  function Lower(b: byte): byte {
    if 65 <= b <= 90 then b + 32 else b
  }

  function LowerAll(s: seq<byte>): (r: seq<byte>)
    ensures |r| == |s|
    ensures forall i :: 0 <= i < |s| ==> r[i] == Lower(s[i])
  {
    seq(|s|, i requires 0 <= i < |s| => Lower(s[i]))
  }

  function Min(a: int, b: int): int {
    if a <= b then a else b
  }

  function Max(a: int, b: int): int {
    if a <= b then b else a
  }

  lemma {:induction false} CardSubset<T>(a: set<T>, b: set<T>)
    requires a <= b
    ensures |a| <= |b|
  {
    if a != {} {
      var x :| x in a;
      CardSubset(a - {x}, b - {x});
    }
  }
}
