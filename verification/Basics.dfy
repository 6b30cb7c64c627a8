/** Bytes, digests and the small wrappers every other module uses. */
module Basics {

  newtype Byte = x: int | 0 <= x < 256
  type Bytes = seq<Byte>
  type U32 = x: int | 0 <= x <= U32_MAX
  type U64 = x: int | 0 <= x <= U64_MAX

  const U32_MAX := 0xFFFF_FFFF
  const U64_MAX := 0xFFFF_FFFF_FFFF_FFFF

  /** A 32-byte value: a SHA-256 digest, a PDA seed or an account id. */
  type Digest = d: Bytes | |d| == 32 witness seq(32, _ => 0)

  /** SHA-256 is not modelled: every statement holds for every function of this type. */
  type Sha = Bytes -> Digest

  datatype Option<+T> = None | Some(value: T)

  datatype Result<+T, +E> = Ok(value: T) | Err(error: E)

  /** No two of these inputs collide. Asked only of the finitely many inputs a statement talks about. */
  ghost predicate CollisionFree(sha: Sha, inputs: set<Bytes>) {
    forall x, y :: x in inputs && y in inputs && sha(x) == sha(y) ==> x == y
  }

  function Min(a: int, b: int): (r: int) {
    if a <= b then a else b
  }

  lemma Concat3<T>(a: seq<T>, b: seq<T>, c: seq<T>)
    ensures a + (b + c) == (a + b) + c
  {
  }

  /** The set of elements of a sequence. */
  function Elements<T>(s: seq<T>): (r: set<T>) {
    set x | x in s
  }
}
