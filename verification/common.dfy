/**
 * Fixed-width machine integers and the optional-value wrapper shared by every
 * module of the model. The source works on `uint8_t`, `uint16_t`, `uint32_t`
 * and `uint64_t`; here each is a subset of the unbounded `int`, and every place
 * where the source wraps around is written out with an explicit modulus.
 */
module Common {

  type byte = x: int | 0 <= x < 0x100
  type u16 = x: int | 0 <= x < 0x1_0000
  type u32 = x: int | 0 <= x < 0x1_0000_0000
  type u64 = x: int | 0 <= x < 0x1_0000_0000_0000_0000

  const U32_MODULUS: int := 0x1_0000_0000
  const U64_MODULUS: int := 0x1_0000_0000_0000_0000

  datatype Option<T> = None | Some(value: T)

  /** `static_cast<uint32_t>(n)` of a non-negative count. */
  function TruncateU32(n: nat): (r: u32)
    ensures r <= n
    ensures n < U32_MODULUS ==> r == n
  {
    n % U32_MODULUS
  }

  /** Concatenation of a sequence of byte strings, in order. */
  function Flatten(parts: seq<seq<byte>>): (r: seq<byte>)
    decreases |parts|
  {
    if parts == [] then [] else Flatten(parts[..|parts| - 1]) + parts[|parts| - 1]
  }

  lemma {:induction false} FlattenAppend(parts: seq<seq<byte>>, last: seq<byte>)
    ensures Flatten(parts + [last]) == Flatten(parts) + last
  {
    assert (parts + [last])[..|parts|] == parts;
  }

  lemma {:induction false} FlattenConcat(a: seq<seq<byte>>, b: seq<seq<byte>>)
    ensures Flatten(a + b) == Flatten(a) + Flatten(b)
    decreases |b|
  {
    if b == [] {
      assert a + b == a;
    } else {
      var b' := b[..|b| - 1];
      assert a + b == (a + b') + [b[|b| - 1]];
      FlattenAppend(a + b', b[|b| - 1]);
      FlattenConcat(a, b');
      FlattenAppend(b', b[|b| - 1]);
      assert b == b' + [b[|b| - 1]];
    }
  }
}
