/** The unsigned integer types of cmph_types.h and their wrap-around arithmetic. */
module Words {
  const TWO32: int := 0x1_0000_0000

  type uint8 = x: int | 0 <= x < 256
  type uint32 = x: int | 0 <= x < 0x1_0000_0000

  function Add32(a: uint32, b: uint32): uint32 {
    (a + b) % TWO32
  }

  function Sub32(a: uint32, b: uint32): uint32 {
    (a - b) % TWO32
  }

  function Inc8(a: uint8): uint8 {
    (a as int + 1) % 256
  }

  function Dec8(a: uint8): uint8 {
    (a as int + 255) % 256
  }

  lemma Step8(n: nat)
    ensures Inc8(n % 256) == (n + 1) % 256 && Dec8((n + 1) % 256) == n % 256
  {
  }

  lemma SubAdd(a: uint32, e: uint32)
    ensures Add32(a, Sub32(e, a)) == e && Add32(Sub32(e, a), a) == e
  {
  }

  datatype Option<+T> = None | Some(value: T)
}
