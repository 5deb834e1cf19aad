/** Vocabulary shared by the models: optional values, 64-bit machine words, hook ids,
    the C ABI's status codes and ASCII letters. */
module Prelude {
  datatype Option<+T> = None | Some(value: T)

  type HookId = nat

  datatype Status = Ok | InvalidArgument | BadState

  predicate IsUpper(c: char) {
    'A' <= c <= 'Z'
  }

  predicate IsLower(c: char) {
    'a' <= c <= 'z'
  }

  function Lower(c: char): char {
    if IsUpper(c) then c - 'A' + 'a' else c
  }

  function Upper(c: char): char {
    if IsLower(c) then c - 'a' + 'A' else c
  }

  const TWO_64: int := 0x1_0000_0000_0000_0000

  /** An unsigned 64-bit value: a register, an address or a memory word. */
  type Word = w: int | 0 <= w < TWO_64 witness 0

  /** The value an unsigned 64-bit computation leaves: reduction modulo 2^64. */
  function Wrap(x: int): Word {
    x % TWO_64
  }

  lemma WrapAbsorbs(x: int, y: int)
    ensures Wrap(Wrap(x) + y) == Wrap(x + y)
  {
    assert x + y == Wrap(x) + y + TWO_64 * (x / TWO_64);
  }
}
