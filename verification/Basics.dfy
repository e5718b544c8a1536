/** Shared vocabulary. */
module Basics {
  const NUL := '\0'

  datatype Option<T> = None | Some(value: T)

  predicate IsDigit(c: char) {
    '0' <= c <= '9'
  }

  /** `tonumericdigit` */
  function DigitValue(c: char): int {
    c as int - '0' as int
  }
}
