/**
  Facts about C that the model needs: the widths of the unsigned integer types the
  program stores counters and dates in, C's division (which truncates toward zero,
  unlike Dafny's Euclidean `/`), and an Option type for pointers that may be NULL.
 */
module CSemantics {

  /** Number of values of uint8_t, uint16_t and uint32_t. */
  const U8: nat := 0x100
  const U16: nat := 0x1_0000
  const U32: nat := 0x1_0000_0000

  datatype Option<T> = None | Some(value: T)

  /** C99 integer division: the quotient is truncated toward zero, so the remainder
      takes the sign of the dividend. */
  function TruncDiv(a: int, b: int): (q: int)
    requires b > 0
    ensures a >= 0 ==> 0 <= a - q * b < b
    ensures a < 0 ==> -b < a - q * b <= 0
  {
    if a >= 0 then a / b else -((-a) / b)
  }

  /** C's strcmp on NUL-terminated strings: the difference of the first differing
      characters, where the end of a string reads as the terminating 0. A string always
      matches itself. */
  function Strcmp(a: string, b: string): (r: int)
    ensures a == b ==> r == 0
    decreases |a|
  {
    if a == [] || b == [] then
      (if a == [] then 0 else a[0] as int) - (if b == [] then 0 else b[0] as int)
    else if a[0] != b[0] then a[0] as int - b[0] as int
    else Strcmp(a[1..], b[1..])
  }

  /** A string without an embedded NUL. */
  predicate NoNul(s: string)
  {
    forall k :: 0 <= k < |s| ==> s[k] != 0 as char
  }

  /** strcmp reports a match exactly when the two strings are equal. */
  lemma {:induction false} StrcmpZeroIffEqual(a: string, b: string)
    requires NoNul(a) && NoNul(b)
    ensures Strcmp(a, b) == 0 <==> a == b
    decreases |a|
  {
    if a != [] && b != [] && a[0] == b[0] {
      StrcmpZeroIffEqual(a[1..], b[1..]);
      if a[1..] == b[1..] {
        assert a == [a[0]] + a[1..] && b == [b[0]] + b[1..];
      }
    }
  }

  /** Adding to a value already reduced modulo 2^32 gives the same residue as adding to
      the unreduced value: this is why a uint32 accumulator equals the true sum mod 2^32. */
  lemma ModAdd(a: int, b: int)
    ensures (a % U32 + b) % U32 == (a + b) % U32
  {
    var q := a / U32;
    assert a == q * U32 + a % U32;
    ModShift(a % U32 + b, q);
  }

  /** A uint32_t accumulator holding the wrapped total stays so after adding k. */
  lemma AddWrapped(acc: int, total: int, k: int)
    requires acc == total % U32
    ensures (acc + k) % U32 == (total + k) % U32
  {
    ModAdd(total, k);
  }

  /** Multiplying a value reduced modulo 2^32 by a constant gives the same residue. */
  lemma ModMul(a: int, c: int)
    ensures (a % U32 * c) % U32 == (a * c) % U32
  {
    var q := a / U32;
    assert a == q * U32 + a % U32;
    assert a * c == (a % U32) * c + (q * c) * U32;
    ModShift((a % U32) * c, q * c);
  }

  lemma ModShift(x: int, k: int)
    ensures (x + k * U32) % U32 == x % U32
  {
    var r := x % U32;
    var q := x / U32;
    assert x + k * U32 == (q + k) * U32 + r;
  }
}
