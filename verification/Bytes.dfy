/** Shared value types, and the linear scan that the tables and the parsers have in common. */
module Bytes {

  /** uint8_t / guchar. */
  type byte = b: int | 0 <= b < 256

  datatype Option<+T> = None | Some(value: T)

  /** Conversion of an integer to uint8_t, as C does it on assignment. */
  function ToByte(n: int): byte {
    n % 256
  }

  /** The code of an ASCII character. */
  function Ascii(c: char): byte {
    c as int % 256
  }

  /** Index of the first element at or after `from` that satisfies p, or the length if there is none. */
  function IndexFrom<T>(s: seq<T>, p: T -> bool, from: nat): (k: nat)
    requires from <= |s|
    ensures from <= k <= |s|
    ensures forall i | from <= i < k :: !p(s[i])
    ensures k < |s| ==> p(s[k])
    decreases |s| - from
  {
    if from == |s| || p(s[from]) then from else IndexFrom(s, p, from + 1)
  }

  /** Index of the first element that satisfies p. */
  function First<T>(s: seq<T>, p: T -> bool): (r: Option<nat>)
    ensures r.Some? ==> r.value < |s| && p(s[r.value]) && forall i | 0 <= i < r.value :: !p(s[i])
    ensures r.None? ==> forall i | 0 <= i < |s| :: !p(s[i])
  {
    var k := IndexFrom(s, p, 0);
    if k == |s| then None else Some(k)
  }
}
