/** The DJB2 string hash of the application, over Python's unbounded integers. */
module Hashing {

  /** The starting value of the DJB2 accumulator. */
  const Djb2Seed: int := 5381

  /** The table size used when the caller gives none. */
  const DefaultTableSize: int := 100

  /** The accumulator after folding `s` from the left: each character multiplies the
      previous value by 33 and adds the character's code point. No reduction happens here. */
  function Djb2(s: string): int
  {
    if s == [] then Djb2Seed else 33 * Djb2(s[..|s| - 1]) + s[|s| - 1] as int
  }

  /** Folding one more character onto `s`. */
  lemma Djb2Snoc(s: string, c: char)
    ensures Djb2(s + [c]) == 33 * Djb2(s) + c as int
  {
  }

  /** The accumulator never drops below its seed, since code points are non-negative. */
  lemma {:induction false} Djb2AtLeastSeed(s: string)
    ensures Djb2(s) >= Djb2Seed
  {
    if s != [] {
      Djb2AtLeastSeed(s[..|s| - 1]);
    }
  }

  /** Python's `a // n`: the quotient rounded towards negative infinity. */
  function PyDiv(a: int, n: int): int
    requires n != 0
  {
    if n < 0 && a % n != 0 then a / n - 1 else a / n
  }

  /** Python's `a % n`: the remainder takes the sign of the divisor and completes the
      floor division, `a == n * (a // n) + a % n`. */
  function PyMod(a: int, n: int): (r: int)
    requires n != 0
    ensures n > 0 ==> 0 <= r < n
    ensures n < 0 ==> n < r <= 0
    ensures a == n * PyDiv(a, n) + r
  {
    var m := a % n;
    if n < 0 && m != 0 then
      assert n * (a / n - 1) == n * (a / n) - n;
      m + n
    else
      m
  }

  /** What `simple_hash` produces: a hash value, or the ZeroDivisionError raised by `% 0`. */
  datatype HashOutcome = Hash(value: int) | ZeroDivisionError

  /** `simple_hash(string, table_size)`: accumulates `(h << 5) + h + ord(c)` over the
      characters, then reduces modulo the table size once, at the end. */
  method SimpleHash(s: string, tableSize: int) returns (r: HashOutcome)
    ensures tableSize == 0 <==> r == ZeroDivisionError
    ensures tableSize != 0 ==> r == Hash(PyMod(Djb2(s), tableSize))
    ensures tableSize > 0 ==> r.Hash? && 0 <= r.value < tableSize
  {
    var hashValue := Djb2Seed;
    for i := 0 to |s|
      invariant hashValue == Djb2(s[..i])
    {
      Djb2Snoc(s[..i], s[i]);
      assert s[..i + 1] == s[..i] + [s[i]];
      hashValue := (hashValue * 32 + hashValue) + s[i] as int;
    }
    assert s[..|s|] == s;
    if tableSize == 0 {
      r := ZeroDivisionError;
    } else {
      r := Hash(PyMod(hashValue, tableSize));
    }
  }

  /** With the default table size the empty string hashes to 5381 % 100, that is 81. */
  lemma EmptyStringDefaultHash()
    ensures PyMod(Djb2(""), DefaultTableSize) == 81
  {
  }
}
