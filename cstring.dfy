/**
  The parts of the C++ standard library that the driver's string handling
  relies on, stated with their exact edge cases: `std::string::npos`, the
  unsigned wrap-around of `size_t` arithmetic, `find`, `find_last_not_of`,
  `substr`, `erase`, `std::to_string`, and the conversion between the bytes
  of a datagram and the characters of a `std::string`.
*/
module CppString {

  /** An octet: an `unsigned char` of a buffer or datagram. */
  type byte = x: int | 0 <= x < 256

  /** `size_t` is 64 bits wide; all of its arithmetic is taken modulo this. */
  const SIZE_T_MODULUS: int := 0x1_0000_0000_0000_0000

  /** `std::string::npos`, the largest `size_t`. */
  const NPOS: int := 0xFFFF_FFFF_FFFF_FFFF

  /** Reduction of an integer to `size_t`, as unsigned arithmetic does it. */
  function SizeT(x: int): (r: int)
    ensures 0 <= r < SIZE_T_MODULUS
    ensures 0 <= x < SIZE_T_MODULUS ==> r == x
    ensures (x - r) % SIZE_T_MODULUS == 0
  {
    if 0 <= x < SIZE_T_MODULUS then x else x % SIZE_T_MODULUS
  }

  /** Every `std::string` is shorter than `npos` (its `max_size()` is smaller). */
  predicate Fits(s: string) {
    |s| < NPOS
  }

  /** `s.find(c, pos)`: the first index at or after `pos` holding `c`, or `npos`. */
  function Find(s: string, c: char, pos: int): (r: int)
    requires Fits(s) && 0 <= pos
    ensures r == NPOS || (pos <= r < |s| && s[r] == c)
    decreases |s| - pos
  {
    if pos >= |s| then NPOS
    else if s[pos] == c then pos
    else Find(s, c, pos + 1)
  }

  /** `find` returns the first occurrence: none is skipped, and `npos` only when there is none. */
  lemma {:induction false} FindFirst(s: string, c: char, pos: int)
    requires Fits(s) && 0 <= pos
    ensures Find(s, c, pos) == NPOS ==> forall i :: pos <= i < |s| ==> s[i] != c
    ensures Find(s, c, pos) != NPOS ==> forall i :: pos <= i < Find(s, c, pos) ==> s[i] != c
    decreases |s| - pos
  {
    if pos < |s| && s[pos] != c {
      FindFirst(s, c, pos + 1);
    }
  }

  /** `s.find_last_not_of(chars)`: the last index whose character is not in `chars`, or `npos`. */
  function FindLastNotOf(s: string, chars: set<char>): (r: int)
    requires Fits(s)
    ensures r == NPOS || (0 <= r < |s| && s[r] !in chars)
    ensures r == NPOS <==> forall i :: 0 <= i < |s| ==> s[i] in chars
    ensures r != NPOS ==> forall i :: r < i < |s| ==> s[i] in chars
  {
    if |s| == 0 then NPOS
    else if s[|s| - 1] !in chars then |s| - 1
    else FindLastNotOf(s[..|s| - 1], chars)
  }

  /**
    `s.substr(pos, n)`: at most `n` characters from `pos`. For `pos > size()`
    the library throws `std::out_of_range`; callers must exclude that.
  */
  function Substr(s: string, pos: int, n: int): (r: string)
    requires 0 <= pos <= |s| && 0 <= n
    ensures |r| == if n < |s| - pos then n else |s| - pos
    ensures r == s[pos..pos + |r|]
  {
    if n < |s| - pos then s[pos..pos + n] else s[pos..]
  }

  /** `s.erase(pos)`: drops everything from `pos` on (throws for `pos > size()`). */
  function Erase(s: string, pos: int): (r: string)
    requires 0 <= pos <= |s|
    ensures |r| == pos && r == s[..pos]
  {
    s[..pos]
  }

  /** The character of a decimal digit. */
  function DigitChar(d: int): (c: char)
    requires 0 <= d < 10
    ensures '0' <= c <= '9' && c as int - '0' as int == d
  {
    ('0' as int + d) as char
  }

  /** `std::abs` on exact integers. */
  function Abs(x: int): nat {
    if x < 0 then -x else x
  }

  /** Decimal digits of a natural number, most significant first, no leading zeros. */
  function NatToString(n: nat): (r: string)
    ensures |r| >= 1 && forall i :: 0 <= i < |r| ==> '0' <= r[i] <= '9'
    ensures |r| > 1 ==> r[0] != '0'
    decreases n
  {
    if n < 10 then [DigitChar(n)] else NatToString(n / 10) + [DigitChar(n % 10)]
  }

  /** `std::to_string(int)`: decimal digits with a leading '-' for negatives. */
  function IntToString(n: int): (r: string)
    ensures n >= 0 ==> r == NatToString(n)
    ensures n < 0 ==> r == "-" + NatToString(-n)
    ensures n < 0 <==> r[0] == '-'
  {
    if n < 0 then "-" + NatToString(-n) else NatToString(n)
  }

  /** The value denoted by a string of decimal digits (the inverse of `NatToString`). */
  function DigitsValue(s: string): (n: nat)
    requires forall i :: 0 <= i < |s| ==> '0' <= s[i] <= '9'
  {
    if |s| == 0 then 0 else 10 * DigitsValue(s[..|s| - 1]) + (s[|s| - 1] as int - '0' as int)
  }

  /** The decimal text of `std::to_string` reads back as the number it was made from. */
  lemma {:induction false} NatToStringRoundTrip(n: nat)
    ensures DigitsValue(NatToString(n)) == n
    decreases n
  {
    if n >= 10 {
      NatToStringRoundTrip(n / 10);
      var r := NatToString(n);
      assert r[..|r| - 1] == NatToString(n / 10);
    }
  }

  /** Different numbers print differently. */
  lemma NatToStringInjective(m: nat, n: nat)
    requires NatToString(m) == NatToString(n)
    ensures m == n
  {
    NatToStringRoundTrip(m);
    NatToStringRoundTrip(n);
  }

  /** A `std::string` built from an `unsigned char` buffer, byte by byte. */
  function Chars(b: seq<byte>): (s: string)
    ensures |s| == |b|
    ensures forall i :: 0 <= i < |b| ==> s[i] as int == b[i]
  {
    seq(|b|, i requires 0 <= i < |b| => b[i] as char)
  }

  /**
    The bytes of a `std::string`, as copied into an `unsigned char` vector:
    each `char` is reduced modulo 256.
  */
  function Octets(s: string): (b: seq<byte>)
    ensures |b| == |s|
    ensures forall i :: 0 <= i < |s| ==> b[i] == s[i] as int % 256
  {
    seq(|s|, i requires 0 <= i < |s| => s[i] as int % 256)
  }

  /** Text whose characters are all octets: what a `std::string` can hold. */
  predicate IsOctetText(s: string) {
    forall i :: 0 <= i < |s| ==> s[i] as int < 256
  }

  /** Turning bytes into text and back gives the same bytes. */
  lemma OctetsOfChars(b: seq<byte>)
    ensures Octets(Chars(b)) == b
  {
  }

  /** Octet text survives being sent as bytes and read back as text. */
  lemma CharsOfOctets(s: string)
    requires IsOctetText(s)
    ensures Chars(Octets(s)) == s
  {
  }
}
