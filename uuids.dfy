/**
 * Identifiers. A UUID is sixteen bytes; Foundation's `uuidString` writes them as 32
 * upper-case hexadecimal digits, high nibble first, in groups of 8-4-4-4-12 separated by
 * dashes. `ParseUuid` reads that form back, which lets the model state that a marker url
 * ending in `uuidString` determines the marker's id.
 */
module Uuids {
  import opened Wrappers

  type Byte = x: nat | x < 256

  /** The sixteen bytes of a UUID. */
  type Uuid = b: seq<Byte> | |b| == 16 witness [0, 0, 0, 0, 0, 0, 0, 0, 0, 0, 0, 0, 0, 0, 0, 0]

  const HexDigits: string := "0123456789ABCDEF"

  function HexDigit(n: nat): char
    requires n < 16
  {
    HexDigits[n]
  }

  /** The value of an upper-case hexadecimal digit, or `None` for any other character. */
  function DigitValue(c: char): (r: Option<nat>)
    ensures r.Some? ==> r.value < 16 && HexDigit(r.value) == c
    ensures r.None? ==> c !in HexDigits
  {
    if '0' <= c <= '9' then Some(c as nat - '0' as nat)
    else if 'A' <= c <= 'F' then Some(c as nat - 'A' as nat + 10)
    else None
  }

  lemma DigitRoundTrip(n: nat)
    requires n < 16
    ensures DigitValue(HexDigit(n)) == Some(n)
  {
  }

  /** The positions of the four dashes in the 36-character form. */
  predicate IsDash(i: nat)
  {
    i == 8 || i == 13 || i == 18 || i == 23
  }

  /** Which of the 32 nibbles the character at position `i` (not a dash) shows. */
  function NibbleAt(i: nat): (n: nat)
    requires i < 36 && !IsDash(i)
    ensures n < 32
  {
    if i < 8 then i else if i < 13 then i - 1 else if i < 18 then i - 2 else if i < 23 then i - 3 else i - 4
  }

  /** Where nibble `n` sits in the 36-character form. */
  function NibblePos(n: nat): (i: nat)
    requires n < 32
    ensures i < 36 && !IsDash(i) && NibbleAt(i) == n
  {
    if n < 8 then n else if n < 12 then n + 1 else if n < 16 then n + 2 else if n < 20 then n + 3 else n + 4
  }

  /** Nibble `n` of the UUID, counting from the high nibble of the first byte. */
  function Nibble(u: Uuid, n: nat): (v: nat)
    requires n < 32
    ensures v < 16
  {
    if n % 2 == 0 then u[n / 2] / 16 else u[n / 2] % 16
  }

  /** Foundation's `uuidString`. */
  function UuidString(u: Uuid): (s: string)
    ensures |s| == 36 && WellFormed(s)
    ensures forall i | 0 <= i < 36 && !IsDash(i) :: DigitValue(s[i]) == Some(Nibble(u, NibbleAt(i)))
  {
    var s := seq(36, i requires 0 <= i < 36 => if IsDash(i) then '-' else HexDigit(Nibble(u, NibbleAt(i))));
    assert forall i | 0 <= i < 36 && !IsDash(i) :: DigitValue(s[i]) == Some(Nibble(u, NibbleAt(i))) by {
      forall i | 0 <= i < 36 && !IsDash(i) ensures DigitValue(s[i]) == Some(Nibble(u, NibbleAt(i))) {
        DigitRoundTrip(Nibble(u, NibbleAt(i)));
      }
    }
    s
  }

  /** `s` has dashes where the 36-character form has them and digits everywhere else. */
  predicate WellFormed(s: string)
  {
    |s| == 36 && forall i | 0 <= i < 36 :: if IsDash(i) then s[i] == '-' else DigitValue(s[i]).Some?
  }

  /** The byte written by the two digits of nibbles `2k` and `2k + 1`. */
  function ByteAt(s: string, k: nat): Byte
    requires WellFormed(s) && k < 16
  {
    DigitValue(s[NibblePos(2 * k)]).value * 16 + DigitValue(s[NibblePos(2 * k + 1)]).value
  }

  /** Reads the 36-character form back; `None` for anything that is not in that form. */
  function ParseUuid(s: string): (r: Option<Uuid>)
    ensures r.Some? <==> WellFormed(s)
  {
    if WellFormed(s) then Some(seq(16, k requires 0 <= k < 16 => ByteAt(s, k))) else None
  }

  /** Round trip: the string form of a UUID parses back to the same UUID. */
  lemma UuidRoundTrip(u: Uuid)
    ensures ParseUuid(UuidString(u)) == Some(u)
  {
    var s := UuidString(u);
    var v := ParseUuid(s).value;
    forall k | 0 <= k < 16 ensures v[k] == u[k] {
      var hi, lo := NibblePos(2 * k), NibblePos(2 * k + 1);
      assert DigitValue(s[hi]) == Some(u[k] / 16);
      assert DigitValue(s[lo]) == Some(u[k] % 16);
    }
    assert v == u;
  }

  /** Distinct UUIDs have distinct string forms. */
  lemma UuidStringInjective(u: Uuid, v: Uuid)
    ensures UuidString(u) == UuidString(v) ==> u == v
  {
    UuidRoundTrip(u);
    UuidRoundTrip(v);
  }
}
