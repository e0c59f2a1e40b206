/** Text, and the values of the fixed-width integer types, as the formatter and the JSON code share them. */
module Strings {

  lemma Assoc(a: string, b: string, c: string)
    ensures (a + b) + c == a + (b + c)
  {
  }

  /** A C string ends at its first NUL. */
  function UntilNul(s: string): (r: string)
    ensures |r| <= |s|
  {
    if s == [] || s[0] == '\0' then "" else [s[0]] + UntilNul(s[1..])
  }

  lemma {:induction false} CutAtNul(s: string)
    ensures var r := UntilNul(s); r <= s && NulFree(r) && (r != s ==> s[|r|] == '\0')
  {
    if s != [] && s[0] != '\0' {
      CutAtNul(s[1..]);
      var r := UntilNul(s[1..]);
      assert s == [s[0]] + s[1..] && s[..|r| + 1] == [s[0]] + r;
    }
  }

  predicate NulFree(s: string) {
    forall i | 0 <= i < |s| :: s[i] != '\0'
  }
}

module IntWidths {

  datatype Width = W8 | W16 | W32 | W64

  function Modulus(w: Width): int {
    match w
    case W8 => 0x100
    case W16 => 0x1_0000
    case W32 => 0x1_0000_0000
    case W64 => 0x1_0000_0000_0000_0000
  }

  predicate IsUnsigned(w: Width, n: int) {
    0 <= n < Modulus(w)
  }

  predicate IsSigned(w: Width, n: int) {
    -Modulus(w) <= 2 * n < Modulus(w)
  }

  /** The most negative value of a signed type has no negation in it. */
  predicate IsNegatable(w: Width, n: int) {
    IsSigned(w, n) && -Modulus(w) < 2 * n
  }
}
