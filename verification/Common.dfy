/** Types that the modules share. */
module Common {

  datatype Option<+T> = None | Some(value: T)

  type Byte = x: int | 0 <= x < 256

  const TWO64: int := 0x1_0000_0000_0000_0000

  /** A 64-bit value, read as unsigned. */
  type Word = x: int | 0 <= x < TWO64

  function Distance(a: int, b: int): nat {
    if a > b then a - b else b - a
  }

  function Min(a: nat, b: nat): nat {
    if a > b then b else a
  }

  // ---------- Upper and lower case ----------

  const UPPER: string := "ABCDEFGHIJKLMNOPQRSTUVWXYZ"
  const LOWER: string := "abcdefghijklmnopqrstuvwxyz"

  /** The same character, or the two cases of one letter of A to Z. */
  ghost predicate SameLetter(c: char, d: char) {
    c == d || exists k: nat :: k < 26 && ((c == UPPER[k] && d == LOWER[k]) || (c == LOWER[k] && d == UPPER[k]))
  }

  ghost predicate Recased(v: string, w: string) {
    |v| == |w| && forall i :: 0 <= i < |v| ==> SameLetter(v[i], w[i])
  }

  lemma LetterTables(k: nat)
    requires k < 26
    ensures UPPER[k] as int == 65 + k && LOWER[k] as int == 97 + k
  {
  }

  lemma SameLetterByCode(c: char, d: char)
    ensures SameLetter(c, d) <==>
      || c == d || (65 <= c as int <= 90 && d as int == c as int + 32)
      || (65 <= d as int <= 90 && c as int == d as int + 32)
  {
    forall k: nat | k < 26
      ensures UPPER[k] as int == 65 + k && LOWER[k] as int == 97 + k
    {
      LetterTables(k);
    }
    if 65 <= c as int <= 90 && d as int == c as int + 32 {
      assert c == UPPER[c as int - 65] && d == LOWER[c as int - 65];
    }
    if 65 <= d as int <= 90 && c as int == d as int + 32 {
      assert d == UPPER[d as int - 65] && c == LOWER[d as int - 65];
    }
  }
}
