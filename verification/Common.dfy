/** Failure-carrying values shared by the models. */
module Common {
  datatype Option<+T> = None | Some(value: T)

  datatype Result<+T, +E> = Ok(value: T) | Err(error: E)

  /** The name of an address or contract Seth knows nothing about. */
  const UNKNOWN := "unknown"

  const TWO_63: int := 0x8000_0000_0000_0000
  const TWO_64: int := 0x1_0000_0000_0000_0000

  /** Two's complement int64. */
  function Int64(x: int): (r: int)
    ensures -TWO_63 <= r < TWO_63 && (x - r) % TWO_64 == 0
  {
    var r := x % TWO_64;
    if r < TWO_63 then r else r - TWO_64
  }

  lemma Int64IsExactBelowTwo63(x: nat)
    ensures Int64(x) == x <==> x < TWO_63
    ensures Int64(x) <= x
  {
  }

  /** A float64 as far as sums of non-negative terms go. */
  datatype Float = Finite(value: real) | PlusInf | NaN

  /** No value occurs twice. */
  ghost predicate Distinct<T>(s: seq<T>) {
    forall i, j :: 0 <= i < j < |s| ==> s[i] != s[j]
  }

  /** `strings.Contains`: `sub` occurs in `s` as a contiguous block. */
  predicate Contains(s: string, sub: string) {
    exists i :: 0 <= i <= |s| && OccursAt(s, sub, i)
  }

  predicate OccursAt(s: string, sub: string, i: nat) {
    i + |sub| <= |s| && s[i..i + |sub|] == sub
  }

  lemma ContainsExactly(s: string, sub: string)
    ensures Contains(s, sub) <==> exists before, after :: s == before + sub + after
  {
    if Contains(s, sub) {
      var i: nat :| i <= |s| && OccursAt(s, sub, i);
      assert s == s[..i] + sub + s[i + |sub|..];
    }
    forall before, after | s == before + sub + after ensures Contains(s, sub) {
      assert s[|before|..|before| + |sub|] == sub;
      assert OccursAt(s, sub, |before|);
    }
  }

  predicate IsDigit(c: char) { '0' <= c <= '9' }

  predicate IsHexDigit(c: char) { IsDigit(c) || 'a' <= c <= 'f' || 'A' <= c <= 'F' }

  predicate IsLowerHexDigit(c: char) { IsDigit(c) || 'a' <= c <= 'f' }

  function LowerChar(c: char): char {
    if 'A' <= c <= 'Z' then ((c as int) + 32) as char else c
  }
}
