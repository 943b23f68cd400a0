/**
 * The few PHP string primitives the plugin relies on, with the PHP meaning
 * spelled out: truthiness of strings (`empty`, `if ($s)`), `strpos`, and the
 * decimal rendering of an integer inside a double-quoted string.
 */
module PhpStrings {

  datatype Option<T> = None | Some(value: T)

  /** PHP's truthiness of a string: "" and "0" are false, every other string is true.
      `empty($s)` on a string is the negation of this. */
  predicate Truthy(s: string) {
    s != "" && s != "0"
  }

  /** `pat` occurs in `s` starting at index `i`. */
  predicate OccursAt(s: string, pat: string, i: nat) {
    i + |pat| <= |s| && s[i..i + |pat|] == pat
  }

  predicate Contains(s: string, pat: string) {
    exists i: nat | i <= |s| :: OccursAt(s, pat, i)
  }

  /** `strpos($s, $pat)`: the first index at which `pat` occurs, or false (None). */
  function StrPos(s: string, pat: string): (r: Option<nat>)
    ensures r.Some? ==> OccursAt(s, pat, r.value)
    ensures r.Some? ==> forall j: nat :: j < r.value ==> !OccursAt(s, pat, j)
    ensures r.None? <==> !Contains(s, pat)
  {
    StrPosFrom(s, pat, 0)
  }

  function StrPosFrom(s: string, pat: string, i: nat): (r: Option<nat>)
    ensures r.Some? ==> i <= r.value && OccursAt(s, pat, r.value)
    ensures r.Some? ==> forall j: nat :: i <= j < r.value ==> !OccursAt(s, pat, j)
    ensures r.None? ==> forall j: nat :: i <= j ==> !OccursAt(s, pat, j)
    decreases |s| - i
  {
    if i + |pat| > |s| then None
    else if s[i..i + |pat|] == pat then Some(i)
    else StrPosFrom(s, pat, i + 1)
  }

  function DigitChar(d: nat): (c: char)
    requires d < 10
  {
    "0123456789"[d]
  }

  /** The decimal rendering PHP uses when an integer is interpolated into a string. */
  function Decimal(n: nat): (r: string)
    ensures |r| >= 1
    ensures n >= 10 ==> |r| >= 2
    decreases n
  {
    if n < 10 then [DigitChar(n)] else Decimal(n / 10) + [DigitChar(n % 10)]
  }

  /** Distinct numbers have distinct renderings. */
  lemma {:induction false} DecimalInjective(a: nat, b: nat)
    requires Decimal(a) == Decimal(b)
    ensures a == b
    decreases a
  {
    var da, db := Decimal(a), Decimal(b);
    if a < 10 && b < 10 {
      assert da[0] == db[0];
    } else if a >= 10 && b >= 10 {
      assert da[|da| - 1] == DigitChar(a % 10);
      assert db[|db| - 1] == DigitChar(b % 10);
      assert a % 10 == b % 10;
      assert da[..|da| - 1] == Decimal(a / 10);
      assert db[..|db| - 1] == Decimal(b / 10);
      DecimalInjective(a / 10, b / 10);
    }
  }

  /** The number of c's at the start of s. */
  function LeadingRun(s: string, c: char): (n: nat)
    ensures n <= |s|
    ensures forall k :: 0 <= k < n ==> s[k] == c
    ensures n < |s| ==> s[n] != c
  {
    if s == [] || s[0] != c then 0 else 1 + LeadingRun(s[1..], c)
  }

  /** The number of c's at the end of s. */
  function TrailingRun(s: string, c: char): (n: nat)
    ensures n <= |s|
    ensures forall k :: |s| - n <= k < |s| ==> s[k] == c
    ensures n < |s| ==> s[|s| - 1 - n] != c
  {
    if s == [] || s[|s| - 1] != c then 0 else 1 + TrailingRun(s[..|s| - 1], c)
  }

  /** `trim( $s, $c )`: drop every leading and trailing c. */
  function Trim(s: string, c: char): (r: string)
    ensures exists i, j :: (0 <= i <= j <= |s| && r == s[i..j] &&
      (forall k :: 0 <= k < i ==> s[k] == c) && (forall k :: j <= k < |s| ==> s[k] == c))
    ensures r == [] || (r[0] != c && r[|r| - 1] != c)
  {
    var i := LeadingRun(s, c);
    if i == |s| then
      assert s[i..i] == [];
      []
    else
      var j := |s| - TrailingRun(s, c);
      assert i < j;
      s[i..j]
  }

  /** `explode( $c, $s )`: the pieces between the c's; never empty. */
  function Explode(c: char, s: string): (r: seq<string>)
    ensures |r| >= 1
    ensures forall i :: 0 <= i < |r| ==> c !in r[i]
    ensures Join(c, r) == s
  {
    if s == [] then [[]]
    else
      var rest := Explode(c, s[1..]);
      if s[0] == c then [[]] + rest
      else [[s[0]] + rest[0]] + rest[1..]
  }

  /** `implode( $c, $pieces )` */
  function Join(c: char, pieces: seq<string>): string
    requires |pieces| >= 1
  {
    if |pieces| == 1 then pieces[0] else pieces[0] + [c] + Join(c, pieces[1..])
  }
}
