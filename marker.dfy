/**
 * The language marker of term slugs. When a term slug is already taken in
 * another language, pre_term_slug appends "___" and the language slug, so
 * that the host's global uniqueness pass leaves the slug alone; save_term
 * later cuts the stored slug at the FIRST "___" to recover the bare slug and
 * the language.
 */
module Marker {
  import opened PhpStrings

  /** What pre_term_slug puts between a slug and its language slug. */
  const Separator: string := "___"

  /** A slug that comes back unchanged from marking and splitting: it holds
      no separator and does not end in an underscore (a trailing underscore
      would join the separator and move the first "___" one place left). */
  predicate SplitsCleanly(slug: string) {
    !Contains(slug, Separator) && (slug == [] || slug[|slug| - 1] != '_')
  }

  /** `$slug .= '___' . $lang->slug` */
  function AppendMarker(slug: string, lang: string): (r: string)
    ensures |r| == |slug| + |Separator| + |lang|
    ensures r[..|slug|] == slug && r[|slug| + |Separator|..] == lang
    ensures OccursAt(r, Separator, |slug|)
  {
    slug + Separator + lang
  }

  /** The split of save_term: the text before the first separator and the
      text after it, or None when the slug holds no separator. */
  function SplitMarker(s: string): (r: Option<(string, string)>)
    ensures r.None? <==> !Contains(s, Separator)
    ensures r.Some? ==> AppendMarker(r.value.0, r.value.1) == s
    ensures r.Some? ==> SplitsCleanly(r.value.0)
  {
    match StrPos(s, Separator)
    case None => None
    case Some(p) =>
      FirstOccurrenceSplitsCleanly(s, p);
      Some((s[..p], s[p + |Separator|..]))
  }

  /** An occurrence inside a prefix is an occurrence in the whole string. */
  lemma OccursInPrefix(s: string, k: nat, j: nat)
    requires k <= |s| && OccursAt(s[..k], Separator, j)
    ensures OccursAt(s, Separator, j)
  {
    assert s[..k][j..j + |Separator|] == s[j..j + |Separator|];
  }

  /** An underscore just before a separator starts an earlier separator. */
  lemma UnderscoreBeforeSeparator(s: string, p: nat)
    requires 0 < p && OccursAt(s, Separator, p) && s[p - 1] == '_'
    ensures OccursAt(s, Separator, p - 1)
  {
    assert s[p..p + 3][0] == s[p] && s[p..p + 3][1] == s[p + 1];
    assert s[p - 1..p + 2] == [s[p - 1], s[p], s[p + 1]];
  }

  /** Cutting at the first separator leaves a prefix that splits cleanly. */
  lemma FirstOccurrenceSplitsCleanly(s: string, p: nat)
    requires OccursAt(s, Separator, p)
    requires forall j: nat :: j < p ==> !OccursAt(s, Separator, j)
    ensures AppendMarker(s[..p], s[p + |Separator|..]) == s
    ensures SplitsCleanly(s[..p])
  {
    var bare := s[..p];
    assert bare + Separator + s[p + |Separator|..] == s;
    forall j: nat | j <= |bare| ensures !OccursAt(bare, Separator, j) {
      if OccursAt(bare, Separator, j) {
        OccursInPrefix(s, p, j);
      }
    }
    if bare != [] && bare[|bare| - 1] == '_' {
      UnderscoreBeforeSeparator(s, p);
    }
  }

  /** Marking then splitting gives back exactly the slug and the language
      if and only if the slug splits cleanly. */
  lemma SplitAfterAppend(slug: string, lang: string)
    ensures SplitMarker(AppendMarker(slug, lang)) == Some((slug, lang)) <==> SplitsCleanly(slug)
  {
    var s := AppendMarker(slug, lang);
    if SplitsCleanly(slug) {
      var n := |slug|;
      forall j: nat | j < n ensures !OccursAt(s, Separator, j) {
        if j + |Separator| <= n {
          assert slug[j..j + |Separator|] == s[j..j + |Separator|];
          assert !OccursAt(slug, Separator, j);
        } else {
          assert j + |Separator| <= |s| ==> s[j..j + |Separator|][n - 1 - j] == s[n - 1] == slug[n - 1];
        }
      }
      var p := StrPos(s, Separator);
      assert p.Some?;
      assert p.value == n;
      assert s[..n] == slug && s[n + |Separator|..] == lang;
    }
  }

  /** A slug with no separator but a trailing underscore does not come back:
      "a_" marked with "en" splits into "a" and "_en". */
  lemma TrailingUnderscoreSplitsEarly()
    ensures SplitMarker(AppendMarker("a_", "en")) == Some(("a", "_en"))
  {
    var s := AppendMarker("a_", "en");
    assert s == "a____en";
    assert OccursAt(s, Separator, 1);
    assert s[0..3][0] == 'a';
    assert !OccursAt(s, Separator, 0);
    assert StrPos(s, Separator) == Some(1);
    assert s[..1] == "a" && s[4..] == "_en";
  }
}
