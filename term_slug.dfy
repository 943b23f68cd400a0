/**
 * Term slugs unique per language (PolylangShareSlugTerm).
 *
 * The terms table is a finite map from term id to a row holding the slug,
 * the taxonomy, the parent and the Polylang language of the term. Polylang's
 * term_exists_by_slug becomes ExistsInLanguage; the host's get_term becomes
 * a lookup restricted to one taxonomy.
 */
module TermSlug {
  import opened PhpStrings
  import opened Site
  import opened Marker

  datatype TermRow = TermRow(slug: string, taxonomy: string, parent: nat, lang: Option<string>)

  /** Term ids start at 1; a parent of 0 means "no parent". */
  type TermId = n: nat | n > 0 witness 1

  type TermRows = map<TermId, TermRow>

  /** The term handed to unique_term_slug; a termId of 0 is an empty term_id. */
  datatype TermRef = TermRef(termId: nat, taxonomy: string, parent: nat)

  /** term_exists_by_slug( $slug, $lang [, $taxonomy] ): some term has this
      slug in this language (and in this taxonomy, when one is given). */
  predicate ExistsInLanguage(rows: TermRows, slug: string, lang: string, taxonomy: Option<string>) {
    exists id :: id in rows && rows[id].slug == slug && rows[id].lang == Some(lang) &&
      (taxonomy.None? || rows[id].taxonomy == taxonomy.value)
  }

  /** get_term( $id, $taxonomy ) returns a WP_Term. */
  predicate IsTermOf(rows: TermRows, id: nat, taxonomy: string) {
    id in rows && rows[id].taxonomy == taxonomy
  }

  /** Another term of the same language and taxonomy already uses `slug`. */
  predicate CollidesInLanguage(rows: TermRows, slug: string, lang: string, term: TermRef) {
    exists id :: id in rows && id != term.termId && rows[id].slug == slug &&
      rows[id].lang == Some(lang) && rows[id].taxonomy == term.taxonomy
  }

  // ---------------------------------------------------------------------
  // Stage 2: the walk up the parent chain

  /** The outcome of the parent walk: a slug free in the language, or the
      slug reached when the chain ended. */
  datatype Walk = Free(slug: string) | Exhausted(slug: string)

  /** Terms whose slug is longer than n characters. */
  function LongerSlugs(rows: TermRows, n: nat): set<TermId> {
    set id | id in rows && |rows[id].slug| > n
  }

  /** A slug that grows past an existing slug leaves fewer terms longer than it:
      this is why the walk stops even on a cyclic parent chain. */
  lemma LongerSlugsShrink(rows: TermRows, shorter: string, longer: string, holder: TermId)
    requires |shorter| < |longer|
    requires holder in rows && rows[holder].slug == longer
    ensures |LongerSlugs(rows, |longer|)| < |LongerSlugs(rows, |shorter|)|
  {
    var small, large := LongerSlugs(rows, |longer|), LongerSlugs(rows, |shorter|);
    assert holder in large - small;
    assert large == small + (large - small);
  }

  /** The walk of unique_term_slug from `parent`: append "-" and the parent's
      slug, stop at the first candidate that is free in the language (looked
      up WITHOUT the taxonomy), and give up at a missing parent or a root. */
  function WalkParents(rows: TermRows, slug: string, lang: string, taxonomy: string, parent: nat): (w: Walk)
    ensures |slug| <= |w.slug| && w.slug[..|slug|] == slug
    ensures w.slug == slug || w.slug[|slug|] == '-'
    ensures w.Free? ==> w.slug != slug && !ExistsInLanguage(rows, w.slug, lang, None)
    ensures w.Exhausted? && w.slug != slug ==> ExistsInLanguage(rows, w.slug, lang, None)
    decreases |LongerSlugs(rows, |slug|)|
  {
    if parent == 0 || !IsTermOf(rows, parent, taxonomy) then Exhausted(slug)
    else
      var candidate := slug + "-" + rows[parent].slug;
      if !ExistsInLanguage(rows, candidate, lang, None) then Free(candidate)
      else if rows[parent].parent == 0 then Exhausted(candidate)
      else
        var holder :| holder in rows && rows[holder].slug == candidate && rows[holder].lang == Some(lang);
        LongerSlugsShrink(rows, slug, candidate, holder);
        var w := WalkParents(rows, candidate, lang, taxonomy, rows[parent].parent);
        assert w.slug[..|slug|] == w.slug[..|candidate|][..|slug|];
        w
  }

  /** `parent` names a term of the taxonomy: the loop goes on past it. */
  predicate IsLink(rows: TermRows, taxonomy: string, parent: nat) {
    parent != 0 && IsTermOf(rows, parent, taxonomy)
  }

  /** The slug after k steps of the walk from `parent`: `slug`, then "-" and
      the slug of the parent, of its parent, and so on; None when the chain
      of terms of the taxonomy is shorter than k. */
  function Extended(rows: TermRows, taxonomy: string, slug: string, parent: nat, k: nat): Option<string>
    decreases k
  {
    if k == 0 then Some(slug)
    else if !IsLink(rows, taxonomy, parent) then None
    else Extended(rows, taxonomy, slug + "-" + rows[parent].slug, rows[parent].parent, k - 1)
  }

  /** Step j of the walk exists and its candidate is used in the language. */
  predicate StepUsed(rows: TermRows, taxonomy: string, slug: string, parent: nat, lang: string, j: nat) {
    Extended(rows, taxonomy, slug, parent, j).Some? &&
    ExistsInLanguage(rows, Extended(rows, taxonomy, slug, parent, j).value, lang, None)
  }

  /** The walk ended after k steps with outcome w: every earlier candidate was
      used in the language; a Free outcome is the first unused candidate; an
      Exhausted outcome is where the chain of terms ran out. */
  predicate WalkedTo(rows: TermRows, taxonomy: string, slug: string, parent: nat, lang: string, k: nat, w: Walk) {
    Extended(rows, taxonomy, slug, parent, k) == Some(w.slug) &&
    (forall j :: 1 <= j < k ==> StepUsed(rows, taxonomy, slug, parent, lang, j)) &&
    (w.Free? ==> 1 <= k && !ExistsInLanguage(rows, w.slug, lang, None)) &&
    (w.Exhausted? ==>
      (1 <= k ==> ExistsInLanguage(rows, w.slug, lang, None)) &&
      Extended(rows, taxonomy, slug, parent, k + 1).None?)
  }

  /** WalkParents follows the chain step by step: its outcome is the first
      candidate unused in the language, or the last candidate when the chain
      of terms of the taxonomy ends first. */
  lemma {:induction false} WalkParentsSteps(rows: TermRows, slug: string, lang: string, taxonomy: string, parent: nat)
    ensures exists k :: WalkedTo(rows, taxonomy, slug, parent, lang, k, WalkParents(rows, slug, lang, taxonomy, parent))
    decreases |LongerSlugs(rows, |slug|)|
  {
    var w := WalkParents(rows, slug, lang, taxonomy, parent);
    if !IsLink(rows, taxonomy, parent) {
      assert WalkedTo(rows, taxonomy, slug, parent, lang, 0, w);
    } else {
      var candidate := slug + "-" + rows[parent].slug;
      var next := rows[parent].parent;
      assert Extended(rows, taxonomy, slug, parent, 1) == Some(candidate);
      if !ExistsInLanguage(rows, candidate, lang, None) || next == 0 {
        assert Extended(rows, taxonomy, slug, parent, 2) == Extended(rows, taxonomy, candidate, next, 1);
        assert WalkedTo(rows, taxonomy, slug, parent, lang, 1, w);
      } else {
        var holder :| holder in rows && rows[holder].slug == candidate && rows[holder].lang == Some(lang);
        LongerSlugsShrink(rows, slug, candidate, holder);
        assert w == WalkParents(rows, candidate, lang, taxonomy, next);
        WalkParentsSteps(rows, candidate, lang, taxonomy, next);
        var k': nat :| WalkedTo(rows, taxonomy, candidate, next, lang, k', w);
        forall j: nat | 1 <= j
          ensures Extended(rows, taxonomy, slug, parent, j) == Extended(rows, taxonomy, candidate, next, j - 1)
        {
        }
        forall j | 1 <= j < k' + 1 ensures StepUsed(rows, taxonomy, slug, parent, lang, j) {
          if j > 1 {
            assert StepUsed(rows, taxonomy, candidate, next, lang, j - 1);
          }
        }
        assert WalkedTo(rows, taxonomy, slug, parent, lang, k' + 1, w);
      }
    }
  }

  // ---------------------------------------------------------------------
  // Stage 3: the numeric suffix

  /** `$slug . "-$num"` */
  function Suffixed(slug: string, n: nat): (r: string)
    ensures |r| > |slug| && r[..|slug|] == slug && r[|slug|] == '-'
  {
    slug + "-" + Decimal(n)
  }

  lemma SuffixedInjective(slug: string, a: nat, b: nat)
    requires Suffixed(slug, a) == Suffixed(slug, b)
    ensures a == b
  {
    assert Decimal(a) == Suffixed(slug, a)[|slug| + 1..];
    assert Decimal(b) == Suffixed(slug, b)[|slug| + 1..];
    DecimalInjective(a, b);
  }

  /** Every slug of the terms table (SELECT slug FROM terms). */
  function SlugsOf(rows: TermRows): set<string> {
    set id | id in rows :: rows[id].slug
  }

  /** The candidates tried before the number n. */
  function Tried(slug: string, n: nat): set<string> {
    set k | 2 <= k < n :: Suffixed(slug, k)
  }

  /** The candidate for n - 1 is not among those tried before it. */
  lemma LastTriedIsNew(slug: string, n: nat)
    requires 3 <= n
    ensures Suffixed(slug, n - 1) !in Tried(slug, n - 1)
  {
    if Suffixed(slug, n - 1) in Tried(slug, n - 1) {
      var k :| 2 <= k < n - 1 && Suffixed(slug, k) == Suffixed(slug, n - 1);
      SuffixedInjective(slug, k, n - 1);
    }
  }

  lemma {:induction false} TriedSize(slug: string, n: nat)
    requires 2 <= n
    ensures |Tried(slug, n)| == n - 2
  {
    if n > 2 {
      TriedSize(slug, n - 1);
      LastTriedIsNew(slug, n);
      assert Tried(slug, n) == Tried(slug, n - 1) + {Suffixed(slug, n - 1)};
    } else {
      assert Tried(slug, n) == {};
    }
  }

  /** If every candidate below n is taken, there are at least n - 2 slugs. */
  lemma TriedBound(taken: set<string>, slug: string, n: nat)
    requires 2 <= n
    requires forall k :: 2 <= k < n ==> Suffixed(slug, k) in taken
    ensures n - 2 <= |taken|
  {
    TriedSize(slug, n);
    var tried := Tried(slug, n);
    assert tried <= taken;
    assert taken == tried + (taken - tried);
  }

  /** The smallest number from n on whose candidate is not taken; it exists
      because the table is finite and distinct numbers give distinct candidates. */
  function FirstFreeSuffix(taken: set<string>, slug: string, n: nat): (r: nat)
    requires 2 <= n
    requires forall k :: 2 <= k < n ==> Suffixed(slug, k) in taken
    ensures n <= r && Suffixed(slug, r) !in taken
    ensures forall k :: 2 <= k < r ==> Suffixed(slug, k) in taken
    decreases |taken| - (n - 2)
  {
    if Suffixed(slug, n) !in taken then n
    else
      TriedBound(taken, slug, n + 1);
      FirstFreeSuffix(taken, slug, n + 1)
  }

  /** The query for another term with the slug (any term when there is no
      term id) and the truthiness test on its answer:
      the value fetched is the slug itself, so "" and "0" never count as taken. */
  predicate TakenElsewhere(rows: TermRows, slug: string, termId: nat) {
    Truthy(slug) && exists id :: id in rows && rows[id].slug == slug && (termId == 0 || id != termId)
  }

  // ---------------------------------------------------------------------
  // unique_term_slug

  /** Where the parent walk leaves the slug: the walk runs only for a
      hierarchical taxonomy and a term with a parent. */
  function WalkOutcome(rows: TermRows, config: Config, slug: string, lang: string, term: TermRef): Walk {
    if term.taxonomy in config.hierarchicalTaxonomies && term.parent != 0
    then WalkParents(rows, slug, lang, term.taxonomy, term.parent)
    else Exhausted(slug)
  }

  /** The slug unique_term_slug settles on (the wp_unique_term_slug filter is
      taken to be the identity). */
  function UniqueTermSlug(rows: TermRows, config: Config, slug: string, lang: string, term: TermRef): (r: string)
    ensures !ExistsInLanguage(rows, slug, lang, Some(term.taxonomy)) ==> r == slug
    ensures |slug| <= |r| && r[..|slug|] == slug
  {
    if !ExistsInLanguage(rows, slug, lang, Some(term.taxonomy)) then slug
    else
      var walk := WalkOutcome(rows, config, slug, lang, term);
      if walk.Free? then walk.slug
      else if TakenElsewhere(rows, walk.slug, term.termId) then
        var r := Suffixed(walk.slug, FirstFreeSuffix(SlugsOf(rows), walk.slug, 2));
        assert r[..|slug|] == r[..|walk.slug|][..|slug|];
        r
      else walk.slug
  }

  /** When the slug is taken in its language and the walk (if any) ends
      without a free candidate, the numeric stage gives the smallest free
      "-n" (n >= 2) after the slug the walk reached, provided another term
      holds that slug. */
  lemma NumericSuffixIsSmallest(rows: TermRows, config: Config, slug: string, lang: string, term: TermRef)
    requires ExistsInLanguage(rows, slug, lang, Some(term.taxonomy))
    requires WalkOutcome(rows, config, slug, lang, term).Exhausted?
    requires TakenElsewhere(rows, WalkOutcome(rows, config, slug, lang, term).slug, term.termId)
    ensures var walked := WalkOutcome(rows, config, slug, lang, term).slug;
      exists n :: (2 <= n && UniqueTermSlug(rows, config, slug, lang, term) == Suffixed(walked, n) &&
        Suffixed(walked, n) !in SlugsOf(rows) &&
        forall k :: 2 <= k < n ==> Suffixed(walked, k) in SlugsOf(rows))
  {
    var walked := WalkOutcome(rows, config, slug, lang, term).slug;
    var n := FirstFreeSuffix(SlugsOf(rows), walked, 2);
    assert UniqueTermSlug(rows, config, slug, lang, term) == Suffixed(walked, n);
  }

  /** No numeric suffix is added when the walk found a free candidate, or
      when no other term holds the slug the walk reached (the query finds no
      row, or finds a falsy slug). */
  lemma WalkedSlugKept(rows: TermRows, config: Config, slug: string, lang: string, term: TermRef)
    requires ExistsInLanguage(rows, slug, lang, Some(term.taxonomy))
    requires WalkOutcome(rows, config, slug, lang, term).Free? ||
             !TakenElsewhere(rows, WalkOutcome(rows, config, slug, lang, term).slug, term.termId)
    ensures UniqueTermSlug(rows, config, slug, lang, term) == WalkOutcome(rows, config, slug, lang, term).slug
  {
  }

  /** A truthy slug comes out of unique_term_slug unused by any other term of
      the same language and taxonomy. */
  lemma UniqueTermSlugIsFree(rows: TermRows, config: Config, slug: string, lang: string, term: TermRef)
    requires Truthy(slug)
    ensures !CollidesInLanguage(rows, UniqueTermSlug(rows, config, slug, lang, term), lang, term)
  {
    var r := UniqueTermSlug(rows, config, slug, lang, term);
    if ExistsInLanguage(rows, slug, lang, Some(term.taxonomy)) {
      var walk := WalkOutcome(rows, config, slug, lang, term);
      if walk.Free? {
        assert r == walk.slug;
      } else if TakenElsewhere(rows, walk.slug, term.termId) {
        assert r !in SlugsOf(rows);
        assert forall id :: id in rows ==> rows[id].slug in SlugsOf(rows);
      } else {
        assert r == walk.slug;
        assert Truthy(walk.slug) by {
          assert walk.slug == slug || walk.slug[|slug|] == '-';
        }
      }
    }
  }

  /** The truthiness test keeps a slug "0" even when another term of the same
      language and taxonomy already has it. */
  lemma ZeroSlugKeptDespiteCollision()
    ensures var rows := map[1 := TermRow("0", "category", 0, Some("en"))];
      var term := TermRef(2, "category", 0);
      UniqueTermSlug(rows, Config(1, {}, {}, {"category"}, {}, [], None), "0", "en", term) == "0" &&
      CollidesInLanguage(rows, "0", "en", term)
  {
    var rows := map[1 := TermRow("0", "category", 0, Some("en"))];
    assert rows[1].slug == "0";
    assert ExistsInLanguage(rows, "0", "en", Some("category"));
  }

  /** The while of unique_term_slug over the parent chain, from `parent`. */
  method ClimbParents(rows: TermRows, slug: string, lang: string, taxonomy: string, parent: nat) returns (w: Walk)
    ensures w == WalkParents(rows, slug, lang, taxonomy, parent)
  {
    var current := slug;
    var theParent := parent;
    while theParent != 0
      invariant WalkParents(rows, current, lang, taxonomy, theParent) == WalkParents(rows, slug, lang, taxonomy, parent)
      decreases |LongerSlugs(rows, |current|)|
    {
      if !IsTermOf(rows, theParent, taxonomy) {
        break;
      }
      var parentTerm := rows[theParent];
      var candidate := current + "-" + parentTerm.slug;
      if !ExistsInLanguage(rows, candidate, lang, None) {
        return Free(candidate);
      }
      var holder :| holder in rows && rows[holder].slug == candidate && rows[holder].lang == Some(lang);
      LongerSlugsShrink(rows, current, candidate, holder);
      current := candidate;
      if parentTerm.parent == 0 {
        break;
      }
      theParent := parentTerm.parent;
    }
    w := Exhausted(current);
  }

  /** The do-while of unique_term_slug: try `slug-2`, `slug-3`, ... until a
      candidate no term uses. */
  method NumberedSlug(slugs: set<string>, slug: string) returns (altSlug: string)
    ensures altSlug == Suffixed(slug, FirstFreeSuffix(slugs, slug, 2))
  {
    var num := 2;
    altSlug := Suffixed(slug, num);
    num := num + 1;
    var slugCheck := altSlug in slugs;
    while slugCheck
      invariant 3 <= num
      invariant altSlug == Suffixed(slug, num - 1)
      invariant slugCheck == (altSlug in slugs)
      invariant forall k :: 2 <= k < num - 1 ==> Suffixed(slug, k) in slugs
      decreases |slugs| - (num - 3)
    {
      TriedBound(slugs, slug, num);
      altSlug := Suffixed(slug, num);
      num := num + 1;
      slugCheck := altSlug in slugs;
    }
    ghost var n := FirstFreeSuffix(slugs, slug, 2);
    assert n == num - 1 by {
      assert !(n < num - 1);
      assert !(n > num - 1);
    }
  }

  /** unique_term_slug as the PHP code runs it: the quick check, the parent
      walk, then the numeric suffix when another term still has the slug. */
  method ComputeUniqueTermSlug(rows: TermRows, config: Config, original: string, lang: string, term: TermRef)
    returns (slug: string)
    ensures slug == UniqueTermSlug(rows, config, original, lang, term)
  {
    slug := original;
    if !ExistsInLanguage(rows, slug, lang, Some(term.taxonomy)) {
      return;
    }
    if term.taxonomy in config.hierarchicalTaxonomies && term.parent != 0 {
      var walk := ClimbParents(rows, slug, lang, term.taxonomy, term.parent);
      if walk.Free? {
        return walk.slug;
      }
      slug := walk.slug;
    }
    var taken := Truthy(slug) &&
      if term.termId != 0
      then exists id :: id in rows && rows[id].slug == slug && id != term.termId
      else exists id :: id in rows && rows[id].slug == slug;
    if taken {
      slug := NumberedSlug(SlugsOf(rows), slug);
    }
  }

  // ---------------------------------------------------------------------
  // save_term

  /** The terms table seen through `$wpdb`. */
  class TermTable {
    var rows: TermRows

    constructor (rows: TermRows)
      ensures this.rows == rows
    {
      this.rows := rows;
    }
  }

  /** The table after save_term( $term_id, $tt_id, $taxonomy ). */
  function SavedRows(rows: TermRows, config: Config, termId: nat, taxonomy: string): (r: TermRows)
    ensures r.Keys == rows.Keys
    ensures forall id :: id in rows && id != termId ==> r[id] == rows[id]
    ensures termId in rows ==> r[termId] == rows[termId].(slug := r[termId].slug)
    ensures termId in rows && !Contains(rows[termId].slug, Separator) ==> r == rows
    ensures taxonomy !in config.translatedTaxonomies || config.forceLang == 0 ==> r == rows
  {
    if taxonomy !in config.translatedTaxonomies || config.forceLang == 0 then rows
    else if !IsTermOf(rows, termId, taxonomy) then rows
    else match SplitMarker(rows[termId].slug)
      case None => rows
      case Some((bare, lang)) =>
        var term := TermRef(termId, taxonomy, rows[termId].parent);
        rows[termId := rows[termId].(slug := UniqueTermSlug(rows, config, bare, lang, term))]
  }

  /** After save_term, a term whose stored slug carried a marker has the bare
      slug, possibly made unique, and no other term of the marker's language
      and the same taxonomy uses it; a bare slug no term of that language and
      taxonomy holds is kept as it is. */
  lemma SaveTermStripsMarker(rows: TermRows, config: Config, termId: nat, taxonomy: string, bare: string, lang: string)
    requires taxonomy in config.translatedTaxonomies && config.forceLang != 0
    requires IsTermOf(rows, termId, taxonomy)
    requires SplitMarker(rows[termId].slug) == Some((bare, lang))
    requires Truthy(bare)
    ensures var saved := SavedRows(rows, config, termId, taxonomy)[termId].slug;
      saved[..|bare|] == bare &&
      !CollidesInLanguage(rows, saved, lang, TermRef(termId, taxonomy, rows[termId].parent))
    ensures !ExistsInLanguage(rows, bare, lang, Some(taxonomy)) ==>
      SavedRows(rows, config, termId, taxonomy)[termId].slug == bare
  {
    UniqueTermSlugIsFree(rows, config, bare, lang, TermRef(termId, taxonomy, rows[termId].parent));
  }

  /** save_term: rewrite the slug of a term that carries a language marker. */
  method SaveTerm(table: TermTable, config: Config, termId: nat, taxonomy: string)
    modifies table
    ensures table.rows == SavedRows(old(table.rows), config, termId, taxonomy)
  {
    if taxonomy !in config.translatedTaxonomies || config.forceLang == 0 {
      return;
    }
    if !IsTermOf(table.rows, termId, taxonomy) {
      return;
    }
    var term := table.rows[termId];
    var split := SplitMarker(term.slug);
    if split.None? {
      return;
    }
    var bare, lang := split.value.0, split.value.1;
    var slug := ComputeUniqueTermSlug(table.rows, config, bare, lang, TermRef(termId, taxonomy, term.parent));
    table.rows := table.rows[termId := term.(slug := slug)];
  }
}
