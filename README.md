# Polylang Share Slug, modelled in Dafny

Polylang Share Slug is a WordPress plugin. With Polylang it lets posts and
terms in different languages share the same slug (URL name). Sharing is
only allowed when the language is forced in URLs (`force_lang` is not 0).

The model covers the plugin's three classes.

**`PolylangShareSlugTerm` (module `TermSlug`).**
- `unique_term_slug` makes a slug unique within one language. It runs in
  three stages:
  - a quick exit;
  - a walk up the parent chain that appends `-<parent slug>`;
  - a numeric suffix `-2`, `-3`, ….
- `save_term` cuts a stored term slug at its first `___`. This gives back
  the bare slug and the language it was marked with. It then writes the
  unique form of the bare slug back to the terms table.

**`PolylangShareSlugTermAdmin` (module `TermAdmin`).** This is a class with
two fields, `preTermName` and `postId`.
- `pre_term_name` stores the name of the term being saved.
- `pre_post_update` stores the id of the post during a bulk edit.
- `pre_term_slug` handles a slug that already exists in another language.
  It appends the marker `___<language slug>` (module `Marker`), so that
  WordPress's global uniqueness pass lets the slug through.

**`PolylangShareSlugPost` (modules `PostQuery` and `PostSlug`).**
- `get_language_for_filter` decides which language a query by name or page
  path is filtered on.
- `posts_join` and `posts_where` add that filter.
- `get_page_by_path` is rewritten to depend on the language.
- `parse_query` uses it to fix the queried page.
- `wp_unique_post_slug` gives a post back its original slug when the only
  post holding that slug is in another language.

The database is modelled as values:
- **Terms** are a map from term id to a row: slug, taxonomy, parent,
  language.
- **Posts** are a map from post id to a row: name, type, parent, language.
  The posts table also carries the order in which rows come back.
- **Site configuration** is one value (`Site.Config`). It holds the
  options, the translated and hierarchical post types and taxonomies, the
  language list and the current language.

PHP's truthiness is kept where the plugin relies on it. In PHP, `""` and
`"0"` are falsy (`PhpStrings.Truthy`).

Two behaviours of the code are stated as lemmas:
- **The marker round trip is exact only for some slugs.** Marking a slug
  and splitting it again returns the same slug and language exactly when
  the slug contains no `___` and does not end in `_`
  (`Marker.SplitAfterAppend`). With a trailing underscore, the first `___`
  starts one character early (`Marker.TrailingUnderscoreSplitsEarly`).
- **A slug of `"0"` can slip past two of the uniqueness checks.** Some
  checks read the slug itself as the answer to "is it taken?":
  - the numeric stage of `unique_term_slug`;
  - the attachment and non-hierarchical branches of `wp_unique_post_slug`,
    which fetch `post_name`.

  In those checks a slug `"0"` reads as falsy, so it is kept even when
  another term or post of the same language holds it
  (`TermSlug.ZeroSlugKeptDespiteCollision`,
  `PostSlug.ZeroOriginalRestoredDespiteConflict`). The other checks do
  catch it:
  - the quick check and the parent walk of `unique_term_slug` use Polylang's
    `term_exists_by_slug`, which answers with an id;
  - the hierarchical branch of `wp_unique_post_slug` fetches the `ID`.

The parent walk of `unique_term_slug` checks each candidate against all
taxonomies of the language. The quick exit checks only the term's own
taxonomy. The numeric stage checks every term in every language. All
three are modelled as written. `TermSlug.UniqueTermSlugIsFree` proves that,
despite these differences, a truthy slug always comes out unused by any
other term of the same language and taxonomy.

Where the code does things in steps, the model does them as methods, each
proved equal to a specification function:
- `TermSlug.ComputeUniqueTermSlug` runs the parent-walk loop
  (`TermSlug.ClimbParents`) and the do-while loop (`TermSlug.NumberedSlug`).
- `TermSlug.SaveTerm` updates the `TermTable` object.
- `PostQuery.GetPageByPath` and `PostQuery.ClimbsPath` run the foreach
  over the fetched pages and the inner climb up the parents.
- `PostQuery.ParseQuery` sets the queried object of a `WpQuery` object.

## Model

| member | source | states |
|---|---|---|
| Marker.AppendMarker | polylang-share-slug.php:580 | the marked slug is the slug, then `___` at position \|slug\|, then the language slug |
| Marker.SplitMarker | polylang-share-slug.php:137-142 | None exactly when the stored slug has no `___`; otherwise the pieces before and after the FIRST `___`, which re-mark to the stored slug, and the prefix holds no `___` and does not end in `_` |
| Marker.SplitAfterAppend | polylang-share-slug.php:137-142 | splitting a marked slug gives back the slug and the language if and only if the slug has no `___` and no trailing `_` |
| Marker.TrailingUnderscoreSplitsEarly | polylang-share-slug.php:137-142 | `a_` marked with `en` splits into `a` and `_en` |
| Site.LanguageBySlug | polylang-share-slug.php:363 | get_language finds a listed language with that slug, or None only when no listed language has it |
| TermSlug.WalkParents | polylang-share-slug.php:72-91 | the walk only appends `-…` to the slug; a slug returned early is unused in the language in every taxonomy; a slug reached at the end of the chain is used in the language; the walk ends even on a cyclic parent chain |
| TermSlug.WalkParentsSteps | polylang-share-slug.php:74-91 | after k steps the walk has appended `-` and the slugs of the parent, the grandparent, … in chain order; every earlier candidate was used in the language; a free outcome is the first unused candidate; an exhausted one is where the chain reaches 0 or a term outside the taxonomy |
| TermSlug.FirstFreeSuffix | polylang-share-slug.php:104-110 | the do-while stops at the smallest n >= 2 whose `slug-n` is unused in the terms table |
| TermSlug.UniqueTermSlug | polylang-share-slug.php:58-115 | a slug unused in its language and taxonomy is returned unchanged; any result extends the given slug |
| TermSlug.NumericSuffixIsSmallest | polylang-share-slug.php:93-112 | when the walk (if any) ends without a free candidate and another term holds the slug it reached, the result is that slug plus `-n` for the smallest n >= 2 unused in the terms table |
| TermSlug.WalkedSlugKept | polylang-share-slug.php:80-112 | when the walk found a free candidate, or no other term holds (a truthy) walked slug, the walked slug is returned without a number |
| TermSlug.UniqueTermSlugIsFree | polylang-share-slug.php:58-115 | for a truthy slug, no other term of the same language and taxonomy uses the result |
| TermSlug.ZeroSlugKeptDespiteCollision | polylang-share-slug.php:93-103 | slug `0` is returned unchanged although another term of the same language and taxonomy holds it |
| TermSlug.ClimbParents | polylang-share-slug.php:74-91 | the while over the parent chain computes WalkParents |
| TermSlug.NumberedSlug | polylang-share-slug.php:104-111 | the do-while ends on `slug-n` for the smallest n >= 2 that no term uses |
| TermSlug.ComputeUniqueTermSlug | polylang-share-slug.php:58-115 | the loops of unique_term_slug compute UniqueTermSlug |
| TermSlug.SavedRows | polylang-share-slug.php:127-143 | save_term changes at most the slug of the saved term; it changes nothing for an untranslated taxonomy, when force_lang is 0, or when the slug holds no `___` |
| TermSlug.SaveTermStripsMarker | polylang-share-slug.php:127-143 | for a bare slug other than `""` and `"0"`, a marked slug is replaced by a slug that starts with the bare slug and is unused by other terms of the marker's language and the same taxonomy; a bare slug no term of that language and taxonomy holds is kept unchanged |
| TermSlug.SaveTerm | polylang-share-slug.php:127-143 | the table after save_term is SavedRows of the table before |
| TermAdmin.ShareSlugTermAdmin.PreTermName | polylang-share-slug.php:507-509 | returns the name unchanged and remembers it; postId is untouched |
| TermAdmin.ShareSlugTermAdmin.PrePostUpdate | polylang-share-slug.php:519-523 | remembers the post id during a bulk edit only; the term name is untouched |
| TermAdmin.ShareSlugTermAdmin.BaseSlug | polylang-share-slug.php:535-537 | a truthy slug is kept; a falsy one is replaced by the sanitised remembered name |
| TermAdmin.ShareSlugTermAdmin.ChosenLanguage | polylang-share-slug.php:542-573 | a chosen language slug counts only if it names a listed language; a bulk edit that keeps languages uses the language of the remembered post; a default category uses its own language; no choice gives none |
| TermAdmin.ShareSlugTermAdmin.PreTermSlug | polylang-share-slug.php:534-586 | the result is the base slug or the base slug marked with the chosen language; it is marked if and only if the taxonomy is translated, the slug exists, a language is found, and no term of that language has the slug or the one that has it is the term being edited |
| TermAdmin.MarkedSlugSplitsBack | polylang-share-slug.php:575-581 | a marked slug whose base splits cleanly comes back to save_term as exactly the base slug and the chosen language |
| Posts.PostLanguage | polylang-share-slug.php:409 | the language of an existing post is its stored language; a post that does not exist has none |
| PostQuery.LanguageOfClause | polylang-share-slug.php:370-374 | the first listed language whose term_taxonomy_id is the clause's integer `terms`; None exactly when no listed language matches |
| PostQuery.TaxQueryLanguage | polylang-share-slug.php:366-377 | the language of the first `language` clause that selects a listed language; None exactly when no clause selects any |
| PostQuery.LanguageForFilter | polylang-share-slug.php:356-384 | a query not asking by name or pagename for a translated type is unfiltered; otherwise the `lang` var decides when truthy, else the tax_query, else the current language |
| PostQuery.UnknownLangIsNotReplaced | polylang-share-slug.php:362-364 | a truthy but unknown `lang` leaves the query unfiltered instead of falling back |
| PostQuery.PostsJoin | polylang-share-slug.php:324-329 | the join clause is appended exactly when the query is filtered |
| PostQuery.PostsWhere | polylang-share-slug.php:341-346 | the where clause of the filter's language is appended exactly when the query is filtered |
| PostQuery.FetchedKeys | polylang-share-slug.php:276-280 | the fetched ids are exactly the table's rows whose name is a path segment, type is searched and language is requested, without repeats |
| PostQuery.FetchPages | polylang-share-slug.php:264-280 | the fetched pages are exactly the table rows matching the query, each with its table row |
| PostQuery.Reverse | polylang-share-slug.php:282 | array_reverse of the segments |
| PostQuery.SelectFromNoMatch | polylang-share-slug.php:284-305 | with no match from a position on, the foreach keeps what it had found |
| PostQuery.SelectFromPreferred | polylang-share-slug.php:284-305 | with a match of the requested type from a position on, the foreach stops at the first one |
| PostQuery.SelectFromLast | polylang-share-slug.php:284-305 | with matches but none of the requested type from a position on, the foreach ends on the last match |
| PostQuery.FoundPageChoice | polylang-share-slug.php:284-311 | null exactly when no fetched page spells out the path; else the first match of the requested type, or the last match when there is none |
| PostQuery.FoundPageById | polylang-share-slug.php:284-311 | the same by id: the result spells out the path; null exactly when no fetched page does; a result of the requested type whenever a matching page has it |
| PostQuery.PageByPath | polylang-share-slug.php:254-312 | a found page is a fetched row that spells out the path, has the requested language and a searched type, and is named like the last segment; null exactly when no fetched page spells out the path; of the requested type whenever a matching page is |
| PostQuery.ClimbsPath | polylang-share-slug.php:287-298 | the inner while succeeds exactly when the page's parents inside the fetched rows spell out the path up to a root |
| PostQuery.GetPageByPath | polylang-share-slug.php:254-312 | the loops of get_page_by_path compute PageByPath |
| PostQuery.Pagename | polylang-share-slug.php:214-216 | a truthy pagename is kept; a falsy pagename is replaced by a truthy name when a requested post type is hierarchical, and kept when none is |
| PostQuery.PathParts | polylang-share-slug.php:260 | explode of the trimmed path has at least one segment, no segment holds `/`, and the segments joined by `/` give back the trimmed path |
| PhpStrings.Trim | polylang-share-slug.php:260 | trim cuts a run of `c` from each end and nothing else: the result is a slice of the input with only `c` outside it, and it neither starts nor ends with `c` |
| PostQuery.PageForPath | polylang-share-slug.php:223-231 | a requested type is looked up as given; with none, a page is looked up, and under a %postname% permalink a found post replaces a missing page or an attachment, while a real page is kept; a result has the requested language and the last segment's name |
| PostQuery.QueriedPage | polylang-share-slug.php:209-237 | nothing is found for an unfiltered query or a falsy path; otherwise the result is the lookup for the path in the filter's language, and it has that language and the last segment's name |
| PostQuery.QueriedPageFindsExisting | polylang-share-slug.php:218-237 | a filtered query with a truthy path finds a page whenever a fetched page spells out the path |
| PostQuery.ParseQuery | polylang-share-slug.php:209-239 | the query vars are unchanged and the queried object is set to QueriedPage when one is found |
| PostSlug.WpUniquePostSlug | polylang-share-slug.php:401-449 | the result is the host's slug or the original; the host's slug is kept when unchanged, force_lang is 0, the type is untranslated or the post has no language; the original comes back exactly when no post of the same language holds it in the type's namespace, except that a falsy original in an attachment or a non-hierarchical type always comes back, because the fetched post_name is then falsy |
| PostSlug.ZeroOriginalCaughtInHierarchicalType | polylang-share-slug.php:426-448 | in a hierarchical type the fetched ID is truthy, so an original `0` held by a page of the same language under the same parent does not come back |
| PostSlug.SharedAcrossLanguages | polylang-share-slug.php:415-448 | posts of other languages holding the original slug do not stop the post from getting it back |
| PostSlug.ZeroOriginalRestoredDespiteConflict | polylang-share-slug.php:447-448 | an original slug `0` comes back although another post of the same language holds it |

## Left out

- Hook registration, the constructors and `polylang_share_slug_init` are not modelled: they only wire the functions to WordPress.
- The SQL text, `$wpdb` and the database itself are left out. Each query is a predicate over the rows. The order of rows is an input (`PostTable.order`).
- Polylang's join and where clauses appear only as non-empty stand-ins (`PostQuery.JoinClause`, `PostQuery.WhereClause`). Their real text belongs to Polylang.
- The `wp_unique_term_slug` filter (`apply_filters`) is taken to be the identity.
- `clean_term_cache` is not modelled.
- `get_post` is not modelled: get_page_by_path returns the found id.
- `queried_object_id` is not modelled separately from `queried_object`.
- `sanitize_title`, `sanitize_key`, `sanitize_title_for_query`, `esc_sql`, and the URL decoding and encoding of page paths are not modelled. `sanitize_title` is a function parameter. The others are the identity.
- Reading `$_POST` and `$_GET` is not modelled. The language choice, the parent, `tag_ID`, `tax_ID` and the bulk-edit flag are inputs (`TermAdmin.SlugRequest`, `PrePostUpdate`'s `bulkEdit`).
- In the default-category case, the `get_translations` check is not modelled. The category's language is an input.
- Polylang's `term_exists_by_slug` with a parent, used by pre_term_slug, is an input: the id it returns.
- WordPress's `term_exists` is an input.
- `is_translated_post_type` and `is_post_type_hierarchical` are taken as membership in the configured sets. For an array of types, `is_translated_post_type` is taken to mean "any of them".
- The permalink-structure regex in parse_query is a boolean input.
- pll_translate_media is not modelled: it only copies one post's name to another through `wp_update_post`.
- Polylang's `get_language` (called at polylang-share-slug.php:363, 543, 553 and 562) is taken to be a lookup of the configured languages by slug (`Site.LanguageBySlug`); its lookups by id or by locale are not modelled.
- PHP's loose `==` between strings that look numeric (`"01" == "1"`) is modelled as exact equality.
- MySQL's case-insensitive collation is not modelled: names and slugs are compared exactly.
- TermAdmin.ShareSlugTermAdmin.PreTermSlug: does not model that the parent sent with `term_lang_choice` feeds the lookup, because that lookup is an input.
