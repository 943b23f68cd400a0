/**
 * What the plugin reads from the host and from Polylang: the plugin options,
 * which post types and taxonomies are translated or hierarchical, the list of
 * languages and the current language.
 */
module Site {
  import opened PhpStrings

  /** A Polylang language: its slug and the term_taxonomy_id of its term in
      the `language` taxonomy. */
  datatype Language = Language(slug: string, termTaxonomyId: nat)

  datatype Config = Config(
    forceLang: int,                       // $this->options['force_lang']
    translatedPostTypes: set<string>,     // is_translated_post_type
    hierarchicalPostTypes: set<string>,   // is_post_type_hierarchical
    translatedTaxonomies: set<string>,    // is_translated_taxonomy
    hierarchicalTaxonomies: set<string>,  // is_taxonomy_hierarchical
    languages: seq<Language>,             // get_languages_list()
    curlang: Option<Language>)            // $this->curlang

  /** get_language( $slug ): the first language of the list with that slug,
      or false (None). */
  function LanguageBySlug(languages: seq<Language>, slug: string): (r: Option<Language>)
    ensures r.Some? ==> r.value in languages && r.value.slug == slug
    ensures r.None? ==> forall l :: l in languages ==> l.slug != slug
  {
    if languages == [] then None
    else if languages[0].slug == slug then Some(languages[0])
    else LanguageBySlug(languages[1..], slug)
  }
}
