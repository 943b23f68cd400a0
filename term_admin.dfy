/**
 * PolylangShareSlugTermAdmin: remembers the name of the term being saved and
 * the post being bulk edited, and marks the slug of a term that already
 * exists in another language so that the host's global uniqueness pass lets
 * it through; save_term removes the mark afterwards.
 */
module TermAdmin {
  import opened PhpStrings
  import opened Site
  import opened Marker
  import opened Posts

  /** Where the request says which language the term is in, in the order
      pre_term_slug looks. */
  datatype LangChoice =
    | TermLangChoice(slug: string)            // $_POST['term_lang_choice']
    | InlineLangChoice(slug: string)          // $_POST['inline_lang_choice']
    | BulkEditChoice(keep: bool, slug: string) // $_GET['inline_lang_choice'] in a post bulk edit; keep when it is -1
    | DefaultCategory(lang: Option<string>)   // language of the default category edited through tag_ID or tax_ID
    | NoChoice

  /** What the admin request and the lookups made for it tell pre_term_slug. */
  datatype SlugRequest = SlugRequest(
    taxonomy: string,
    termExists: bool,   // term_exists( $slug, $taxonomy ), in any language
    choice: LangChoice,
    existingId: nat,    // term_exists_by_slug( $slug, $lang, $taxonomy, $parent ), 0 when none
    tagId: nat,         // $_POST['tag_ID'], 0 when empty
    taxId: nat)         // $_POST['tax_ID'], 0 when empty

  /** The slug of a language found by get_language, if any. */
  function SlugOf(l: Option<Language>): (r: Option<string>)
    ensures r.Some? <==> l.Some?
  {
    if l.Some? then Some(l.value.slug) else None
  }

  class ShareSlugTermAdmin {
    var preTermName: string
    var postId: int

    /** pre_term_name: remember the name and hand it back unchanged. */
    method PreTermName(name: string) returns (r: string)
      modifies this
      ensures r == name
      ensures preTermName == name && postId == old(postId)
    {
      preTermName := name;
      r := name;
    }

    /** pre_post_update: remember the post id during a bulk edit only. */
    method PrePostUpdate(id: int, bulkEdit: bool)
      modifies this
      ensures postId == (if bulkEdit then id else old(postId))
      ensures preTermName == old(preTermName)
    {
      if bulkEdit {
        postId := id;
      }
    }

    /** The slug pre_term_slug starts from: the given one, or the sanitised
        remembered name when the given one is falsy. */
    function BaseSlug(slug: string, sanitize: string -> string): (r: string)
      reads this
      ensures Truthy(slug) ==> r == slug
      ensures !Truthy(slug) ==> r == sanitize(preTermName)
    {
      if Truthy(slug) then slug else sanitize(preTermName)
    }

    /** The slug of the language pre_term_slug works with, or None when it
        finds none: a chosen slug counts only when it names a language, and
        a bulk edit that keeps languages uses the language of the post being
        updated, remembered by pre_post_update. */
    function ChosenLanguage(choice: LangChoice, config: Config, posts: map<PostId, PostRow>): (r: Option<string>)
      reads this
      ensures (choice.TermLangChoice? || choice.InlineLangChoice? || (choice.BulkEditChoice? && !choice.keep)) ==>
        (r.Some? <==> exists l :: l in config.languages && l.slug == choice.slug) &&
        (r.Some? ==> r.value == choice.slug)
      ensures choice.BulkEditChoice? && choice.keep ==>
        r == (if postId > 0 then PostLanguage(posts, postId) else None)
      ensures choice.DefaultCategory? ==> r == choice.lang
      ensures choice.NoChoice? ==> r.None?
    {
      match choice
      case TermLangChoice(slug) => SlugOf(LanguageBySlug(config.languages, slug))
      case InlineLangChoice(slug) => SlugOf(LanguageBySlug(config.languages, slug))
      case BulkEditChoice(keep, slug) =>
        if keep then (if postId > 0 then PostLanguage(posts, postId) else None)
        else SlugOf(LanguageBySlug(config.languages, slug))
      case DefaultCategory(lang) => lang
      case NoChoice => None
    }

    /** pre_term_slug: append the language marker when the slug is taken in
        a translated taxonomy, a language was chosen, and either no term of
        that language has the slug or the one that has it is the term being
        edited. */
    function PreTermSlug(slug: string, sanitize: string -> string, config: Config, posts: map<PostId, PostRow>, req: SlugRequest): (r: string)
      reads this
      ensures var base, lang := BaseSlug(slug, sanitize), ChosenLanguage(req.choice, config, posts);
        r == base || (lang.Some? && r == AppendMarker(base, lang.value))
      ensures var base, lang := BaseSlug(slug, sanitize), ChosenLanguage(req.choice, config, posts);
        r != base <==>
          (req.taxonomy in config.translatedTaxonomies && req.termExists && lang.Some? &&
           (req.existingId == 0 || req.existingId == req.tagId || req.existingId == req.taxId))
    {
      var base := BaseSlug(slug, sanitize);
      if req.taxonomy in config.translatedTaxonomies && req.termExists then
        var lang := ChosenLanguage(req.choice, config, posts);
        if lang.None? then base
        else
          var existing := req.existingId;
          if existing == 0 || (req.tagId != 0 && req.tagId == existing) || (req.taxId != 0 && req.taxId == existing)
          then AppendMarker(base, lang.value)
          else base
      else base
    }
  }

  /** A marked slug whose base splits cleanly comes back to save_term as
      exactly the base slug and the chosen language. */
  lemma MarkedSlugSplitsBack(admin: ShareSlugTermAdmin, slug: string, sanitize: string -> string,
                                                config: Config, posts: map<PostId, PostRow>, req: SlugRequest)
    requires SplitsCleanly(admin.BaseSlug(slug, sanitize))
    requires admin.PreTermSlug(slug, sanitize, config, posts, req) != admin.BaseSlug(slug, sanitize)
    ensures var lang := admin.ChosenLanguage(req.choice, config, posts);
      lang.Some? &&
      SplitMarker(admin.PreTermSlug(slug, sanitize, config, posts, req)) == Some((admin.BaseSlug(slug, sanitize), lang.value))
  {
    SplitAfterAppend(admin.BaseSlug(slug, sanitize), admin.ChosenLanguage(req.choice, config, posts).value);
  }
}
