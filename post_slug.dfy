/**
 * PolylangShareSlugPost, save side: wp_unique_post_slug gives a post back the
 * slug it asked for when the host had to change it only because a post of
 * another language holds that slug.
 */
module PostSlug {
  import opened PhpStrings
  import opened Site
  import opened Posts

  /** Post `id`, other than the one being saved, holds `name` in language
      `lang` within the namespace of `postType`: across all types for an
      attachment, among posts of the type and attachments under the same
      parent for a hierarchical type, among posts of the type otherwise. */
  predicate Conflicts(config: Config, row: PostRow, id: PostId, postId: nat, postType: string, postParent: nat, name: string, lang: string) {
    id != postId && row.name == name && row.lang == Some(lang) &&
    if postType == "attachment" then true
    else if postType in config.hierarchicalPostTypes then
      (row.postType == postType || row.postType == "attachment") && row.parent == postParent
    else row.postType == postType
  }

  predicate TakenInLanguage(rows: map<PostId, PostRow>, config: Config, postId: nat, postType: string, postParent: nat, name: string, lang: string) {
    exists id :: id in rows && Conflicts(config, rows[id], id, postId, postType, postParent, name, lang)
  }

  /** `$post_name_check` is truthy: the query found a row, and the column it
      reads is truthy. That column is the ID (never falsy) for a hierarchical
      type other than attachment, and the post_name, equal to the original
      slug, otherwise. */
  predicate NameCheckPasses(rows: map<PostId, PostRow>, config: Config, postId: nat, postType: string, postParent: nat, original: string, lang: string) {
    TakenInLanguage(rows, config, postId, postType, postParent, original, lang) &&
    ((postType != "attachment" && postType in config.hierarchicalPostTypes) || Truthy(original))
  }

  /** The cases in which wp_unique_post_slug leaves the host's slug alone
      without looking at the table. */
  predicate KeepsHostSlug(rows: map<PostId, PostRow>, config: Config, slug: string, postId: nat, postType: string, original: string) {
    original == slug || config.forceLang == 0 || postType !in config.translatedPostTypes ||
    PostLanguage(rows, postId).None?
  }

  /** wp_unique_post_slug: the host's slug, or the original slug when no post
      of the same language holds it in the same namespace. */
  function WpUniquePostSlug(rows: map<PostId, PostRow>, config: Config, slug: string, postId: nat,
                            postType: string, postParent: nat, original: string): (r: string)
    ensures r == slug || r == original
    ensures KeepsHostSlug(rows, config, slug, postId, postType, original) ==> r == slug
    ensures r != slug ==>
      (PostLanguage(rows, postId).Some? && r == original &&
       ((Truthy(original) || (postType != "attachment" && postType in config.hierarchicalPostTypes)) ==>
          !TakenInLanguage(rows, config, postId, postType, postParent, original, PostLanguage(rows, postId).value)))
    ensures (!KeepsHostSlug(rows, config, slug, postId, postType, original) &&
             !TakenInLanguage(rows, config, postId, postType, postParent, original, PostLanguage(rows, postId).value)) ==>
      r == original
    ensures (!KeepsHostSlug(rows, config, slug, postId, postType, original) && !Truthy(original) &&
             (postType == "attachment" || postType !in config.hierarchicalPostTypes)) ==>
      r == original
  {
    if KeepsHostSlug(rows, config, slug, postId, postType, original) then slug
    else
      var lang := PostLanguage(rows, postId).value;
      if NameCheckPasses(rows, config, postId, postType, postParent, original, lang) then slug else original
  }

  /** The point of the plugin: posts of other languages holding the original
      slug do not stop a post from getting it back. */
  lemma SharedAcrossLanguages(rows: map<PostId, PostRow>, config: Config, slug: string, postId: nat,
                                                 postType: string, postParent: nat, original: string)
    requires !KeepsHostSlug(rows, config, slug, postId, postType, original)
    requires forall id :: id in rows && id != postId && rows[id].name == original ==>
      rows[id].lang != PostLanguage(rows, postId)
    ensures WpUniquePostSlug(rows, config, slug, postId, postType, postParent, original) == original
  {
    var lang := PostLanguage(rows, postId).value;
    forall id | id in rows
      ensures !Conflicts(config, rows[id], id, postId, postType, postParent, original, lang)
    {
      if id != postId && rows[id].name == original {
        assert rows[id].lang != Some(lang);
      }
    }
  }

  /** With an original slug of "0", the query's post_name is falsy, so a post
      of the same language holding "0" does not keep the host's slug. */
  lemma ZeroOriginalRestoredDespiteConflict()
    ensures var rows := map[1 := PostRow("0", "post", 0, Some("en")), 2 := PostRow("0-2", "post", 0, Some("en"))];
      var config := Config(1, {"post"}, {}, {}, {}, [], None);
      TakenInLanguage(rows, config, 2, "post", 0, "0", "en") &&
      WpUniquePostSlug(rows, config, "0-2", 2, "post", 0, "0") == "0"
  {
    var rows := map[1 := PostRow("0", "post", 0, Some("en")), 2 := PostRow("0-2", "post", 0, Some("en"))];
    var config := Config(1, {"post"}, {}, {}, {}, [], None);
    assert Conflicts(config, rows[1], 1, 2, "post", 0, "0", "en");
  }

  /** In a hierarchical type the query fetches the ID, which is truthy, so a
      page of the same language under the same parent holding "0" keeps the
      host's slug. */
  lemma ZeroOriginalCaughtInHierarchicalType()
    ensures var rows := map[1 := PostRow("0", "page", 0, Some("en")), 2 := PostRow("0-2", "page", 0, Some("en"))];
      var config := Config(1, {"page"}, {"page"}, {}, {}, [], None);
      TakenInLanguage(rows, config, 2, "page", 0, "0", "en") &&
      WpUniquePostSlug(rows, config, "0-2", 2, "page", 0, "0") == "0-2"
  {
    var rows := map[1 := PostRow("0", "page", 0, Some("en")), 2 := PostRow("0-2", "page", 0, Some("en"))];
    var config := Config(1, {"page"}, {"page"}, {}, {}, [], None);
    assert Conflicts(config, rows[1], 1, 2, "page", 0, "0", "en");
  }
}
