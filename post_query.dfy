/**
 * PolylangShareSlugPost, query side: which language a query by name or page
 * path is filtered on, the join and where clauses that filter it, the
 * language-aware get_page_by_path, and parse_query, which uses it to fix the
 * queried page before the rest of the host runs.
 */
module PostQuery {
  import opened PhpStrings
  import opened Site
  import opened Posts

  /** The post_type query var: absent, a single type, or an array of types. */
  datatype PostTypeArg = NoType | Single(name: string) | Many(names: seq<string>)

  /** `empty( $qv['post_type'] )` */
  predicate IsEmptyType(a: PostTypeArg) {
    match a
    case NoType => true
    case Single(t) => !Truthy(t)
    case Many(ts) => ts == []
  }

  /** `(array) $qv['post_type']` */
  function TypeList(a: PostTypeArg): seq<string> {
    match a
    case NoType => []
    case Single(t) => [t]
    case Many(ts) => ts
  }

  /** The `terms` of a tax_query clause: an integer, or anything else (a
      string, an array), which never equals an integer under `===`. */
  datatype TaxTerms = IntTerms(id: int) | OtherTerms

  datatype TaxClause = TaxClause(taxonomy: Option<string>, terms: TaxTerms)

  datatype QueryVars = QueryVars(
    name: string,
    pagename: string,
    postType: PostTypeArg,
    lang: string,
    taxQuery: Option<seq<TaxClause>>)  // None when unset or not an array

  /** is_translated_post_type, which accepts one type or an array of types. */
  predicate IsTranslatedPostType(config: Config, a: PostTypeArg) {
    exists t :: t in TypeList(a) && t in config.translatedPostTypes
  }

  // ---------------------------------------------------------------------
  // get_language_for_filter

  /** A `language` tax_query clause naming this language's term_taxonomy_id. */
  predicate ClauseSelects(clause: TaxClause, l: Language) {
    clause.taxonomy == Some("language") && clause.terms == IntTerms(l.termTaxonomyId)
  }

  /** l is the first of the languages that the clause selects. */
  predicate FirstSelected(clause: TaxClause, languages: seq<Language>, l: Language) {
    exists i :: 0 <= i < |languages| && languages[i] == l && ClauseSelects(clause, l) &&
      forall j :: 0 <= j < i ==> !ClauseSelects(clause, languages[j])
  }

  lemma FirstSelectedShift(clause: TaxClause, languages: seq<Language>, l: Language)
    requires languages != [] && !ClauseSelects(clause, languages[0])
    requires FirstSelected(clause, languages[1..], l)
    ensures FirstSelected(clause, languages, l)
  {
    var i :| 0 <= i < |languages[1..]| && languages[1..][i] == l && ClauseSelects(clause, l) &&
      forall j :: 0 <= j < i ==> !ClauseSelects(clause, languages[1..][j]);
    assert languages[i + 1] == l;
  }

  /** The inner foreach: the first language the clause selects. */
  function LanguageOfClause(clause: TaxClause, languages: seq<Language>): (r: Option<Language>)
    ensures r.None? <==> forall l :: l in languages ==> !ClauseSelects(clause, l)
    ensures r.Some? ==> FirstSelected(clause, languages, r.value)
  {
    if languages == [] then None
    else if ClauseSelects(clause, languages[0]) then Some(languages[0])
    else
      var r := LanguageOfClause(clause, languages[1..]);
      if r.Some? then FirstSelectedShift(clause, languages, r.value); r else r
  }

  /** Clause i selects l, and no clause before it selects any language. */
  predicate FirstSelectingClause(clauses: seq<TaxClause>, languages: seq<Language>, l: Language) {
    exists i :: 0 <= i < |clauses| && FirstSelected(clauses[i], languages, l) &&
      forall j, l' :: 0 <= j < i && l' in languages ==> !ClauseSelects(clauses[j], l')
  }

  lemma FirstSelectingClauseShift(clauses: seq<TaxClause>, languages: seq<Language>, l: Language)
    requires clauses != [] && forall l' :: l' in languages ==> !ClauseSelects(clauses[0], l')
    requires FirstSelectingClause(clauses[1..], languages, l)
    ensures FirstSelectingClause(clauses, languages, l)
  {
    var i :| 0 <= i < |clauses[1..]| && FirstSelected(clauses[1..][i], languages, l) &&
      forall j, l' :: 0 <= j < i && l' in languages ==> !ClauseSelects(clauses[1..][j], l');
    assert clauses[i + 1] == clauses[1..][i];
  }

  /** The outer foreach: the language of the first clause that selects one. */
  function TaxQueryLanguage(clauses: seq<TaxClause>, languages: seq<Language>): (r: Option<Language>)
    ensures r.None? <==> forall c, l :: c in clauses && l in languages ==> !ClauseSelects(c, l)
    ensures r.Some? ==> r.value in languages && FirstSelectingClause(clauses, languages, r.value)
  {
    if clauses == [] then None
    else match LanguageOfClause(clauses[0], languages)
      case Some(l) => Some(l)
      case None =>
        var r := TaxQueryLanguage(clauses[1..], languages);
        if r.Some? then FirstSelectingClauseShift(clauses, languages, r.value); r else r
  }

  /** `empty( $qv['post_type'] ) ? 'post' : $qv['post_type']` */
  function FilteredPostType(a: PostTypeArg): PostTypeArg {
    if IsEmptyType(a) then Single("post") else a
  }

  /** The query asks for one post by name or page path, of a translated type. */
  predicate AsksByName(qv: QueryVars, config: Config) {
    (Truthy(qv.name) || Truthy(qv.pagename)) && IsTranslatedPostType(config, FilteredPostType(qv.postType))
  }

  /** get_language_for_filter: the `lang` query var, else the language of a
      `language` tax_query clause, else the current language. */
  function LanguageForFilter(qv: QueryVars, config: Config): (r: Option<Language>)
    ensures r.Some? ==> AsksByName(qv, config)
    ensures AsksByName(qv, config) && Truthy(qv.lang) ==> r == LanguageBySlug(config.languages, qv.lang)
    ensures Truthy(qv.lang) && r.Some? ==> r.value.slug == qv.lang
    ensures (AsksByName(qv, config) && !Truthy(qv.lang) && qv.taxQuery.Some? &&
             TaxQueryLanguage(qv.taxQuery.value, config.languages).Some?) ==>
      r == TaxQueryLanguage(qv.taxQuery.value, config.languages)
    ensures (AsksByName(qv, config) && !Truthy(qv.lang) &&
             (qv.taxQuery.None? || TaxQueryLanguage(qv.taxQuery.value, config.languages).None?)) ==>
      r == config.curlang
  {
    if AsksByName(qv, config) then
      if Truthy(qv.lang) then LanguageBySlug(config.languages, qv.lang)
      else
        var fromTaxQuery := if qv.taxQuery.Some? then TaxQueryLanguage(qv.taxQuery.value, config.languages) else None;
        if fromTaxQuery.Some? then fromTaxQuery else config.curlang
    else None
  }

  /** An explicit but unknown `lang` leaves the query unfiltered; it does not
      fall back to the current language. */
  lemma UnknownLangIsNotReplaced(qv: QueryVars, config: Config)
    requires Truthy(qv.lang)
    requires forall l :: l in config.languages ==> l.slug != qv.lang
    ensures LanguageForFilter(qv, config) == None
  {
  }

  // ---------------------------------------------------------------------
  // posts_join, posts_where

  /** Polylang's join_clause(); the text is Polylang's and stands here only
      as a non-empty clause. */
  const JoinClause: string := " INNER JOIN term_relationships AS pll_tr ON pll_tr.object_id = ID"

  /** Polylang's where_clause( $lang ), likewise a stand-in. */
  function WhereClause(l: Language): (r: string)
    ensures r != []
  {
    " AND pll_tr.term_taxonomy_id = " + Decimal(l.termTaxonomyId)
  }

  /** posts_join: append the join clause exactly when the query is filtered. */
  function PostsJoin(join: string, qv: QueryVars, config: Config): (r: string)
    ensures r == join <==> LanguageForFilter(qv, config).None?
    ensures LanguageForFilter(qv, config).Some? ==> r == join + JoinClause
  {
    if LanguageForFilter(qv, config).Some? then join + JoinClause else join
  }

  /** posts_where: append the language's where clause exactly when the query is filtered. */
  function PostsWhere(where: string, qv: QueryVars, config: Config): (r: string)
    ensures r == where <==> LanguageForFilter(qv, config).None?
    ensures LanguageForFilter(qv, config).Some? ==> r == where + WhereClause(LanguageForFilter(qv, config).value)
  {
    match LanguageForFilter(qv, config)
    case Some(l) =>
      assert |where + WhereClause(l)| > |where|;
      where + WhereClause(l)
    case None => where
  }

  // ---------------------------------------------------------------------
  // get_page_by_path

  /** The rows the query of get_page_by_path returns, keyed by ID (OBJECT_K)
      and in the order the database returned them. */
  datatype Pages = Pages(keys: seq<PostId>, rows: map<PostId, PostRow>)

  predicate ValidPages(pages: Pages) {
    Distinct(pages.keys) &&
    (forall id :: id in pages.rows ==> id in pages.keys) &&
    (forall id :: id in pages.keys ==> id in pages.rows)
  }

  /** The post types searched: an array as given, a single type with 'attachment'. */
  function SearchedTypes(a: PostTypeArg): seq<string> {
    match a
    case Many(ts) => ts
    case Single(t) => [t, "attachment"]
    case NoType => ["page", "attachment"]
  }

  /** `$page->post_type == $post_type`: never true against an array. */
  predicate IsRequestedType(row: PostRow, a: PostTypeArg) {
    match a
    case Many(_) => false
    case Single(t) => row.postType == t
    case NoType => row.postType == "page"
  }

  /** The WHERE of the query: a name among the path segments, a searched
      type, and the requested language. */
  predicate Fetched(row: PostRow, parts: seq<string>, types: seq<string>, lang: string) {
    row.name in parts && row.postType in types && row.lang == Some(lang)
  }

  function FetchedKeys(order: seq<PostId>, rows: map<PostId, PostRow>, parts: seq<string>, types: seq<string>, lang: string): (r: seq<PostId>)
    requires forall id :: id in order ==> id in rows
    ensures forall id :: id in r <==> id in order && Fetched(rows[id], parts, types, lang)
    ensures Distinct(order) ==> Distinct(r)
  {
    if order == [] then []
    else
      var rest := FetchedKeys(order[1..], rows, parts, types, lang);
      assert forall id :: id in order[1..] ==> id in order;
      if Fetched(rows[order[0]], parts, types, lang) then
        assert Distinct(order) ==> order[0] !in order[1..];
        [order[0]] + rest
      else rest
  }

  function FetchPages(table: PostTable, parts: seq<string>, types: seq<string>, lang: string): (pages: Pages)
    requires ValidTable(table)
    ensures ValidPages(pages)
    ensures forall id :: id in pages.rows ==>
      (id in table.rows && pages.rows[id] == table.rows[id] && Fetched(table.rows[id], parts, types, lang))
    ensures forall id :: id in table.rows && Fetched(table.rows[id], parts, types, lang) ==> id in pages.rows
  {
    Pages(FetchedKeys(table.order, table.rows, parts, types, lang),
          map id | id in table.rows && Fetched(table.rows[id], parts, types, lang) :: table.rows[id])
  }

  function Reverse(s: seq<string>): (r: seq<string>)
    ensures |r| == |s|
    ensures forall i :: 0 <= i < |s| ==> r[i] == s[|s| - 1 - i]
  {
    if s == [] then [] else Reverse(s[1..]) + [s[0]]
  }

  /** Page `id` is named revparts[k], and its parents, followed inside the
      fetched rows, are named revparts[k+1], revparts[k+2], ... up to the last
      segment, whose page has no parent. */
  predicate PathMatches(rows: map<PostId, PostRow>, id: PostId, revparts: seq<string>, k: nat)
    requires id in rows && k < |revparts|
    decreases |revparts| - k
  {
    rows[id].name == revparts[k] &&
    if rows[id].parent == 0 then k == |revparts| - 1
    else k + 1 < |revparts| && rows[id].parent in rows && PathMatches(rows, rows[id].parent, revparts, k + 1)
  }

  /** The i-th fetched page spells out the whole path. */
  predicate IsMatch(pages: Pages, revparts: seq<string>, i: int) {
    0 <= i < |pages.keys| && pages.keys[i] in pages.rows && |revparts| > 0 &&
    PathMatches(pages.rows, pages.keys[i], revparts, 0)
  }

  /** ... and has the requested post type. */
  predicate IsPreferredMatch(pages: Pages, revparts: seq<string>, a: PostTypeArg, i: int) {
    IsMatch(pages, revparts, i) && IsRequestedType(pages.rows[pages.keys[i]], a)
  }

  /** The foreach of get_page_by_path from position i, with `found` matched so far. */
  function SelectFrom(pages: Pages, revparts: seq<string>, a: PostTypeArg, i: nat, found: Option<PostId>): Option<PostId>
    requires i <= |pages.keys|
    decreases |pages.keys| - i
  {
    if i == |pages.keys| then found
    else if IsMatch(pages, revparts, i) then
      if IsRequestedType(pages.rows[pages.keys[i]], a) then Some(pages.keys[i])
      else SelectFrom(pages, revparts, a, i + 1, Some(pages.keys[i]))
    else SelectFrom(pages, revparts, a, i + 1, found)
  }

  /** With no match from position i on, the foreach keeps what it found. */
  lemma {:induction false} SelectFromNoMatch(pages: Pages, revparts: seq<string>, a: PostTypeArg, i: nat, found: Option<PostId>)
    requires i <= |pages.keys|
    requires forall j :: i <= j < |pages.keys| ==> !IsMatch(pages, revparts, j)
    ensures SelectFrom(pages, revparts, a, i, found) == found
    decreases |pages.keys| - i
  {
    if i < |pages.keys| {
      SelectFromNoMatch(pages, revparts, a, i + 1, found);
    }
  }

  /** With a match of the requested type from position i on, the foreach
      stops at the first one. */
  lemma {:induction false} SelectFromPreferred(pages: Pages, revparts: seq<string>, a: PostTypeArg, i: nat, found: Option<PostId>)
    requires i <= |pages.keys|
    requires exists j :: i <= j < |pages.keys| && IsPreferredMatch(pages, revparts, a, j)
    ensures exists j :: (i <= j < |pages.keys| && IsPreferredMatch(pages, revparts, a, j) &&
      SelectFrom(pages, revparts, a, i, found) == Some(pages.keys[j]) &&
      forall j' :: i <= j' < j ==> !IsPreferredMatch(pages, revparts, a, j'))
    decreases |pages.keys| - i
  {
    if IsPreferredMatch(pages, revparts, a, i) {
      assert SelectFrom(pages, revparts, a, i, found) == Some(pages.keys[i]);
    } else {
      var next := if IsMatch(pages, revparts, i) then Some(pages.keys[i]) else found;
      assert SelectFrom(pages, revparts, a, i, found) == SelectFrom(pages, revparts, a, i + 1, next);
      SelectFromPreferred(pages, revparts, a, i + 1, next);
    }
  }

  /** With matches but none of the requested type from position i on, the
      foreach ends on the last match. */
  lemma {:induction false} SelectFromLast(pages: Pages, revparts: seq<string>, a: PostTypeArg, i: nat, found: Option<PostId>)
    requires i <= |pages.keys|
    requires exists j :: i <= j < |pages.keys| && IsMatch(pages, revparts, j)
    requires forall j :: i <= j < |pages.keys| ==> !IsPreferredMatch(pages, revparts, a, j)
    ensures exists j :: (i <= j < |pages.keys| && IsMatch(pages, revparts, j) &&
      SelectFrom(pages, revparts, a, i, found) == Some(pages.keys[j]) &&
      forall j' :: j < j' < |pages.keys| ==> !IsMatch(pages, revparts, j'))
    decreases |pages.keys| - i
  {
    assert i < |pages.keys| && !IsPreferredMatch(pages, revparts, a, i);
    var next := if IsMatch(pages, revparts, i) then Some(pages.keys[i]) else found;
    assert SelectFrom(pages, revparts, a, i, found) == SelectFrom(pages, revparts, a, i + 1, next);
    if exists j :: i + 1 <= j < |pages.keys| && IsMatch(pages, revparts, j) {
      SelectFromLast(pages, revparts, a, i + 1, next);
    } else {
      SelectFromNoMatch(pages, revparts, a, i + 1, next);
      assert IsMatch(pages, revparts, i);
    }
  }

  /** What get_page_by_path settles on among the fetched pages. */
  function FoundPage(pages: Pages, revparts: seq<string>, a: PostTypeArg): Option<PostId> {
    SelectFrom(pages, revparts, a, 0, None)
  }

  /** get_page_by_path returns null exactly when no fetched page spells out
      the path; otherwise the first match of the requested post type, or,
      when there is none, the last match. */
  lemma FoundPageChoice(pages: Pages, revparts: seq<string>, a: PostTypeArg)
    ensures FoundPage(pages, revparts, a).None? <==> forall j :: 0 <= j < |pages.keys| ==> !IsMatch(pages, revparts, j)
    ensures FoundPage(pages, revparts, a).Some? ==>
      exists j :: IsMatch(pages, revparts, j) && FoundPage(pages, revparts, a) == Some(pages.keys[j])
    ensures (exists j :: IsPreferredMatch(pages, revparts, a, j)) ==>
      exists j :: IsPreferredMatch(pages, revparts, a, j) && FoundPage(pages, revparts, a) == Some(pages.keys[j]) &&
        forall j' :: 0 <= j' < j ==> !IsPreferredMatch(pages, revparts, a, j')
    ensures ((forall j :: !IsPreferredMatch(pages, revparts, a, j)) && FoundPage(pages, revparts, a).Some?) ==>
      exists j :: IsMatch(pages, revparts, j) && FoundPage(pages, revparts, a) == Some(pages.keys[j]) &&
        forall j' :: j < j' < |pages.keys| ==> !IsMatch(pages, revparts, j')
  {
    if forall j :: 0 <= j < |pages.keys| ==> !IsMatch(pages, revparts, j) {
      SelectFromNoMatch(pages, revparts, a, 0, None);
    }
    if exists j :: 0 <= j < |pages.keys| && IsPreferredMatch(pages, revparts, a, j) {
      SelectFromPreferred(pages, revparts, a, 0, None);
    } else if exists j :: 0 <= j < |pages.keys| && IsMatch(pages, revparts, j) {
      SelectFromLast(pages, revparts, a, 0, None);
    }
  }

  /** FoundPageChoice said of the fetched rows by id rather than by position. */
  lemma FoundPageById(pages: Pages, revparts: seq<string>, a: PostTypeArg)
    requires ValidPages(pages) && |revparts| > 0
    ensures var r := FoundPage(pages, revparts, a);
      (r.Some? ==> r.value in pages.rows && PathMatches(pages.rows, r.value, revparts, 0)) &&
      (r.None? ==> forall id :: id in pages.rows ==> !PathMatches(pages.rows, id, revparts, 0)) &&
      ((exists id :: id in pages.rows && PathMatches(pages.rows, id, revparts, 0) && IsRequestedType(pages.rows[id], a)) ==>
         r.Some? && r.value in pages.rows && IsRequestedType(pages.rows[r.value], a))
  {
    FoundPageChoice(pages, revparts, a);
    forall id | id in pages.rows && PathMatches(pages.rows, id, revparts, 0)
      ensures exists j :: IsMatch(pages, revparts, j) && pages.keys[j] == id
    {
      var j :| 0 <= j < |pages.keys| && pages.keys[j] == id;
      assert IsMatch(pages, revparts, j);
    }
    if exists id :: id in pages.rows && PathMatches(pages.rows, id, revparts, 0) && IsRequestedType(pages.rows[id], a) {
      var id :| id in pages.rows && PathMatches(pages.rows, id, revparts, 0) && IsRequestedType(pages.rows[id], a);
      var j :| 0 <= j < |pages.keys| && pages.keys[j] == id;
      assert IsPreferredMatch(pages, revparts, a, j);
    }
  }

  /** get_page_by_path( $page_path, $lang, OBJECT, $post_type ) on the path
      already cut into segments. */
  function PageByPath(table: PostTable, parts: seq<string>, lang: string, a: PostTypeArg): (r: Option<PostId>)
    requires ValidTable(table) && |parts| > 0
    ensures r.Some? ==> r.value in table.rows
    ensures r.Some? ==>
      (table.rows[r.value].name == parts[|parts| - 1] &&
       table.rows[r.value].lang == Some(lang) && table.rows[r.value].postType in SearchedTypes(a))
    ensures var pages := FetchPages(table, parts, SearchedTypes(a), lang);
      (r.Some? ==> r.value in pages.rows && PathMatches(pages.rows, r.value, Reverse(parts), 0)) &&
      (r.None? <==> forall id :: id in pages.rows ==> !PathMatches(pages.rows, id, Reverse(parts), 0))
    ensures var pages := FetchPages(table, parts, SearchedTypes(a), lang);
      (exists id :: id in pages.rows && PathMatches(pages.rows, id, Reverse(parts), 0) && IsRequestedType(pages.rows[id], a)) ==>
        r.Some? && IsRequestedType(table.rows[r.value], a)
  {
    var pages := FetchPages(table, parts, SearchedTypes(a), lang);
    FoundPageChoice(pages, Reverse(parts), a);
    FoundPageById(pages, Reverse(parts), a);
    FoundPage(pages, Reverse(parts), a)
  }

  /** The inner while of get_page_by_path: from a page named like the last
      segment, climb the parents inside the fetched rows while they spell
      the path backwards, then check that the climb ended at a root page on
      the first segment. */
  method ClimbsPath(rows: map<PostId, PostRow>, id: PostId, revparts: seq<string>) returns (b: bool)
    requires id in rows && |revparts| > 0 && rows[id].name == revparts[0]
    ensures b == PathMatches(rows, id, revparts, 0)
  {
    var count := 0;
    var p := id;
    while rows[p].parent != 0 && rows[p].parent in rows
      invariant p in rows && count < |revparts|
      invariant rows[p].name == revparts[count]
      invariant PathMatches(rows, p, revparts, count) == PathMatches(rows, id, revparts, 0)
      decreases |revparts| - count
    {
      count := count + 1;
      var parent := rows[p].parent;
      if count >= |revparts| || rows[parent].name != revparts[count] {
        break;
      }
      p := parent;
    }
    b := rows[p].parent == 0 && |revparts| == count + 1 && rows[p].name == revparts[count];
  }

  /** get_page_by_path as the PHP code runs it: fetch, then a foreach over the
      pages that stops at the first match of the requested type. */
  method GetPageByPath(table: PostTable, parts: seq<string>, lang: string, a: PostTypeArg) returns (r: Option<PostId>)
    requires ValidTable(table) && |parts| > 0
    ensures r == PageByPath(table, parts, lang, a)
  {
    var pages := FetchPages(table, parts, SearchedTypes(a), lang);
    var revparts := Reverse(parts);
    var foundId: Option<PostId> := None;
    var i := 0;
    while i < |pages.keys|
      invariant i <= |pages.keys|
      invariant SelectFrom(pages, revparts, a, i, foundId) == FoundPage(pages, revparts, a)
    {
      var id := pages.keys[i];
      var page := pages.rows[id];
      if page.name == revparts[0] {
        var matches := ClimbsPath(pages.rows, id, revparts);
        if matches {
          foundId := Some(id);
          if IsRequestedType(page, a) {
            break;
          }
        }
      }
      i := i + 1;
    }
    r := foundId;
  }

  // ---------------------------------------------------------------------
  // parse_query

  /** The query object: its query vars and the queried page it resolves to. */
  class WpQuery {
    var queryVars: QueryVars
    var queriedObject: Option<PostId>

    constructor (queryVars: QueryVars)
      ensures this.queryVars == queryVars && queriedObject == None
    {
      this.queryVars := queryVars;
      queriedObject := None;
    }
  }

  /** The page path looked up: pagename, or name for a query by name of a
      hierarchical post type. */
  function Pagename(qv: QueryVars, config: Config): (r: string)
    ensures Truthy(qv.pagename) ==> r == qv.pagename
    ensures r == qv.pagename || r == qv.name
    ensures (!Truthy(qv.pagename) && Truthy(qv.name) && !IsEmptyType(qv.postType) &&
             exists t :: t in TypeList(qv.postType) && t in config.hierarchicalPostTypes) ==> r == qv.name
    ensures (forall t :: t in TypeList(qv.postType) ==> t !in config.hierarchicalPostTypes) ==> r == qv.pagename
  {
    if !Truthy(qv.pagename) && Truthy(qv.name) && !IsEmptyType(qv.postType) &&
       exists t :: t in TypeList(qv.postType) && t in config.hierarchicalPostTypes
    then qv.name
    else qv.pagename
  }

  /** `explode( '/', trim( $page_path, '/' ) )` (the URL decoding and
      sanitisation around it are not modelled). */
  function PathParts(path: string): (parts: seq<string>)
    ensures |parts| >= 1
    ensures forall i :: 0 <= i < |parts| ==> '/' !in parts[i]
    ensures Join('/', parts) == Trim(path, '/')
  {
    Explode('/', Trim(path, '/'))
  }

  /** The two lookups of parse_query for one path: the requested type (a
      page when none is requested), then, for a query without a type under a
      %postname% permalink, a post when the first found nothing or an
      attachment. */
  function PageForPath(table: PostTable, parts: seq<string>, lang: string, postType: PostTypeArg, postnamePermalink: bool): (r: Option<PostId>)
    requires ValidTable(table) && |parts| > 0
    ensures r.Some? ==>
      (r.value in table.rows && table.rows[r.value].lang == Some(lang) &&
       table.rows[r.value].name == Last(parts))
    ensures !IsEmptyType(postType) ==> r == PageByPath(table, parts, lang, postType)
    ensures IsEmptyType(postType) && !postnamePermalink ==> r == PageByPath(table, parts, lang, Single("page"))
    ensures var page := PageByPath(table, parts, lang, Single("page"));
      (IsEmptyType(postType) && page.Some? && table.rows[page.value].postType != "attachment") ==> r == page
    ensures var page, post := PageByPath(table, parts, lang, Single("page")), PageByPath(table, parts, lang, Single("post"));
      (IsEmptyType(postType) && postnamePermalink && (page.None? || table.rows[page.value].postType == "attachment")) ==>
        r == (if post.Some? then post else page)
  {
    var requested := if IsEmptyType(postType) then Single("page") else postType;
    var first := PageByPath(table, parts, lang, requested);
    if IsEmptyType(postType) && (first.None? || table.rows[first.value].postType == "attachment") && postnamePermalink then
      var post := PageByPath(table, parts, lang, Single("post"));
      if post.Some? then post else first
    else first
  }

  /** The page parse_query makes the queried object, if any. */
  function QueriedPage(table: PostTable, config: Config, qv: QueryVars, postnamePermalink: bool): (r: Option<PostId>)
    requires ValidTable(table)
    ensures r.Some? ==>
      (var lang, path := LanguageForFilter(qv, config), Pagename(qv, config);
       r.value in table.rows && lang.Some? && Truthy(path) &&
       table.rows[r.value].lang == Some(lang.value.slug) &&
       table.rows[r.value].name == Last(PathParts(path)))
    ensures var lang, path := LanguageForFilter(qv, config), Pagename(qv, config);
      (lang.Some? && Truthy(path)) ==> r == PageForPath(table, PathParts(path), lang.value.slug, qv.postType, postnamePermalink)
  {
    match LanguageForFilter(qv, config)
    case None => None
    case Some(l) =>
      var pagename := Pagename(qv, config);
      if !Truthy(pagename) then None
      else PageForPath(table, PathParts(pagename), l.slug, qv.postType, postnamePermalink)
  }

  /** A filtered query with a truthy path finds a page whenever the first
      lookup of parse_query has a fetched page spelling out the path. */
  lemma QueriedPageFindsExisting(table: PostTable, config: Config, qv: QueryVars, postnamePermalink: bool)
    requires ValidTable(table)
    requires LanguageForFilter(qv, config).Some? && Truthy(Pagename(qv, config))
    requires var parts, requested := PathParts(Pagename(qv, config)), if IsEmptyType(qv.postType) then Single("page") else qv.postType;
      var pages := FetchPages(table, parts, SearchedTypes(requested), LanguageForFilter(qv, config).value.slug);
      exists id :: id in pages.rows && PathMatches(pages.rows, id, Reverse(parts), 0)
    ensures QueriedPage(table, config, qv, postnamePermalink).Some?
  {
  }

  function Last(parts: seq<string>): string
    requires |parts| > 0
  {
    parts[|parts| - 1]
  }

  /** parse_query: set the queried object when a page is found; the query
      vars themselves are left as they were (the plugin edits a copy). */
  method ParseQuery(query: WpQuery, table: PostTable, config: Config, postnamePermalink: bool)
    requires ValidTable(table)
    modifies query
    ensures query.queryVars == old(query.queryVars)
    ensures query.queriedObject ==
      (var found := QueriedPage(table, config, old(query.queryVars), postnamePermalink);
       if found.Some? then found else old(query.queriedObject))
  {
    var lang := LanguageForFilter(query.queryVars, config);
    if lang.Some? {
      var qv := query.queryVars;
      var pagename := Pagename(qv, config);
      if Truthy(pagename) {
        var parts := PathParts(pagename);
        var requested := if IsEmptyType(qv.postType) then Single("page") else qv.postType;
        var queried := GetPageByPath(table, parts, lang.value.slug, requested);
        if IsEmptyType(qv.postType) && (queried.None? || table.rows[queried.value].postType == "attachment") && postnamePermalink {
          var post := GetPageByPath(table, parts, lang.value.slug, Single("post"));
          if post.Some? {
            queried := post;
          }
        }
        if queried.Some? {
          query.queriedObject := queried;
        }
      }
    }
  }
}
