/**
 * The posts table as the plugin's queries see it: each row with its name
 * (slug), post type, parent and Polylang language, and the order in which
 * the database returns rows.
 */
module Posts {
  import opened PhpStrings

  /** Post ids start at 1; a post_parent of 0 means "no parent". */
  type PostId = n: nat | n > 0 witness 1

  datatype PostRow = PostRow(name: string, postType: string, parent: nat, lang: Option<string>)

  datatype PostTable = PostTable(rows: map<PostId, PostRow>, order: seq<PostId>)

  predicate Distinct<T(==)>(s: seq<T>) {
    forall i, j :: 0 <= i < j < |s| ==> s[i] != s[j]
  }

  /** Every row appears exactly once in the row order. */
  predicate ValidTable(table: PostTable) {
    Distinct(table.order) &&
    (forall id :: id in table.rows ==> id in table.order) &&
    (forall id :: id in table.order ==> id in table.rows)
  }

  /** `$this->model->post->get_language( $post_ID )` */
  function PostLanguage(rows: map<PostId, PostRow>, postId: nat): (r: Option<string>)
    ensures r.Some? ==> postId > 0 && postId in rows && rows[postId].lang == r
    ensures postId > 0 && postId in rows ==> r == rows[postId].lang
  {
    if postId > 0 && postId in rows then rows[postId].lang else None
  }
}
