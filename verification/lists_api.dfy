/**
 * The list-creation and list-listing handlers (src/pages/api/lists/index.ts).
 *
 * The persistence engine is an in-memory table of List records: the rows in
 * insertion order and the next identifier to assign. The clock that stamps
 * createdAt and the success or failure of each storage call are parameters.
 * Requests are handled one at a time.
 */
module ListsApi {
  import opened Wrappers
  import opened Records
  import UrlUtils

  /** The parsed JSON body of a POST; a field that is absent or null is `None`. */
  datatype PostBody = PostBody(title: Option<string>, description: Option<string>, slug: Option<string>)

  datatype ResponseBody =
    | ErrorBody(error: string)
    | ListBody(list: ListRecord)
    | ListsBody(lists: seq<ListRecord>)

  datatype Response = Response(status: int, body: ResponseBody)

  const TitleRequired: string := "Title is required"
  const SlugExists: string := "Slug already exists"
  const CreateFailed: string := "Failed to create list"
  const FetchFailed: string := "Failed to fetch lists"

  /** A snapshot of the list table: its rows and the identifier the next insert receives. */
  datatype Table = Table(rows: seq<ListRecord>, nextId: nat)

  /** No two stored lists share a slug. */
  predicate SlugsUnique(rows: seq<ListRecord>) {
    forall i, j :: 0 <= i < j < |rows| ==> rows[i].slug != rows[j].slug
  }

  /** Identifiers grow in insertion order and stay below the next one to assign. */
  predicate IdsIncreasing(rows: seq<ListRecord>, nextId: nat) {
    (forall i, j :: 0 <= i < j < |rows| ==> rows[i].id < rows[j].id) &&
    (forall i :: 0 <= i < |rows| ==> rows[i].id < nextId)
  }

  /** The table invariant every handler keeps. */
  predicate TableInvariant(t: Table) {
    SlugsUnique(t.rows) && IdsIncreasing(t.rows, t.nextId)
  }

  /** `findUnique({ where: { slug } })` finds a row. */
  predicate SlugTaken(rows: seq<ListRecord>, slug: string) {
    exists i :: 0 <= i < |rows| && rows[i].slug == slug
  }

  /** `!title` is false: the title is present and not empty. */
  predicate HasTitle(title: Option<string>) {
    title.Some? && title.value != ""
  }

  /**
   * The slug a new list receives: the caller's when it is non-empty, otherwise
   * one generated from the title (an absent slug defaults to the empty string).
   */
  function FinalSlug(slug: Option<string>, title: string): (r: string)
    ensures slug.Some? && slug.value != "" ==> r == slug.value
    ensures slug.None? || slug.value == "" ==>
              r == UrlUtils.GenerateSlug(title) && UrlUtils.AllSlugChars(r) && UrlUtils.NoDoubleHyphen(r)
  {
    if slug.Some? && slug.value != "" then slug.value else UrlUtils.GenerateSlug(title)
  }

  /** The outcome of one POST: the table afterwards and the response sent. */
  datatype PostResult = PostResult(table: Table, response: Response)

  /**
   * POST /lists. `body` is `None` when the request body is not JSON;
   * `storageOk` is false when a storage call fails. Every failure after the
   * body is read is caught and answered with 500.
   */
  function PostSpec(t: Table, body: Option<PostBody>, now: int, storageOk: bool): (r: PostResult)
    ensures r.response.status == 201 || r.response.status == 400 || r.response.status == 500
    ensures r.response.status != 201 ==> r.table == t && r.response.body.ErrorBody?
    ensures r.response.status == 201 <==>
              body.Some? && HasTitle(body.value.title) && storageOk &&
              !SlugTaken(t.rows, FinalSlug(body.value.slug, body.value.title.value))
    ensures r.response.status == 201 ==>
              r.response.body == ListBody(ListRecord(t.nextId, body.value.title.value, body.value.description,
                                                     FinalSlug(body.value.slug, body.value.title.value), now)) &&
              r.table == Table(t.rows + [r.response.body.list], t.nextId + 1)
    ensures body.Some? && !HasTitle(body.value.title) ==> r.response == Response(400, ErrorBody(TitleRequired))
    ensures body.None? || (HasTitle(body.value.title) && !storageOk) ==>
              r.response == Response(500, ErrorBody(CreateFailed))
    ensures body.Some? && HasTitle(body.value.title) && storageOk &&
            SlugTaken(t.rows, FinalSlug(body.value.slug, body.value.title.value)) ==>
              r.response == Response(400, ErrorBody(SlugExists))
  {
    if body.None? then
      PostResult(t, Response(500, ErrorBody(CreateFailed)))
    else if !HasTitle(body.value.title) then
      PostResult(t, Response(400, ErrorBody(TitleRequired)))
    else if !storageOk then
      PostResult(t, Response(500, ErrorBody(CreateFailed)))
    else
      var title := body.value.title.value;
      var slug := FinalSlug(body.value.slug, title);
      if SlugTaken(t.rows, slug) then
        PostResult(t, Response(400, ErrorBody(SlugExists)))
      else
        var list := ListRecord(t.nextId, title, body.value.description, slug, now);
        PostResult(Table(t.rows + [list], t.nextId + 1), Response(201, ListBody(list)))
  }

  /** A POST keeps slugs pairwise distinct and identifiers increasing. */
  lemma PostKeepsInvariant(t: Table, body: Option<PostBody>, now: int, storageOk: bool)
    requires TableInvariant(t)
    ensures TableInvariant(PostSpec(t, body, now, storageOk).table)
  {
    var r := PostSpec(t, body, now, storageOk);
    if r.response.status == 201 {
      var list := r.response.body.list;
      assert forall i :: 0 <= i < |t.rows| ==> t.rows[i].slug != list.slug;
    }
  }

  /** A POST never changes or removes a stored list: the old rows are a prefix of the new ones. */
  lemma PostOnlyAppends(t: Table, body: Option<PostBody>, now: int, storageOk: bool)
    ensures |t.rows| <= |PostSpec(t, body, now, storageOk).table.rows|
    ensures PostSpec(t, body, now, storageOk).table.rows[..|t.rows|] == t.rows
    ensures |PostSpec(t, body, now, storageOk).table.rows| <= |t.rows| + 1
  {
  }

  /** One request of a sequential run of POSTs. */
  datatype PostCall = PostCall(body: Option<PostBody>, now: int, storageOk: bool)

  /** The table after a sequence of POSTs, handled one after the other. */
  function RunPosts(t: Table, calls: seq<PostCall>): (r: Table)
    decreases |calls|
  {
    if calls == [] then t
    else RunPosts(PostSpec(t, calls[0].body, calls[0].now, calls[0].storageOk).table, calls[1..])
  }

  /** Under sequential calls, slugs stay unique however many POSTs arrive. */
  lemma {:induction false} RunPostsKeepsInvariant(t: Table, calls: seq<PostCall>)
    requires TableInvariant(t)
    ensures TableInvariant(RunPosts(t, calls))
    decreases |calls|
  {
    if calls != [] {
      PostKeepsInvariant(t, calls[0].body, calls[0].now, calls[0].storageOk);
      RunPostsKeepsInvariant(PostSpec(t, calls[0].body, calls[0].now, calls[0].storageOk).table, calls[1..]);
    }
  }

  /**
   * Collisions are rejected, never renamed: after a successful POST, the same
   * body posted again is answered "Slug already exists" and adds nothing.
   */
  lemma RepeatedPostConflicts(t: Table, body: PostBody, now: int, later: int)
    requires PostSpec(t, Some(body), now, true).response.status == 201
    ensures var t' := PostSpec(t, Some(body), now, true).table;
            PostSpec(t', Some(body), later, true) == PostResult(t', Response(400, ErrorBody(SlugExists)))
  {
    var t' := PostSpec(t, Some(body), now, true).table;
    var slug := FinalSlug(body.slug, body.title.value);
    assert t'.rows[|t.rows|].slug == slug;
    assert SlugTaken(t'.rows, slug);
  }

  // ---------------------------------------------------------------------------
  // GET: every list, newest first
  // ---------------------------------------------------------------------------

  /** Ordered by createdAt, non-increasing. */
  predicate NewestFirst(s: seq<ListRecord>) {
    forall i, j :: 0 <= i < j < |s| ==> s[i].createdAt >= s[j].createdAt
  }

  /** Inserts `x` into a newest-first sequence, before every record that is not newer. */
  function InsertNewestFirst(x: ListRecord, s: seq<ListRecord>): (r: seq<ListRecord>)
    requires NewestFirst(s)
    ensures NewestFirst(r)
    ensures multiset(r) == multiset(s) + multiset{x}
    ensures |r| == |s| + 1 && (r[0] == x || (s != [] && r[0] == s[0]))
  {
    if s == [] || x.createdAt >= s[0].createdAt then [x] + s
    else
      assert s == [s[0]] + s[1..];
      [s[0]] + InsertNewestFirst(x, s[1..])
  }

  /** `orderBy: { createdAt: 'desc' }`: a newest-first permutation of the rows. */
  function SortNewestFirst(s: seq<ListRecord>): (r: seq<ListRecord>)
    ensures NewestFirst(r)
    ensures multiset(r) == multiset(s)
    ensures |r| == |s|
  {
    if s == [] then []
    else
      assert s == [s[0]] + s[1..];
      InsertNewestFirst(s[0], SortNewestFirst(s[1..]))
  }

  /**
   * GET /lists: 200 with every stored list newest first, or 500 when the
   * storage call fails. A query: it reads the table and changes nothing.
   */
  function GetLists(t: Table, storageOk: bool): (r: Response)
    ensures storageOk ==> r.status == 200 && r.body.ListsBody? &&
                          multiset(r.body.lists) == multiset(t.rows) && NewestFirst(r.body.lists)
    ensures !storageOk ==> r == Response(500, ErrorBody(FetchFailed))
  {
    if storageOk then Response(200, ListsBody(SortNewestFirst(t.rows)))
    else Response(500, ErrorBody(FetchFailed))
  }

  /** A list created by a POST is returned by the next GET, next to every list stored before it. */
  lemma PostThenGet(t: Table, body: Option<PostBody>, now: int)
    requires PostSpec(t, body, now, true).response.status == 201
    ensures var r := PostSpec(t, body, now, true);
            var lists := GetLists(r.table, true).body.lists;
            r.response.body.list in lists &&
            multiset(lists) == multiset(t.rows) + multiset{r.response.body.list}
  {
    var r := PostSpec(t, body, now, true);
    var lists := GetLists(r.table, true).body.lists;
    assert r.response.body.list in multiset(lists);
  }

  /**
   * A title made only of symbols slugifies to the empty string, and the list
   * is created with that empty slug when no list has it yet.
   */
  lemma SymbolTitleGetsEmptySlug(t: Table, now: int)
    requires !SlugTaken(t.rows, "")
    ensures var r := PostSpec(t, Some(PostBody(Some("!!!"), None, None)), now, true);
            r.response.status == 201 && r.response.body.list.slug == ""
  {
    UrlUtils.GenerateSlugEmptyExample();
  }

  // ---------------------------------------------------------------------------
  // The table as mutable state
  // ---------------------------------------------------------------------------

  /** The list table the handlers read and write. */
  class ListTable {
    var rows: seq<ListRecord>
    var nextId: nat

    function State(): Table
      reads this
    {
      Table(rows, nextId)
    }

    predicate Valid()
      reads this
    {
      TableInvariant(State())
    }

    constructor ()
      ensures Valid() && rows == [] && nextId == 1
    {
      rows := [];
      nextId := 1;
    }

    /**
     * POST /lists: check the title, choose the slug, reject a taken slug,
     * append the new list.
     */
    method Post(body: Option<PostBody>, now: int, storageOk: bool) returns (resp: Response)
      requires Valid()
      modifies this
      ensures Valid()
      ensures PostSpec(old(State()), body, now, storageOk) == PostResult(State(), resp)
    {
      if body.None? {
        return Response(500, ErrorBody(CreateFailed));
      }
      var b := body.value;
      if !HasTitle(b.title) {
        return Response(400, ErrorBody(TitleRequired));
      }
      if !storageOk {
        return Response(500, ErrorBody(CreateFailed));
      }
      var title := b.title.value;
      var slug := FinalSlug(b.slug, title);
      var existing := exists i | 0 <= i < |rows| :: rows[i].slug == slug;
      if existing {
        return Response(400, ErrorBody(SlugExists));
      }
      var list := ListRecord(nextId, title, b.description, slug, now);
      PostKeepsInvariant(State(), body, now, storageOk);
      rows := rows + [list];
      nextId := nextId + 1;
      resp := Response(201, ListBody(list));
    }
  }
}
