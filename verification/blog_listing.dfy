/** The two listing routes, `GET /api/blogs` and `GET /api/blogs/my`: the
    query parameters, the filter they build, and the skip/limit window and
    page count over the matching blogs. The store's newest-first order is
    the parameter `order`, and full-text search is the oracle `textMatch`. */
module BlogListing {
  import opened Base
  import opened Text
  import opened Lists
  import opened BlogSchema
  import opened QueryParams

  type BlogStore = map<Id, Blog>

  const DefaultPage: int := 1
  const DefaultLimit: int := 10

  datatype ListQuery = ListQuery(
    page: Option<string>,
    limit: Option<string>,
    search: Option<string>,
    tag: Option<string>,
    author: Option<string>)

  /** A query filter: the conjunction of the conditions that are present. */
  datatype Filter = Filter(publicOnly: bool, text: Option<string>, tag: Option<string>,
                           author: Option<Id>)

  predicate Matches(f: Filter, b: Blog, textMatch: (string, Blog) -> bool) {
    && (f.publicOnly ==> b.isPublic)
    && (f.text.Some? ==> textMatch(f.text.value, b))
    && (f.tag.Some? ==> f.tag.value in b.tags)
    && (f.author.Some? ==> b.author == f.author.value)
  }

  function Truthy(s: Option<string>): Option<string> {
    if s.Some? && s.value != "" then s else None
  }

  /** The filter of the public listing: always public blogs only; a
      non-empty search, tag or author adds a condition. The query casts its
      values through the schema paths: the tag, already lowered by the
      handler, passes the `tags` setters (trim, lower case), and the author
      becomes an ObjectId, whose string form is lower-case hexadecimal. */
  function PublicFilter(q: ListQuery): (f: Filter)
    ensures f.publicOnly
    ensures f.tag.Some? <==> q.tag.Some? && q.tag.value != ""
    ensures f.tag.Some? ==> f.tag.value == NormalizeTag(q.tag.value)
    ensures f.author.Some? <==> q.author.Some? && q.author.value != ""
    ensures f.author.Some? ==> f.author.value == Lower(q.author.value)
    ensures f.text.Some? <==> q.search.Some? && q.search.value != ""
    ensures f.text.Some? ==> f.text.value == q.search.value
  {
    var tag := Truthy(q.tag);
    var author := Truthy(q.author);
    var tagCond := if tag.Some? then Some(NormalizeTag(Lower(tag.value))) else None;
    assert tag.Some? ==> tagCond.value == NormalizeTag(tag.value) by {
      if tag.Some? { LowerIsLower(tag.value); }
    }
    Filter(true, Truthy(q.search), tagCond, if author.Some? then Some(Lower(author.value)) else None)
  }

  /** Whether the `author` parameter survives the cast to an ObjectId:
      absent or empty (no condition), or 24 hexadecimal digits. Any other
      author makes the query throw. */
  predicate AuthorCasts(q: ListQuery) {
    Truthy(q.author).None? || IsObjectId(q.author.value)
  }

  /** The filter of the caller's own listing: every blog of theirs, public
      or not. */
  function OwnFilter(user: Id): Filter {
    Filter(false, None, None, Some(user))
  }

  /** The ids of `order` whose blogs match, in that order. */
  function MatchingIds(order: seq<Id>, blogs: BlogStore, f: Filter,
                       textMatch: (string, Blog) -> bool): (r: seq<Id>)
    ensures |r| <= |order|
    ensures forall k :: 0 <= k < |r| ==> r[k] in blogs && Matches(f, blogs[r[k]], textMatch)
    ensures forall id :: id in r <==> id in order && id in blogs && Matches(f, blogs[id], textMatch)
  {
    if |order| == 0 then []
    else
      var rest := MatchingIds(order[1..], blogs, f, textMatch);
      var id := order[0];
      assert forall x :: x in order <==> x == id || x in order[1..];
      if id in blogs && Matches(f, blogs[id], textMatch) then [id] + rest else rest
  }

  /** The number of results a limit allows: its magnitude. */
  function Magnitude(limit: int): nat {
    if limit < 0 then -limit else limit
  }

  /** `.skip(skip).limit(limit)` on a result list: the results from
      position `skip` on, as many as the limit's magnitude allows, fewer
      only when the list runs out. A negative limit returns at most its
      magnitude, as MongoDB does. */
  function Window<T>(s: seq<T>, skip: nat, limit: int): (r: seq<T>)
    ensures |r| <= |s| && |r| <= Magnitude(limit)
    ensures skip >= |s| ==> r == []
    ensures skip < |s| ==> skip + |r| <= |s|
    ensures |r| < Magnitude(limit) ==> skip + |r| >= |s|
    ensures forall k :: 0 <= k < |r| ==> skip + k < |s| && r[k] == s[skip + k]
  {
    var count := Magnitude(limit);
    var start := if skip < |s| then skip else |s|;
    var end := if start + count < |s| then start + count else |s|;
    s[start..end]
  }

  datatype Pagination = Pagination(current: int, pages: int, total: nat)
  datatype Listing = Listing(blogs: seq<Blog>, pagination: Pagination)

  /** Runs one listing query: `skip = (page - 1) * limit`, the window of
      matching blogs, and `pages = ceil(total / limit)`. A negative skip is
      refused by the database, which the handler reports as a 500. */
  function RunQuery(blogs: BlogStore, order: seq<Id>, textMatch: (string, Blog) -> bool,
                    f: Filter, page: int, limit: int, failure: string): (r: Reply<Listing>)
    requires limit != 0
    ensures r.Fail? <==> (page - 1) * limit < 0
    ensures r.Fail? ==> r.status == ServerError && r.message == failure
    ensures r.Ok? ==> r.status == Success
    ensures r.Ok? ==> r.body.pagination.current == page
    ensures r.Ok? ==> r.body.pagination.total == |MatchingIds(order, blogs, f, textMatch)|
    ensures r.Ok? ==> r.body.pagination.pages == CeilDiv(r.body.pagination.total, limit)
    ensures r.Ok? ==> forall k :: 0 <= k < |r.body.blogs| ==> Matches(f, r.body.blogs[k], textMatch)
    ensures r.Ok? && limit > 0 ==> |r.body.blogs| <= limit
    ensures r.Ok? ==> var shown := Window(MatchingIds(order, blogs, f, textMatch), (page - 1) * limit, limit);
              && |r.body.blogs| == |shown|
              && forall k :: 0 <= k < |shown| ==> shown[k] in blogs && r.body.blogs[k] == blogs[shown[k]]
  {
    var skip := (page - 1) * limit;
    if skip < 0 then Fail(ServerError, failure)
    else
      var ids := MatchingIds(order, blogs, f, textMatch);
      var shown := Window(ids, skip, limit);
      var items := seq(|shown|, k requires 0 <= k < |shown| => blogs[shown[k]]);
      var total := |ids|;
      Ok(Success, Listing(items, Pagination(page, CeilDiv(total, limit), total)))
  }

  /** `GET /api/blogs`: page defaults to 1 and limit to 10. The reply is
      the requested page of the public blogs matching the query, with the
      page count and the total number of matches. An author that is no
      ObjectId fails the query's cast, which the handler reports as a 500. */
  function ListPublic(blogs: BlogStore, order: seq<Id>, textMatch: (string, Blog) -> bool,
                      q: ListQuery): (r: Reply<Listing>)
    ensures var (page, limit) := (IntParam(q.page, DefaultPage), IntParam(q.limit, DefaultLimit));
      var ids := MatchingIds(order, blogs, PublicFilter(q), textMatch);
      && limit != 0
      && (r.Ok? <==> (page - 1) * limit >= 0 && AuthorCasts(q))
      && (r.Fail? ==> r == Fail(ServerError, "Failed to fetch blogs"))
      && (r.Ok? ==> r.body.pagination == Pagination(page, CeilDiv(|ids|, limit), |ids|))
      && (r.Ok? ==> var shown := Window(ids, (page - 1) * limit, limit);
                    && |r.body.blogs| == |shown|
                    && forall k :: 0 <= k < |shown| ==> shown[k] in blogs && r.body.blogs[k] == blogs[shown[k]])
    ensures r.Ok? ==> forall k :: 0 <= k < |r.body.blogs| ==>
              && r.body.blogs[k].isPublic
              && (q.tag.Some? && q.tag.value != "" ==> NormalizeTag(q.tag.value) in r.body.blogs[k].tags)
              && (q.author.Some? && q.author.value != "" ==> r.body.blogs[k].author == Lower(q.author.value))
  {
    var page := IntParam(q.page, DefaultPage);
    var limit := IntParam(q.limit, DefaultLimit);
    if !AuthorCasts(q) then Fail(ServerError, "Failed to fetch blogs")
    else RunQuery(blogs, order, textMatch, PublicFilter(q), page, limit, "Failed to fetch blogs")
  }

  /** `GET /api/blogs/my` for the authenticated `user`: search and tag are
      ignored, private blogs included. Page defaults to 1 and limit to 10;
      the reply is the requested page of the user's blogs, with the page
      count and the total number of them. */
  function ListOwn(blogs: BlogStore, order: seq<Id>, textMatch: (string, Blog) -> bool,
                   user: Id, q: ListQuery): (r: Reply<Listing>)
    ensures var (page, limit) := (IntParam(q.page, DefaultPage), IntParam(q.limit, DefaultLimit));
      var ids := MatchingIds(order, blogs, OwnFilter(user), textMatch);
      && limit != 0
      && (r.Ok? <==> (page - 1) * limit >= 0)
      && (r.Fail? ==> r == Fail(ServerError, "Failed to fetch your blogs"))
      && (r.Ok? ==> r.body.pagination == Pagination(page, CeilDiv(|ids|, limit), |ids|))
      && (r.Ok? ==> var shown := Window(ids, (page - 1) * limit, limit);
                    && |r.body.blogs| == |shown|
                    && forall k :: 0 <= k < |shown| ==> shown[k] in blogs && r.body.blogs[k] == blogs[shown[k]])
    ensures r.Ok? ==> forall k :: 0 <= k < |r.body.blogs| ==> r.body.blogs[k].author == user
  {
    var page := IntParam(q.page, DefaultPage);
    var limit := IntParam(q.limit, DefaultLimit);
    RunQuery(blogs, order, textMatch, OwnFilter(user), page, limit, "Failed to fetch your blogs")
  }

  // ----------------------------------------------------------- properties

  /** With no page or limit parameter the first ten matches are shown, in
      order, whenever the author (if any) casts. */
  lemma DefaultsShowFirstTen(blogs: BlogStore, order: seq<Id>, textMatch: (string, Blog) -> bool,
                             q: ListQuery)
    requires q.page.None? && q.limit.None?
    ensures var r := ListPublic(blogs, order, textMatch, q);
      var ids := MatchingIds(order, blogs, PublicFilter(q), textMatch);
      && (r.Ok? <==> AuthorCasts(q))
      && (r.Ok? ==> r.body.pagination.current == 1)
      && (r.Ok? ==> |r.body.blogs| == (if |ids| < 10 then |ids| else 10))
      && (r.Ok? ==> forall k :: 0 <= k < |r.body.blogs| ==> r.body.blogs[k] == blogs[ids[k]])
  {
  }

  /** An `author` parameter that is no ObjectId makes the listing a 500,
      whatever the page, limit and store. */
  lemma MalformedAuthorIsServerError(blogs: BlogStore, order: seq<Id>,
                                     textMatch: (string, Blog) -> bool, q: ListQuery)
    requires q.author.Some? && q.author.value != "" && !IsObjectId(q.author.value)
    ensures ListPublic(blogs, order, textMatch, q) == Fail(ServerError, "Failed to fetch blogs")
  {
  }

  /** White space around the tag parameter does not change the listing:
      `?tag=%20js%20` finds what `?tag=js` finds. */
  lemma PaddedTagFindsTheSame(q: ListQuery, t: string, before: string, after: string)
    requires AllSpace(before) && AllSpace(after) && Trimmed(t) && t != ""
    ensures PublicFilter(q.(tag := Some(before + t + after))) == PublicFilter(q.(tag := Some(t)))
  {
    var padded := before + t + after;
    TrimLowerCommute(padded);
    TrimOfPadded(t, before, after);
    TrimLowerCommute(t);
    TrimOfTrimmed(t);
    assert NormalizeTag(padded) == NormalizeTag(t);
  }

  /** `order` lists every stored blog exactly once. */
  predicate Enumerates(order: seq<Id>, blogs: BlogStore) {
    NoDuplicates(order) && (forall k :: 0 <= k < |order| ==> order[k] in blogs)
    && (forall id :: id in blogs ==> id in order)
  }

  function MatchingSet(blogs: BlogStore, f: Filter, textMatch: (string, Blog) -> bool): set<Id> {
    set id | id in blogs && Matches(f, blogs[id], textMatch)
  }

  lemma {:induction false} MatchingIdsCount(order: seq<Id>, blogs: BlogStore, f: Filter,
                                            textMatch: (string, Blog) -> bool)
    requires NoDuplicates(order)
    ensures |MatchingIds(order, blogs, f, textMatch)|
            == |set id | id in order && id in blogs && Matches(f, blogs[id], textMatch)|
  {
    var s := set id | id in order && id in blogs && Matches(f, blogs[id], textMatch);
    if |order| > 0 {
      var x := order[0];
      var rest := order[1..];
      assert NoDuplicates(rest);
      MatchingIdsCount(rest, blogs, f, textMatch);
      var s' := set id | id in rest && id in blogs && Matches(f, blogs[id], textMatch);
      assert x !in rest;
      if x in blogs && Matches(f, blogs[x], textMatch) {
        assert s == s' + {x};
      } else {
        assert s == s';
      }
    } else {
      assert s == {};
    }
  }

  /** The reported `total` is the number of stored blogs matching the
      filter (what `countDocuments` counts). */
  lemma TotalIsMatchCount(blogs: BlogStore, order: seq<Id>, textMatch: (string, Blog) -> bool,
                          f: Filter, page: int, limit: int, failure: string)
    requires limit != 0 && Enumerates(order, blogs)
    requires RunQuery(blogs, order, textMatch, f, page, limit, failure).Ok?
    ensures RunQuery(blogs, order, textMatch, f, page, limit, failure).body.pagination.total
            == |MatchingSet(blogs, f, textMatch)|
  {
    MatchingIdsCount(order, blogs, f, textMatch);
    assert (set id | id in order && id in blogs && Matches(f, blogs[id], textMatch))
           == MatchingSet(blogs, f, textMatch);
  }

  /** For a positive limit, page `p >= 1` holds blogs exactly when
      `p <= pages`: the page count is the number of non-empty pages. */
  lemma NonEmptyPagesArePages(blogs: BlogStore, order: seq<Id>, textMatch: (string, Blog) -> bool,
                              f: Filter, page: int, limit: int, failure: string)
    requires limit > 0 && page >= 1
    ensures var r := RunQuery(blogs, order, textMatch, f, page, limit, failure);
      r.Ok? && (|r.body.blogs| > 0 <==> page <= r.body.pagination.pages)
  {
    var r := RunQuery(blogs, order, textMatch, f, page, limit, failure);
    var total := |MatchingIds(order, blogs, f, textMatch)|;
    var pages := CeilDiv(total, limit);
    var skip := (page - 1) * limit;
    assert skip >= 0;
    if page <= pages {
      assert skip <= (pages - 1) * limit by {
        MultiplyMonotone(page - 1, pages - 1, limit);
      }
    } else {
      assert pages * limit <= skip by {
        MultiplyMonotone(pages, page - 1, limit);
      }
    }
  }

  /** Page `p` of a positive limit holds the matches from position
      `(p - 1) * limit` on: `limit` of them, or what is left at the end. */
  lemma PageHoldsItsMatches(blogs: BlogStore, order: seq<Id>, textMatch: (string, Blog) -> bool,
                            f: Filter, page: int, limit: int, failure: string)
    requires limit > 0 && page >= 1
    ensures var r := RunQuery(blogs, order, textMatch, f, page, limit, failure);
      var ids := MatchingIds(order, blogs, f, textMatch);
      var first := (page - 1) * limit;
      && r.Ok?
      && |r.body.blogs| == (if first >= |ids| then 0 else if |ids| - first < limit then |ids| - first else limit)
      && forall k :: 0 <= k < |r.body.blogs| ==> first + k < |ids| && r.body.blogs[k] == blogs[ids[first + k]]
  {
    var ids := MatchingIds(order, blogs, f, textMatch);
    var first := (page - 1) * limit;
    assert first >= 0 by {
      MultiplyMonotone(0, page - 1, limit);
    }
    var r := RunQuery(blogs, order, textMatch, f, page, limit, failure);
    assert r.Ok?;
    ItemsOfWindow(blogs, ids, first, limit, r.body.blogs);
  }

  lemma ItemsOfWindow(blogs: BlogStore, ids: seq<Id>, skip: nat, limit: int, items: seq<Blog>)
    requires limit > 0
    requires var shown := Window(ids, skip, limit);
      && |items| == |shown|
      && forall k :: 0 <= k < |shown| ==> shown[k] in blogs && items[k] == blogs[shown[k]]
    ensures |items| == (if skip >= |ids| then 0 else if |ids| - skip < limit then |ids| - skip else limit)
    ensures forall k :: 0 <= k < |items| ==> skip + k < |ids| && items[k] == blogs[ids[skip + k]]
  {
    WindowLength(ids, skip, limit);
    var shown := Window(ids, skip, limit);
    forall k | 0 <= k < |items|
      ensures skip + k < |ids| && items[k] == blogs[ids[skip + k]]
    {
      assert shown[k] == ids[skip + k];
    }
  }

  /** For a positive limit the window holds `limit` results, or what is
      left after `skip`. */
  lemma WindowLength<T>(s: seq<T>, skip: nat, limit: int)
    requires limit > 0
    ensures |Window(s, skip, limit)| == (if skip >= |s| then 0 else if |s| - skip < limit then |s| - skip else limit)
  {
  }

  /** Every id of `r` comes before the later ones in `order`. */
  predicate InOrder(r: seq<Id>, order: seq<Id>) {
    forall i, j :: 0 <= i < j < |r| ==> IndexOf(order, r[i]) < IndexOf(order, r[j])
  }

  /** The matches keep the listing order: an id listed before another
      comes before it in `order`, and none is listed twice. */
  lemma {:induction false} MatchingIdsFollowOrder(order: seq<Id>, blogs: BlogStore, f: Filter,
                                                  textMatch: (string, Blog) -> bool)
    requires NoDuplicates(order)
    ensures InOrder(MatchingIds(order, blogs, f, textMatch), order)
    ensures NoDuplicates(MatchingIds(order, blogs, f, textMatch))
  {
    var r := MatchingIds(order, blogs, f, textMatch);
    if |order| > 0 {
      var rest := order[1..];
      assert NoDuplicates(rest);
      MatchingIdsFollowOrder(rest, blogs, f, textMatch);
      var tail := MatchingIds(rest, blogs, f, textMatch);
      if order[0] in blogs && Matches(f, blogs[order[0]], textMatch) {
        assert r == [order[0]] + tail;
        ConsInOrder(order, tail);
      } else {
        assert r == tail;
        TailInOrder(order, tail);
      }
    }
    InOrderHasNoDuplicates(r, order);
  }

  lemma InOrderHasNoDuplicates(r: seq<Id>, order: seq<Id>)
    requires InOrder(r, order)
    ensures NoDuplicates(r)
  {
    forall i, j | 0 <= i < j < |r|
      ensures r[i] != r[j]
    {
      assert IndexOf(order, r[i]) < IndexOf(order, r[j]);
    }
  }

  /** Past the head of a duplicate-free list, positions shift by one. */
  lemma IndexOfInTail(order: seq<Id>, y: Id)
    requires NoDuplicates(order) && |order| > 0 && y in order[1..]
    ensures IndexOf(order, y) == IndexOf(order[1..], y) + 1
  {
    var k :| 0 <= k < |order[1..]| && order[1..][k] == y;
    assert order[k + 1] == y;
  }

  lemma TailInOrder(order: seq<Id>, tail: seq<Id>)
    requires NoDuplicates(order) && |order| > 0
    requires forall t :: t in tail ==> t in order[1..]
    requires InOrder(tail, order[1..])
    ensures InOrder(tail, order)
  {
    forall i, j | 0 <= i < j < |tail|
      ensures IndexOf(order, tail[i]) < IndexOf(order, tail[j])
    {
      IndexOfInTail(order, tail[i]);
      IndexOfInTail(order, tail[j]);
    }
  }

  lemma ConsInOrder(order: seq<Id>, tail: seq<Id>)
    requires NoDuplicates(order) && |order| > 0
    requires forall t :: t in tail ==> t in order[1..]
    requires InOrder(tail, order[1..])
    ensures InOrder([order[0]] + tail, order)
  {
    var r := [order[0]] + tail;
    TailInOrder(order, tail);
    forall i, j | 0 <= i < j < |r|
      ensures IndexOf(order, r[i]) < IndexOf(order, r[j])
    {
      assert r[j] == tail[j - 1];
      if i > 0 {
        assert r[i] == tail[i - 1];
      } else {
        IndexOfInTail(order, tail[j - 1]);
      }
    }
  }

  lemma MultiplyMonotone(a: int, b: int, c: nat)
    requires a <= b
    ensures a * c <= b * c
  {
  }
}
