/** The single-blog routes of `/api/blogs` as transitions of the blog
    collection: read (`GET /:id`), create (`POST /`), update (`PUT /:id`),
    delete (`DELETE /:id`) and the like toggle (`POST /:id/like`). Each
    returns the reply and the collection afterwards. The requester is the
    id of the user the auth gate attached; for the read route it may be
    absent. */
module BlogRoutes {
  import opened Base
  import opened Text
  import opened Lists
  import opened BlogSchema
  import opened BlogListing

  // ------------------------------------------------------------------ read

  predicate IsOwner(b: Blog, requester: Option<Id>) {
    requester.Some? && requester.value == b.author
  }

  /** The visibility rule of the read route once a user is attached: a
      public blog is readable by anyone, a private one by its owner only. */
  predicate CanRead(b: Blog, requester: Option<Id>) {
    b.isPublic || IsOwner(b, requester)
  }

  /** `GET /api/blogs/:id`. The checks run in order: unknown id (404), no
      user at all (401, even for a public blog), private blog of someone
      else (403); a read by anyone but the owner counts one view, and the
      save that stores it validates the whole document, so a stored blog
      the validators refuse makes that read a 500. */
  function ReadBlog(blogs: BlogStore, id: Id, requester: Option<Id>): (res: (Reply<Blog>, BlogStore))
    ensures id !in blogs ==> res == (Fail(NotFound, "Blog not found"), blogs)
    ensures id in blogs && requester.None? ==> res == (Fail(Unauthorized, "Unauthorized"), blogs)
    ensures id in blogs && requester.Some? && !CanRead(blogs[id], requester) ==>
              res == (Fail(Forbidden, "This blog is private"), blogs)
    ensures id in blogs && requester.Some? && CanRead(blogs[id], requester)
            && !IsOwner(blogs[id], requester) && !SchemaValid(blogs[id]) ==>
              res == (Fail(ServerError, "Failed to fetch blog"), blogs)
    ensures res.0.Fail? ==> res.1 == blogs
    ensures res.0.Ok? <==> && id in blogs && requester.Some? && CanRead(blogs[id], requester)
                           && (IsOwner(blogs[id], requester) || SchemaValid(blogs[id]))
    ensures res.0.Ok? ==> res.0.status == Success && id in res.1 && res.0.body == res.1[id]
    ensures res.0.Ok? && IsOwner(blogs[id], requester) ==> res.1 == blogs
    ensures res.0.Ok? && !IsOwner(blogs[id], requester) ==>
              res.1 == blogs[id := blogs[id].(views := blogs[id].views + 1)]
  {
    if id !in blogs then (Fail(NotFound, "Blog not found"), blogs)
    else if requester.None? then (Fail(Unauthorized, "Unauthorized"), blogs)
    else
      var blog := blogs[id];
      var owner := IsOwner(blog, requester);
      if !blog.isPublic && !owner then (Fail(Forbidden, "This blog is private"), blogs)
      else if !owner && !SchemaValid(blog) then (Fail(ServerError, "Failed to fetch blog"), blogs)
      else if !owner then
        var seen := blog.(views := blog.views + 1);
        (Ok(Success, seen), blogs[id := seen])
      else (Ok(Success, blog), blogs)
  }

  /** An anonymous request never reads a blog, public or not. */
  lemma AnonymousReadIsRefused(blogs: BlogStore, id: Id)
    requires id in blogs && blogs[id].isPublic
    ensures ReadBlog(blogs, id, None).0 == Fail(Unauthorized, "Unauthorized")
  {
  }

  /** A read changes at most the view counter of the blog read, and that by
      exactly one, only for a successful non-owner read. */
  lemma ReadChangesOnlyViews(blogs: BlogStore, id: Id, requester: Option<Id>)
    ensures var (reply, after) := ReadBlog(blogs, id, requester);
      && after.Keys == blogs.Keys
      && (forall other :: other in blogs && other != id ==> after[other] == blogs[other])
      && (id in blogs ==> after[id] == blogs[id].(views := after[id].views))
      && (id in blogs ==> after[id].views == blogs[id].views
                          + (if reply.Ok? && !IsOwner(blogs[id], requester) then 1 else 0))
  {
  }

  // ---------------------------------------------------------------- create

  /** The fields of a create or update request body. */
  datatype BlogBody = BlogBody(
    title: Field<string>,
    content: Field<string>,
    summary: Field<string>,
    images: Field<seq<string>>,
    isPublic: Field<bool>,
    tags: Field<seq<string>>)

  function SummaryOf(f: Field<string>): Option<string> {
    if f.Value? then Some(f.v) else None
  }

  /** `POST /api/blogs` by `author`; `freshId` is the id the database
      assigns. Missing or empty title or content is a 400; a document the
      schema rejects is a 500; otherwise the normalised blog is stored. */
  function CreateBlog(blogs: BlogStore, author: Id, freshId: Id, body: BlogBody): (res: (Reply<Blog>, BlogStore))
    requires freshId !in blogs
    ensures !TruthyText(body.title) || !TruthyText(body.content) ==>
              res == (Fail(BadRequest, "Title and content are required"), blogs)
    ensures TruthyText(body.title) && TruthyText(body.content) ==>
              (res.0.Ok? <==> AcceptsFields(body.title.v, body.content.v, SummaryOf(body.summary),
                                            ListOr(body.images, []), ListOr(body.tags, [])))
    ensures res.0.Fail? ==> res.1 == blogs
    ensures res.0.Fail? && res.0.status != BadRequest ==> res == (Fail(ServerError, "Failed to create blog"), blogs)
    ensures res.0.Ok? ==> res.0.status == Created && res.1 == blogs[freshId := res.0.body]
    ensures res.0.Ok? ==> Stored(res.0.body)
    ensures res.0.Ok? ==> var b := res.0.body;
              && b.author == author && b.views == 0 && b.likes == []
              && b.title == Trim(body.title.v) && b.content == body.content.v
              && (body.summary.Value? ==> b.summary == Some(Trim(body.summary.v)))
              && (!body.summary.Value? ==> b.summary.None?)
              && b.isPublic == TruthyFlag(body.isPublic)
              && b.images == ListOr(body.images, [])
              && |b.tags| == |ListOr(body.tags, [])|
              && (forall k :: 0 <= k < |b.tags| ==> b.tags[k] == Trim(Lower(ListOr(body.tags, [])[k])))
              && b.readTime == ReadTime(body.content.v)
  {
    if !TruthyText(body.title) || !TruthyText(body.content) then
      (Fail(BadRequest, "Title and content are required"), blogs)
    else
      var blog := NewBlog(body.title.v, body.content.v, SummaryOf(body.summary),
                          ListOr(body.images, []), author, Some(TruthyFlag(body.isPublic)),
                          ListOr(body.tags, []));
      if !SchemaValid(blog) then (Fail(ServerError, "Failed to create blog"), blogs)
      else (Ok(Created, blog), blogs[freshId := blog])
  }

  /** A body the route accepts can still be refused by the schema: content
      shorter than ten characters passes the handler's own check and fails
      on save, as a 500 rather than a 400. */
  lemma ShortContentIsServerError(blogs: BlogStore, author: Id, freshId: Id)
    requires freshId !in blogs
    ensures var body := BlogBody(Value("Hello"), Value("short"), Absent, Absent, Absent, Absent);
      CreateBlog(blogs, author, freshId, body) == (Fail(ServerError, "Failed to create blog"), blogs)
  {
    BmpLength("short");
  }

  /** A created blog is there to be read: its author reads back exactly the
      blog the create replied with, and nothing else was written. */
  lemma CreateThenRead(blogs: BlogStore, author: Id, freshId: Id, body: BlogBody)
    requires freshId !in blogs
    requires CreateBlog(blogs, author, freshId, body).0.Ok?
    ensures var (reply, after) := CreateBlog(blogs, author, freshId, body);
      && ReadBlog(after, freshId, Some(author)) == (Ok(Success, reply.body), after)
      && forall id :: id in blogs ==> id in after && after[id] == blogs[id]
  {
  }

  /** A well-formed post is accepted and stored with its fields: a title
      and at least ten characters of content are enough. */
  lemma PlainPostIsCreated(blogs: BlogStore, author: Id, freshId: Id)
    requires freshId !in blogs
    ensures var body := BlogBody(Value("Hello"), Value("Hello world"), Absent, Absent, Absent, Absent);
      var (reply, after) := CreateBlog(blogs, author, freshId, body);
      && reply.Ok? && reply.status == Created
      && reply.body.title == "Hello" && reply.body.content == "Hello world"
      && reply.body.author == author && !reply.body.isPublic
      && after == blogs[freshId := reply.body]
  {
    var body := BlogBody(Value("Hello"), Value("Hello world"), Absent, Absent, Absent, Absent);
    assert SummaryOf(body.summary) == None && ListOr(body.images, []) == [] && ListOr(body.tags, []) == [];
    PlainPostAccepted();
    var (reply, after) := CreateBlog(blogs, author, freshId, body);
    assert reply.Ok?;
    assert reply.body.title == Trim("Hello") == "Hello";
  }

  lemma PlainPostAccepted()
    ensures Trim("Hello") == "Hello"
    ensures AcceptsFields("Hello", "Hello world", None, [], [])
  {
    HelloIsTrimmed();
    BmpLength("Hello");
    BmpLength("Hello world");
  }

  lemma HelloIsTrimmed()
    ensures Trim("Hello") == "Hello"
  {
    assert Trimmed("Hello") by {
      VisibleAsciiIsNotSpace('H');
      VisibleAsciiIsNotSpace('o');
    }
    TrimOfTrimmed("Hello");
  }

  // ---------------------------------------------------------------- update

  /** The assignments of `PUT /:id`: title, content, images and tags only
      when truthy, summary and visibility whenever not `undefined`. A
      `null` visibility is stored as `null`, which every read path treats
      as false. */
  function Merge(b: Blog, body: BlogBody): (r: Blog)
    ensures r.author == b.author && r.views == b.views && r.likes == b.likes
    ensures r.readTime == b.readTime
    ensures TruthyText(body.title) ==> r.title == Trim(body.title.v)
    ensures !TruthyText(body.title) ==> r.title == Trim(b.title)
    ensures TruthyText(body.content) ==> r.content == body.content.v
    ensures !TruthyText(body.content) ==> r.content == b.content
    ensures body.summary.Value? ==> r.summary == Some(Trim(body.summary.v))
    ensures body.summary.Null? ==> r.summary == None
    ensures body.summary.Absent? ==> r.summary.Some? == b.summary.Some?
    ensures body.summary.Absent? && b.summary.Some? ==> r.summary.value == Trim(b.summary.value)
    ensures body.images.Value? ==> r.images == body.images.v
    ensures !body.images.Value? ==> r.images == b.images
    ensures body.isPublic.Value? ==> r.isPublic == body.isPublic.v
    ensures body.isPublic.Null? ==> !r.isPublic
    ensures body.isPublic.Absent? ==> r.isPublic == b.isPublic
    ensures body.tags.Value? ==>
              && |r.tags| == |body.tags.v|
              && forall k :: 0 <= k < |body.tags.v| ==> r.tags[k] == Trim(Lower(body.tags.v[k]))
    ensures !body.tags.Value? ==>
              && |r.tags| == |b.tags|
              && forall k :: 0 <= k < |b.tags| ==> r.tags[k] == Trim(Lower(b.tags[k]))
    ensures Normalized(r)
  {
    AssignContent(b,
      TextOr(body.title, b.title),
      TextOr(body.content, b.content),
      if body.summary.Defined() then SummaryOf(body.summary) else b.summary,
      ListOr(body.images, b.images),
      if body.isPublic.Defined() then TruthyFlag(body.isPublic) else b.isPublic,
      ListOr(body.tags, b.tags))
  }

  /** `PUT /api/blogs/:id` by `requester`. The owner's update succeeds
      exactly when the validators accept the values it assigns. */
  function UpdateBlog(blogs: BlogStore, requester: Id, id: Id, body: BlogBody): (res: (Reply<Blog>, BlogStore))
    ensures id !in blogs ==> res == (Fail(NotFound, "Blog not found"), blogs)
    ensures id in blogs && blogs[id].author != requester ==>
              res == (Fail(Forbidden, "Not authorized to edit this blog"), blogs)
    ensures id in blogs && blogs[id].author == requester ==>
              var was := blogs[id];
              (res.0.Ok? <==> AcceptsFields(TextOr(body.title, was.title), TextOr(body.content, was.content),
                                            if body.summary.Defined() then SummaryOf(body.summary) else was.summary,
                                            ListOr(body.images, was.images), ListOr(body.tags, was.tags)))
    ensures id in blogs && blogs[id].author == requester && res.0.Fail? ==>
              res == (Fail(ServerError, "Failed to update blog"), blogs)
    ensures res.0.Fail? ==> res.1 == blogs
    ensures res.0.Ok? ==> id in blogs && blogs[id].author == requester
    ensures res.0.Ok? ==> res.0.status == Success && res.1 == blogs[id := res.0.body]
    ensures res.0.Ok? ==> Normalized(res.0.body) && SchemaValid(res.0.body)
    ensures res.0.Ok? ==> var (was, now) := (blogs[id], res.0.body);
              && now.author == was.author && now.views == was.views
              && now.likes == was.likes && now.readTime == was.readTime
              && (TruthyText(body.title) ==> now.title == Trim(body.title.v))
              && (!TruthyText(body.title) ==> now.title == Trim(was.title))
              && (TruthyText(body.content) ==> now.content == body.content.v)
              && (!TruthyText(body.content) ==> now.content == was.content)
              && (body.images.Value? ==> now.images == body.images.v)
              && (!body.images.Value? ==> now.images == was.images)
              && (body.isPublic.Value? ==> now.isPublic == body.isPublic.v)
              && (body.isPublic.Null? ==> !now.isPublic)
              && (!body.isPublic.Defined() ==> now.isPublic == was.isPublic)
              && (body.summary.Value? ==> now.summary == Some(Trim(body.summary.v)))
              && (body.summary.Null? ==> now.summary.None?)
              && (!body.summary.Defined() ==> now.summary == TrimSummary(was.summary))
              && (body.tags.Value? ==> now.tags == NormalizeTags(body.tags.v))
              && (!body.tags.Value? ==> now.tags == NormalizeTags(was.tags))
  {
    if id !in blogs then (Fail(NotFound, "Blog not found"), blogs)
    else if blogs[id].author != requester then
      (Fail(Forbidden, "Not authorized to edit this blog"), blogs)
    else
      var blog := Merge(blogs[id], body);
      if !SchemaValid(blog) then (Fail(ServerError, "Failed to update blog"), blogs)
      else (Ok(Success, blog), blogs[id := blog])
  }

  lemma NormalizeTagsOfNormalized(ts: seq<string>)
    requires forall k :: 0 <= k < |ts| ==> Trimmed(ts[k]) && IsLower(ts[k])
    ensures NormalizeTags(ts) == ts
  {
    forall k | 0 <= k < |ts|
      ensures NormalizeTags(ts)[k] == ts[k]
    {
      NormalizeTagOfNormalized(ts[k]);
    }
  }

  const EmptyBody: BlogBody := BlogBody(Absent, Absent, Absent, Absent, Absent, Absent)

  /** Merging a body that carries no field reproduces a normalised blog. */
  lemma MergeEmpty(b: Blog)
    requires Normalized(b)
    ensures Merge(b, EmptyBody) == b
  {
    TrimOfTrimmed(b.title);
    if b.summary.Some? {
      TrimOfTrimmed(b.summary.value);
    }
    NormalizeTagsOfNormalized(b.tags);
  }

  /** An update whose body carries no field leaves a stored blog exactly as
      it was: the fallbacks reproduce every field. */
  lemma EmptyUpdateIsIdentity(blogs: BlogStore, requester: Id, id: Id)
    requires id in blogs && Stored(blogs[id]) && blogs[id].author == requester
    ensures UpdateBlog(blogs, requester, id, EmptyBody) == (Ok(Success, blogs[id]), blogs)
  {
    MergeEmpty(blogs[id]);
    RewriteSame(blogs, id);
  }

  lemma TrimSummaryIdempotent(s: Option<string>)
    ensures TrimSummary(TrimSummary(s)) == TrimSummary(s)
  {
    if s.Some? {
      TrimIdempotent(s.value);
    }
  }

  lemma NormalizeTagsIdempotent(ts: seq<string>)
    ensures NormalizeTags(NormalizeTags(ts)) == NormalizeTags(ts)
  {
    NormalizeTagsOfNormalized(NormalizeTags(ts));
  }

  /** Merging the same body twice is merging it once. */
  lemma MergeIdempotent(b: Blog, body: BlogBody)
    ensures Merge(Merge(b, body), body) == Merge(b, body)
  {
    TrimIdempotent(TextOr(body.title, b.title));
    TrimSummaryIdempotent(if body.summary.Defined() then SummaryOf(body.summary) else b.summary);
    NormalizeTagsIdempotent(ListOr(body.tags, b.tags));
  }

  /** Writing back the stored document leaves the collection as it was. */
  lemma RewriteSame(blogs: BlogStore, id: Id)
    requires id in blogs
    ensures blogs[id := blogs[id]] == blogs
  {
  }

  /** An update by the owner stores the merge when the validators accept it. */
  lemma UpdateByOwner(blogs: BlogStore, requester: Id, id: Id, body: BlogBody)
    requires id in blogs && blogs[id].author == requester
    ensures var m := Merge(blogs[id], body);
      UpdateBlog(blogs, requester, id, body)
      == if SchemaValid(m) then (Ok(Success, m), blogs[id := m])
         else (Fail(ServerError, "Failed to update blog"), blogs)
  {
  }

  /** Sending the same update twice has the effect of sending it once. */
  lemma UpdateIsIdempotent(blogs: BlogStore, requester: Id, id: Id, body: BlogBody)
    requires UpdateBlog(blogs, requester, id, body).0.Ok?
    ensures var once := UpdateBlog(blogs, requester, id, body).1;
      UpdateBlog(once, requester, id, body) == UpdateBlog(blogs, requester, id, body)
  {
    UpdateByOwner(blogs, requester, id, body);
    var m := Merge(blogs[id], body);
    var once := blogs[id := m];
    MergeIdempotent(blogs[id], body);
    assert once[id] == m && m.author == requester;
    UpdateByOwner(once, requester, id, body);
    RewriteSame(once, id);
  }

  // ---------------------------------------------------------------- delete

  /** `DELETE /api/blogs/:id` by `requester`. */
  function DeleteBlog(blogs: BlogStore, requester: Id, id: Id): (res: (Reply<string>, BlogStore))
    ensures id !in blogs ==> res == (Fail(NotFound, "Blog not found"), blogs)
    ensures id in blogs && blogs[id].author != requester ==>
              res == (Fail(Forbidden, "Not authorized to delete this blog"), blogs)
    ensures res.0.Ok? <==> id in blogs && blogs[id].author == requester
    ensures res.0.Ok? ==> res.0 == Ok(Success, "Blog deleted successfully")
    ensures res.0.Ok? ==> id !in res.1 && res.1.Keys == blogs.Keys - {id}
    ensures forall other :: other in res.1 ==> other in blogs && res.1[other] == blogs[other]
  {
    if id !in blogs then (Fail(NotFound, "Blog not found"), blogs)
    else if blogs[id].author != requester then
      (Fail(Forbidden, "Not authorized to delete this blog"), blogs)
    else (Ok(Success, "Blog deleted successfully"), blogs - {id})
  }

  // ------------------------------------------------------------------ like

  /** `indexOf` then `splice` or `push`: the first occurrence of `user` is
      removed when there is one, otherwise `user` is appended. */
  function ToggleMember(likes: seq<Id>, user: Id): (r: seq<Id>)
    ensures user !in likes ==> r == likes + [user]
    ensures user in likes ==> |r| == |likes| - 1
    ensures user in likes ==> multiset(r) == multiset(likes) - multiset{user}
    ensures user in likes ==> var i := IndexOf(likes, user);
              r == likes[..i] + likes[i + 1..]
  {
    var k := IndexOf(likes, user);
    if k > -1 then
      SpliceOneMultiset(likes, k);
      assert SpliceStart(likes, k) == k;
      SpliceOne(likes, k)
    else likes + [user]
  }

  datatype LikeState = LikeState(likes: nat, liked: bool)

  /** `POST /api/blogs/:id/like` by `requester`. Visibility and ownership
      are not checked. The save validates the whole document (likes carry
      no validator), so a stored blog the validators refuse is a 500. */
  function ToggleLike(blogs: BlogStore, requester: Id, id: Id): (res: (Reply<LikeState>, BlogStore))
    ensures id !in blogs ==> res == (Fail(NotFound, "Blog not found"), blogs)
    ensures id in blogs && !SchemaValid(blogs[id]) ==> res == (Fail(ServerError, "Failed to toggle like"), blogs)
    ensures res.0.Ok? <==> id in blogs && SchemaValid(blogs[id])
    ensures res.0.Ok? ==> res.0.status == Success
    ensures res.0.Ok? ==> id in res.1 && res.1 == blogs[id := blogs[id].(likes := res.1[id].likes)]
    ensures res.0.Ok? ==> (res.0.body.liked <==> requester !in blogs[id].likes)
    ensures res.0.Ok? ==> res.0.body.likes == LikeCount(res.1[id])
    ensures res.0.Ok? ==> res.1[id].likes == ToggleMember(blogs[id].likes, requester)
  {
    if id !in blogs then (Fail(NotFound, "Blog not found"), blogs)
    else if !SchemaValid(blogs[id]) then (Fail(ServerError, "Failed to toggle like"), blogs)
    else
      var blog := blogs[id];
      var toggled := blog.(likes := ToggleMember(blog.likes, requester));
      (Ok(Success, LikeState(|toggled.likes|, IndexOf(blog.likes, requester) == -1)),
       blogs[id := toggled])
  }

  /** From a duplicate-free list, a toggle keeps the list duplicate-free,
      and the requester is in it afterwards exactly when the reply says
      `liked`. */
  lemma ToggleKeepsLikesDistinct(likes: seq<Id>, user: Id)
    requires NoDuplicates(likes)
    ensures NoDuplicates(ToggleMember(likes, user))
    ensures user in ToggleMember(likes, user) <==> user !in likes
  {
    if user in likes {
      RemoveFirstOccurrence(likes, user);
    } else {
      PushPreservesNoDuplicates(likes, user);
    }
  }

  /** Two toggles by the same user restore the list's members and their
      count; starting from a list without the user they restore the list
      itself. */
  lemma ToggleTwiceRestores(likes: seq<Id>, user: Id)
    requires NoDuplicates(likes)
    ensures multiset(ToggleMember(ToggleMember(likes, user), user)) == multiset(likes)
    ensures |ToggleMember(ToggleMember(likes, user), user)| == |likes|
    ensures user !in likes ==> ToggleMember(ToggleMember(likes, user), user) == likes
  {
    var once := ToggleMember(likes, user);
    if user in likes {
      RemoveFirstOccurrence(likes, user);
      assert user !in once;
    } else {
      assert user in once;
      var k := IndexOf(once, user);
      assert k == |likes|;
      assert once[..k] == likes;
    }
  }

  /** Only the first occurrence goes: with the user listed twice, two
      toggles leave neither copy, so membership is not restored. */
  lemma UnlikeRemovesFirstOnly(user: Id)
    ensures ToggleMember([user, user], user) == [user]
    ensures ToggleMember(ToggleMember([user, user], user), user) == []
  {
    assert IndexOf([user, user], user) == 0;
    assert [user, user][1..] == [user];
    assert IndexOf([user], user) == 0;
  }

  /** Any authenticated user can like a private blog of someone else. */
  lemma LikeIgnoresVisibility(blogs: BlogStore, requester: Id, id: Id)
    requires id in blogs && SchemaValid(blogs[id]) && !blogs[id].isPublic && blogs[id].author != requester
    ensures ToggleLike(blogs, requester, id).0.Ok?
  {
  }

  // ----------------------------------------------------------- invariants

  /** Every stored blog satisfies the schema and has duplicate-free likes. */
  predicate Consistent(blogs: BlogStore) {
    forall id :: id in blogs ==> Stored(blogs[id]) && NoDuplicates(blogs[id].likes)
  }

  lemma ReadPreservesConsistency(blogs: BlogStore, id: Id, reader: Option<Id>)
    requires Consistent(blogs)
    ensures Consistent(ReadBlog(blogs, id, reader).1)
  {
  }

  lemma CreatePreservesConsistency(blogs: BlogStore, author: Id, freshId: Id, body: BlogBody)
    requires Consistent(blogs) && freshId !in blogs
    ensures Consistent(CreateBlog(blogs, author, freshId, body).1)
  {
  }

  lemma UpdatePreservesConsistency(blogs: BlogStore, requester: Id, id: Id, body: BlogBody)
    requires Consistent(blogs)
    ensures Consistent(UpdateBlog(blogs, requester, id, body).1)
  {
  }

  lemma DeletePreservesConsistency(blogs: BlogStore, requester: Id, id: Id)
    requires Consistent(blogs)
    ensures Consistent(DeleteBlog(blogs, requester, id).1)
  {
  }

  lemma LikePreservesConsistency(blogs: BlogStore, requester: Id, id: Id)
    requires Consistent(blogs)
    ensures Consistent(ToggleLike(blogs, requester, id).1)
  {
    if id in blogs {
      ToggleKeepsLikesDistinct(blogs[id].likes, requester);
    }
  }
}
