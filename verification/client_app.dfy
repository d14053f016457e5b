/** The browser client's state and the parts of it that decide what is
    sent to the server: page navigation, the tag field of the editor, the
    image list of the editor, and the save action. Drawing, toasts and the
    requests themselves are effects named by the result. */
module ClientApp {
  import opened Base
  import opened Text
  import opened Lists
  import opened BlogListing
  import opened BlogRoutes

  /** The client's global variables, plus which page element carries the
      `active` class and the URL fragment. `currentUser` only matters as
      present or absent here. */
  datatype ClientState = ClientState(
    currentUser: Option<Id>,
    currentPage: string,
    activePage: Option<string>,
    hash: string,
    currentBlogId: Option<string>,
    uploadedImages: seq<string>)

  predicate TruthyId(id: Option<string>) {
    id.Some? && id.value != ""
  }

  // ------------------------------------------------------------------ tags

  /** `Trim` of each piece. */
  function TrimAll(pieces: seq<string>): (r: seq<string>)
    ensures |r| == |pieces|
    ensures forall k :: 0 <= k < |r| ==> r[k] == Trim(pieces[k])
  {
    seq(|pieces|, k requires 0 <= k < |pieces| => Trim(pieces[k]))
  }

  /** `filter(tag => tag.length > 0)`: the non-empty pieces, in order. */
  function NonEmpty(pieces: seq<string>): (r: seq<string>)
    ensures |r| <= |pieces|
    ensures forall k :: 0 <= k < |r| ==> r[k] != "" && r[k] in pieces
    ensures forall k :: 0 <= k < |pieces| && pieces[k] != "" ==> pieces[k] in r
    ensures (forall k :: 0 <= k < |pieces| ==> pieces[k] != "") ==> r == pieces
  {
    if |pieces| == 0 then []
    else
      var rest := NonEmpty(pieces[1..]);
      if pieces[0] == "" then rest else [pieces[0]] + rest
  }

  /** The filter works piece by piece: filtering a concatenation is
      concatenating the filtered parts, so order is kept. */
  lemma {:induction false} NonEmptyAppend(a: seq<string>, b: seq<string>)
    ensures NonEmpty(a + b) == NonEmpty(a) + NonEmpty(b)
    decreases |a|
  {
    if |a| > 0 {
      assert (a + b)[1..] == a[1..] + b;
      NonEmptyAppend(a[1..], b);
    } else {
      assert a + b == b;
    }
  }

  /** A single piece is kept exactly when it is non-empty. */
  lemma NonEmptyOne(p: string)
    ensures NonEmpty([p]) == if p == "" then [] else [p]
  {
    assert [p][1..] == [];
  }

  lemma TrimKeepsOut(s: string, c: char)
    requires c !in s
    ensures c !in Trim(s)
  {
    var r := Trim(s);
    var i := |s| - |TrimStart(s)|;
    TrimRemovesOnlySpace(s);
    forall j | 0 <= j < |r|
      ensures r[j] != c
    {
      assert r[j] == s[i + j] && s[i + j] in s;
    }
  }

  lemma TrimAllKeepsOut(pieces: seq<string>, c: char)
    requires forall k :: 0 <= k < |pieces| ==> c !in pieces[k]
    ensures forall k :: 0 <= k < |pieces| ==> c !in TrimAll(pieces)[k] && Trimmed(TrimAll(pieces)[k])
  {
    forall k | 0 <= k < |pieces|
      ensures c !in TrimAll(pieces)[k]
    {
      TrimKeepsOut(pieces[k], c);
    }
  }

  /** The editor's tag field: split at commas, each piece trimmed, empty
      pieces dropped. Every tag is non-empty, trimmed and comma-free. */
  function ParseTags(raw: string): (r: seq<string>)
    ensures forall k :: 0 <= k < |r| ==> r[k] != "" && Trimmed(r[k]) && ',' !in r[k]
  {
    var pieces := Split(raw, ',');
    TrimAllKeepsOut(pieces, ',');
    NonEmpty(TrimAll(pieces))
  }

  /** A field without a comma is one tag: the field trimmed, or none when
      that is empty. */
  lemma ParseTagsOfPiece(s: string)
    requires ',' !in s
    ensures ParseTags(s) == if Trim(s) == "" then [] else [Trim(s)]
  {
    assert Split(s, ',') == [s];
    assert TrimAll([s]) == [Trim(s)];
    NonEmptyOne(Trim(s));
  }

  /** The tags before the first comma come first, then the tags of the
      rest: with `ParseTagsOfPiece` this fixes `ParseTags` on every field,
      by the number of commas. */
  lemma ParseTagsAtComma(a: string, b: string)
    requires ',' !in a
    ensures ParseTags(a + "," + b) == ParseTags(a) + ParseTags(b)
  {
    SplitAtFirst(a, b, ',');
    var pieces := Split(b, ',');
    assert Split(a + "," + b, ',') == [a] + pieces;
    assert TrimAll([a] + pieces) == TrimAll([a]) + TrimAll(pieces);
    NonEmptyAppend(TrimAll([a]), TrimAll(pieces));
    ParseTagsOfPiece(a);
    assert TrimAll([a]) == [Trim(a)];
  }

  /** A blank piece between two commas contributes no tag: `"a, ,b"`
      parses as `"a,b"` does. */
  lemma BlankPieceVanishes(a: string, w: string, b: string)
    requires ',' !in a && AllSpace(w)
    ensures ParseTags(a + "," + w + "," + b) == ParseTags(a) + ParseTags(b)
  {
    BlankThenRest(w, b);
    assert a + "," + w + "," + b == a + "," + (w + "," + b);
    ParseTagsAtComma(a, w + "," + b);
  }

  /** A blank first piece contributes no tag. */
  lemma BlankThenRest(w: string, b: string)
    requires AllSpace(w)
    ensures ParseTags(w + "," + b) == ParseTags(b)
  {
    SpaceHasNoComma(w);
    ParseTagsAtComma(w, b);
    ParseTagsOfPiece(w);
    TrimEmptyIffAllSpace(w);
  }

  lemma SpaceHasNoComma(w: string)
    requires AllSpace(w)
    ensures ',' !in w
  {
    VisibleAsciiIsNotSpace(',');
  }

  /** Each tag with one space in front, as `join(', ')` lays them out. */
  function Lead(ts: seq<string>): (r: seq<string>)
    ensures |r| == |ts|
    ensures forall k :: 0 <= k < |ts| ==> r[k] == " " + ts[k]
  {
    if |ts| == 0 then [] else [" " + ts[0]] + Lead(ts[1..])
  }

  lemma {:induction false} JoinCommaSpace(ts: seq<string>)
    requires |ts| >= 1
    ensures ", " + Join(ts, ", ") == "," + Join(Lead(ts), ",")
    decreases |ts|
  {
    var lead := Lead(ts);
    assert lead[0] == " " + ts[0];
    if |ts| >= 2 {
      JoinCommaSpace(ts[1..]);
      assert lead[1..] == Lead(ts[1..]);
      var restJoined := Join(ts[1..], ", ");
      var restLead := Join(Lead(ts[1..]), ",");
      calc {
        ", " + Join(ts, ", ");
        ", " + (ts[0] + ", " + restJoined);
        ", " + ts[0] + (", " + restJoined);
        ", " + ts[0] + ("," + restLead);
        "," + (" " + ts[0] + "," + restLead);
        "," + (lead[0] + "," + Join(lead[1..], ","));
        "," + Join(lead, ",");
      }
    } else {
      assert Join(lead, ",") == lead[0];
      assert ", " + ts[0] == "," + (" " + ts[0]);
    }
  }

  lemma TrimLeadingSpace(t: string)
    requires t != "" && Trimmed(t)
    ensures Trim(" " + t) == t
  {
    var s := " " + t;
    assert s[1..] == t;
    TrimStartOfNonSpace(t);
    assert TrimStart(s) == t;
    TrimEndOfNonSpace(t);
  }

  /** The pieces a comma split finds in `tags.join(', ')`. */
  function CommaPieces(tags: seq<string>): (r: seq<string>)
    requires |tags| >= 1
    ensures |r| == |tags|
  {
    [tags[0]] + Lead(tags[1..])
  }

  lemma {:induction false} JoinAsCommaPieces(tags: seq<string>)
    requires |tags| >= 1
    ensures Join(tags, ", ") == Join(CommaPieces(tags), [','])
  {
    var parts := CommaPieces(tags);
    if |tags| >= 2 {
      var rest := Join(tags[1..], ", ");
      var restLead := Join(Lead(tags[1..]), ",");
      assert parts[1..] == Lead(tags[1..]);
      JoinCommaSpace(tags[1..]);
      assert ", " + rest == "," + restLead;
      assert tags[0] + ", " + rest == tags[0] + (", " + rest);
      assert tags[0] + ("," + restLead) == parts[0] + "," + Join(parts[1..], ",");
    } else {
      assert parts == [tags[0]];
    }
  }

  lemma CommaPiecesTrimToTags(tags: seq<string>)
    requires |tags| >= 1
    requires forall k :: 0 <= k < |tags| ==> tags[k] != "" && Trimmed(tags[k]) && ',' !in tags[k]
    ensures forall k :: 0 <= k < |tags| ==> ',' !in CommaPieces(tags)[k]
    ensures TrimAll(CommaPieces(tags)) == tags
  {
    var parts := CommaPieces(tags);
    forall k | 0 <= k < |parts|
      ensures ',' !in parts[k] && TrimAll(parts)[k] == tags[k]
    {
      CommaPieceTrims(tags, k);
    }
  }

  lemma CommaPieceTrims(tags: seq<string>, k: nat)
    requires k < |tags|
    requires tags[k] != "" && Trimmed(tags[k]) && ',' !in tags[k]
    ensures ',' !in CommaPieces(tags)[k] && Trim(CommaPieces(tags)[k]) == tags[k]
  {
    if k > 0 {
      assert CommaPieces(tags)[k] == Lead(tags[1..])[k - 1] == " " + tags[k];
      TrimLeadingSpace(tags[k]);
    } else {
      TrimOfTrimmed(tags[0]);
    }
  }

  /** The edit form shows a blog's tags as `tags.join(', ')`; saving that
      field unchanged gives back the same tags, for tags that are
      non-empty, trimmed and free of commas. */
  lemma TagsRoundTrip(tags: seq<string>)
    requires forall k :: 0 <= k < |tags| ==> tags[k] != "" && Trimmed(tags[k]) && ',' !in tags[k]
    ensures ParseTags(Join(tags, ", ")) == tags
  {
    if |tags| == 0 {
      assert Split("", ',') == [""];
      TrimOfTrimmed("");
    } else {
      JoinAsCommaPieces(tags);
      CommaPiecesTrimToTags(tags);
      SplitJoin(CommaPieces(tags), ',');
    }
  }

  // ---------------------------------------------------------------- images

  /** `removeImage(index)`: `splice(index, 1)` on the uploaded images. For
      the index of a preview, exactly that image goes and the others keep
      their order. */
  function RemoveImage(images: seq<string>, index: int): (r: seq<string>)
    ensures 0 <= index < |images| ==> |r| == |images| - 1
    ensures 0 <= index < |images| ==> multiset(r) + multiset{images[index]} == multiset(images)
    ensures 0 <= index < |images| ==>
              (forall j :: 0 <= j < index ==> r[j] == images[j])
              && (forall j :: index <= j < |r| ==> r[j] == images[j + 1])
  {
    if 0 <= index < |images| then
      SpliceOneMultiset(images, index);
      SpliceOne(images, index)
    else SpliceOne(images, index)
  }

  /** Removing the image of preview `k` and then inserting it again at `k`
      restores the list. */
  lemma RemoveImageInverse(images: seq<string>, k: nat)
    requires k < |images|
    ensures var r := RemoveImage(images, k);
      r[..k] + [images[k]] + r[k..] == images
  {
    var r := RemoveImage(images, k);
    assert r[..k] + [images[k]] + r[k..] == images;
  }

  // ------------------------------------------------------------ navigation

  /** What a navigation starts loading. */
  datatype Effect =
    | NoEffect
    | LoadPublicBlogs
    | LoadMyBlogs
    | LoadBlogForEdit(blogId: string)
    | LoadBlogDetail(detailId: Option<string>)
    | LoadProfile

  /** `navigateToPage(pageName, data)`. Every page loses its `active`
      class; when the document has an element `<pageName>-page` (one of
      `pageElements`) that page becomes the current one, the URL fragment
      follows, and the page's content starts loading. Opening the editor
      (`create`) sets the blog being edited to `data` and empties the image
      list; a truthy `data` also starts loading that blog. */
  function Navigate(st: ClientState, pageName: string, data: Option<string>,
                    pageElements: set<string>): (r: (ClientState, Effect))
    ensures pageName + "-page" !in pageElements ==> r == (st.(activePage := None), NoEffect)
    ensures pageName + "-page" in pageElements ==>
              && r.0.currentPage == pageName && r.0.activePage == Some(pageName)
              && r.0.hash == "#" + pageName
    ensures r.0.currentUser == st.currentUser
    ensures pageName != "create" ==>
              r.0.currentBlogId == st.currentBlogId && r.0.uploadedImages == st.uploadedImages
    ensures pageName == "create" && pageName + "-page" in pageElements ==>
              r.0.currentBlogId == data && r.0.uploadedImages == []
              && (r.1 == NoEffect <==> !TruthyId(data))
    ensures r.1.LoadBlogDetail? ==> pageName == "blog-detail" && r.1.detailId == data
    ensures pageName + "-page" in pageElements ==>
              && (pageName == "home" ==> r.1 == LoadPublicBlogs)
              && (pageName == "my-blogs" ==> r.1 == LoadMyBlogs)
              && (pageName == "profile" ==> r.1 == LoadProfile)
              && (pageName == "blog-detail" ==> r.1 == LoadBlogDetail(data))
              && (pageName == "create" && TruthyId(data) ==> r.1 == LoadBlogForEdit(data.value))
              && (pageName !in {"home", "my-blogs", "create", "blog-detail", "profile"} ==> r.1 == NoEffect)
  {
    if pageName + "-page" !in pageElements then (st.(activePage := None), NoEffect)
    else
      var shown := st.(activePage := Some(pageName), currentPage := pageName, hash := "#" + pageName);
      if pageName == "home" then (shown, LoadPublicBlogs)
      else if pageName == "my-blogs" then (shown, LoadMyBlogs)
      else if pageName == "create" then
        (shown.(currentBlogId := data, uploadedImages := []),
         if TruthyId(data) then LoadBlogForEdit(data.value) else NoEffect)
      else if pageName == "blog-detail" then (shown, LoadBlogDetail(data))
      else if pageName == "profile" then (shown, LoadProfile)
      else (shown, NoEffect)
  }

  // ------------------------------------------------------------------ save

  /** What the save action does: a toast and no request, or a request. */
  datatype SaveOutcome = Toast(message: string) | Send(verb: string, path: string, body: BlogBody)

  /** `saveBlog(isPublic)` on the editor's raw field values. A logged-out
      user and a title or content that trims to nothing get a toast;
      otherwise the trimmed fields go to `PUT /api/blogs/<id>` when a blog
      is being edited and to `POST /api/blogs` otherwise, with a blank
      summary sent as `null`. */
  function SaveBlog(st: ClientState, title: string, content: string, summary: string,
                    tags: string, isPublic: bool): (r: SaveOutcome)
    ensures st.currentUser.None? ==> r == Toast("Please log in to create blogs")
    ensures st.currentUser.Some? && (Trim(title) == "" || Trim(content) == "") ==>
              r == Toast("Title and content are required")
    ensures r.Send? <==> st.currentUser.Some? && Trim(title) != "" && Trim(content) != ""
    ensures r.Send? ==> (r.verb == "PUT" <==> TruthyId(st.currentBlogId))
    ensures r.Send? && TruthyId(st.currentBlogId) ==> r.path == "/api/blogs/" + st.currentBlogId.value
    ensures r.Send? && !TruthyId(st.currentBlogId) ==> r.verb == "POST" && r.path == "/api/blogs"
    ensures r.Send? ==> && r.body.title == Value(Trim(title)) && r.body.content == Value(Trim(content))
                        && r.body.images == Value(st.uploadedImages)
                        && r.body.isPublic == Value(isPublic)
                        && r.body.tags == Value(ParseTags(tags))
    ensures r.Send? ==> (r.body.summary.Null? <==> Trim(summary) == "")
    ensures r.Send? && Trim(summary) != "" ==> r.body.summary == Value(Trim(summary))
  {
    if st.currentUser.None? then Toast("Please log in to create blogs")
    else
      var t := Trim(title);
      var c := Trim(content);
      var s := Trim(summary);
      var parsed := ParseTags(tags);
      if t == "" || c == "" then Toast("Title and content are required")
      else
        var body := BlogBody(Value(t), Value(c), if s != "" then Value(s) else Null,
                             Value(st.uploadedImages), Value(isPublic), Value(parsed));
        if TruthyId(st.currentBlogId) then Send("PUT", "/api/blogs/" + st.currentBlogId.value, body)
        else Send("POST", "/api/blogs", body)
  }

  /** The client's own check is at least as strict as the server's: a body
      the client sends never draws the create route's 400. */
  lemma SentBodyPassesRequiredCheck(st: ClientState, title: string, content: string, summary: string,
                                    tags: string, isPublic: bool,
                                    blogs: BlogStore, author: Id, freshId: Id)
    requires freshId !in blogs
    requires SaveBlog(st, title, content, summary, tags, isPublic).Send?
    ensures CreateBlog(blogs, author, freshId, SaveBlog(st, title, content, summary, tags, isPublic).body).0.status
            != BadRequest
  {
  }

  /** Opening the editor on a blog and saving sends a `PUT` for that blog;
      opening it on nothing and saving sends a `POST`. */
  lemma EditorChoosesVerb(st: ClientState, data: Option<string>, pageElements: set<string>,
                          title: string, content: string)
    requires "create-page" in pageElements
    requires st.currentUser.Some? && Trim(title) != "" && Trim(content) != ""
    ensures var editor := Navigate(st, "create", data, pageElements).0;
      var out := SaveBlog(editor, title, content, "", "", false);
      && out.Send?
      && (TruthyId(data) ==> out.verb == "PUT" && out.path == "/api/blogs/" + data.value)
      && (!TruthyId(data) ==> out.verb == "POST")
      && out.body.images == Value([])
  {
    assert "create" + "-page" == "create-page";
    var editor := Navigate(st, "create", data, pageElements).0;
    assert editor.currentUser.Some? && editor.currentBlogId == data && editor.uploadedImages == [];
    var out := SaveBlog(editor, title, content, "", "", false);
    assert out.Send? && out.body.images == Value(editor.uploadedImages);
  }
}
