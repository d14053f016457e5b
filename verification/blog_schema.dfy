/** The Blog document: its fields, the normalising setters and validators of
    its schema, its defaults (`readTime`, `isPublic`, `views`) and the
    `likeCount` virtual. Timestamps are not modelled. */
module BlogSchema {
  import opened Base
  import opened Text
  import opened Lists

  const TitleMax: nat := 200
  const ContentMin: nat := 10
  const SummaryMax: nat := 300
  const TagMax: nat := 30
  const WordsPerMinute: nat := 200

  /** A stored blog. `summary` is `None` when unset or `null`. */
  datatype Blog = Blog(
    title: string,
    content: string,
    summary: Option<string>,
    images: seq<string>,
    author: Id,
    isPublic: bool,
    tags: seq<string>,
    readTime: int,
    views: nat,
    likes: seq<Id>)

  // ----------------------------------------------------------- image URLs

  const ImageExtensions: seq<string> := ["jpg", "jpeg", "png", "webp", "gif"]

  /** Equality under the case folding of a `/i` regular expression; only
      ASCII letters fold, which is exact for the ASCII patterns here. */
  predicate SameIgnoringCase(a: string, b: string) {
    Lower(a) == Lower(b)
  }

  predicate NoLineTerminator(s: string) {
    forall k :: 0 <= k < |s| ==> !IsLineTerminator(s[k])
  }

  /** `t` is `.+\.ext` with `ext` matched case-insensitively: at least one
      non-line-terminator character, a dot, then the extension at the end. */
  predicate EndsWithExtension(t: string, ext: string) {
    && |t| >= |ext| + 2
    && t[|t| - |ext| - 1] == '.'
    && SameIgnoringCase(t[|t| - |ext|..], ext)
    && NoLineTerminator(t[..|t| - |ext| - 1])
  }

  predicate HasImageExtension(t: string) {
    exists k :: 0 <= k < |ImageExtensions| && EndsWithExtension(t, ImageExtensions[k])
  }

  /** The image validator `^https?://.+\.(jpg|jpeg|png|webp|gif)$` with the
      `i` flag: the scheme is one of the two prefixes, in any case, and the
      rest ends with a dot and one of the extensions. */
  predicate ValidImageUrl(s: string) {
    || (|s| >= 7 && SameIgnoringCase(s[..7], "http://") && HasImageExtension(s[7..]))
    || (|s| >= 8 && SameIgnoringCase(s[..8], "https://") && HasImageExtension(s[8..]))
  }

  lemma LowerSlices(s: string, i: nat, j: nat)
    requires i <= j <= |s|
    ensures Lower(s)[i..j] == Lower(s[i..j])
    ensures Lower(s)[i..] == Lower(s[i..])
    ensures Lower(s)[..j] == Lower(s[..j])
  {
  }

  lemma LowerKeepsLineTerminators(s: string)
    ensures NoLineTerminator(Lower(s)) <==> NoLineTerminator(s)
  {
    forall k | 0 <= k < |s|
      ensures IsLineTerminator(Lower(s)[k]) <==> IsLineTerminator(s[k])
    {
    }
  }

  lemma LowerKeepsExtension(t: string, ext: string)
    ensures EndsWithExtension(Lower(t), ext) <==> EndsWithExtension(t, ext)
  {
    LowerIsLower(t);
    if |t| >= |ext| + 2 {
      var d := |t| - |ext| - 1;
      LowerSlices(t, d, |t|);
      LowerSlices(t, 0, d);
      assert Lower(Lower(t)[d + 1..]) == Lower(t[d + 1..]);
      LowerKeepsLineTerminators(t[..d]);
    }
  }

  lemma LowerKeepsImageExtension(t: string)
    ensures HasImageExtension(Lower(t)) <==> HasImageExtension(t)
  {
    forall k | 0 <= k < |ImageExtensions|
      ensures EndsWithExtension(Lower(t), ImageExtensions[k]) <==> EndsWithExtension(t, ImageExtensions[k])
    {
      LowerKeepsExtension(t, ImageExtensions[k]);
    }
  }

  /** The `i` flag makes the validator blind to letter case: lowering a URL
      never changes whether it is accepted. */
  lemma {:induction false} ValidImageUrlIgnoresCase(s: string)
    ensures ValidImageUrl(Lower(s)) <==> ValidImageUrl(s)
  {
    LowerIsLower(s);
    if |s| >= 7 {
      LowerSlices(s, 0, 7);
      LowerSlices(s, 7, |s|);
      LowerKeepsImageExtension(s[7..]);
      assert SameIgnoringCase(Lower(s)[..7], "http://") <==> SameIgnoringCase(s[..7], "http://");
    }
    if |s| >= 8 {
      LowerSlices(s, 0, 8);
      LowerSlices(s, 8, |s|);
      LowerKeepsImageExtension(s[8..]);
      assert SameIgnoringCase(Lower(s)[..8], "https://") <==> SameIgnoringCase(s[..8], "https://");
    }
  }

  /** Either scheme is accepted in any letter case. */
  lemma ImageUrlAccepted()
    ensures ValidImageUrl("https://a.PNG")
    ensures ValidImageUrl("HTTP://b.jpeg")
  {
    UpperExtensionAccepted();
    UpperSchemeAccepted();
  }

  lemma UpperExtensionAccepted()
    ensures ValidImageUrl("https://a.PNG")
  {
    var a := "https://a.PNG";
    var t := a[8..];
    assert t == "a.PNG";
    assert t[|t| - 3..] == "PNG";
    assert Lower("PNG") == "png" by {
      assert Lower("PNG")[0] == 'p' && Lower("PNG")[1] == 'n' && Lower("PNG")[2] == 'g';
    }
    assert EndsWithExtension(t, ImageExtensions[2]);
  }

  lemma UpperSchemeAccepted()
    ensures ValidImageUrl("HTTP://b.jpeg")
  {
    var b := "HTTP://b.jpeg";
    assert b[..7] == "HTTP://";
    assert Lower("HTTP://") == "http://" by {
      var l := Lower("HTTP://");
      assert l[0] == 'h' && l[1] == 't' && l[2] == 't' && l[3] == 'p';
      assert l[4] == ':' && l[5] == '/' && l[6] == '/';
    }
    var t := b[7..];
    assert t == "b.jpeg";
    assert t[|t| - 4..] == "jpeg";
    assert EndsWithExtension(t, ImageExtensions[1]);
  }

  /** No other scheme, and no empty name before the extension. */
  lemma ImageUrlRejectedShape()
    ensures !ValidImageUrl("ftp://c.png")
    ensures !ValidImageUrl("https://.jpg")
  {
    var c := "ftp://c.png";
    assert Lower(c[..7])[0] == 'f' && Lower(c[..8])[0] == 'f';
    var d := "https://.jpg";
    assert Lower(d[..7])[4] == 's';
    assert |d[8..]| == 4;
  }

  /** Nothing may follow the extension, not even a query string. */
  lemma ImageUrlRejectedQuery()
    ensures !ValidImageUrl("https://a.png?w=1")
  {
    var e := "https://a.png?w=1";
    assert Lower(e[..7])[4] == 's';
    var t := e[8..];
    forall k | 0 <= k < |ImageExtensions|
      ensures !EndsWithExtension(t, ImageExtensions[k])
    {
      var ext := ImageExtensions[k];
      assert t[|t| - 1] == '1';
      assert Lower(t[|t| - |ext|..])[|ext| - 1] == '1';
    }
  }

  // ------------------------------------------------------------- read time

  /** The `readTime` default: `max(1, ceil(w / 200))` where `w` is the number
      of pieces of `content.split(/\s+/)`. */
  function ReadTime(content: string): (r: int)
    ensures r >= 1
    ensures |SplitWords(content)| <= r * WordsPerMinute
    ensures r == 1 || (r - 1) * WordsPerMinute < |SplitWords(content)|
  {
    var words := |SplitWords(content)|;
    var minutes := CeilDiv(words, WordsPerMinute);
    if minutes < 1 then 1 else minutes
  }

  /** The read time counts white-space runs: `r` minutes cover the runs plus
      one, and fewer than 200 runs always read in one minute. */
  lemma ReadTimeFromRuns(content: string)
    ensures SpaceRuns(content) + 1 <= ReadTime(content) * WordsPerMinute
    ensures SpaceRuns(content) < WordsPerMinute ==> ReadTime(content) == 1
  {
    SplitWordsCount(content);
  }

  lemma ReadTimeExample()
    ensures ReadTime("this is long enough") == 1
  {
    ReadTimeFromRuns("this is long enough");
    var s := "this is long enough";
    assert SpaceRuns(s) <= |s| by { SpaceRunsBound(s); }
  }

  lemma {:induction false} SpaceRunsBound(s: string)
    ensures SpaceRuns(s) <= |s|
    decreases |s|
  {
    if |s| > 0 {
      if IsSpace(s[0]) {
        SpaceRunsBound(TrimStart(s));
      } else {
        SpaceRunsBound(s[1..]);
      }
    }
  }

  // ------------------------------------------------ setters and validators

  /** The `trim` and `lowercase` setters of a tag. */
  function NormalizeTag(t: string): (r: string)
    ensures Trimmed(r) && IsLower(r)
    ensures r == Trim(Lower(t))
  {
    TrimLowerCommute(t);
    LowerIsLower(Trim(t));
    LowerPreservesTrimmed(Trim(t));
    Lower(Trim(t))
  }

  /** A tag that is already trimmed and lower case is its own normal form. */
  lemma NormalizeTagOfNormalized(t: string)
    requires Trimmed(t) && IsLower(t)
    ensures NormalizeTag(t) == t
  {
    LowerOfLower(t);
    TrimOfTrimmed(t);
  }

  function NormalizeTags(ts: seq<string>): (r: seq<string>)
    ensures |r| == |ts|
    ensures forall k :: 0 <= k < |ts| ==> r[k] == NormalizeTag(ts[k])
  {
    seq(|ts|, k requires 0 <= k < |ts| => NormalizeTag(ts[k]))
  }

  function TrimSummary(s: Option<string>): (r: Option<string>)
    ensures r.Some? <==> s.Some?
    ensures r.Some? ==> r.value == Trim(s.value)
  {
    if s.Some? then Some(Trim(s.value)) else None
  }

  /** What the setters leave behind: trimmed title and summary, trimmed and
      lower-case tags. */
  predicate Normalized(b: Blog) {
    && Trimmed(b.title)
    && (b.summary.Some? ==> Trimmed(b.summary.value))
    && forall k :: 0 <= k < |b.tags| ==> Trimmed(b.tags[k]) && IsLower(b.tags[k])
  }

  /** The schema's validators on a document whose setters have run: title
      required and at most 200 long, content at least 10 long, summary at
      most 300, every image URL well formed, every tag at most 30. Lengths
      are JavaScript lengths, in UTF-16 code units. */
  predicate SchemaValid(b: Blog) {
    && b.title != "" && Utf16Length(b.title) <= TitleMax
    && Utf16Length(b.content) >= ContentMin
    && (b.summary.Some? ==> Utf16Length(b.summary.value) <= SummaryMax)
    && (forall k :: 0 <= k < |b.images| ==> ValidImageUrl(b.images[k]))
    && (forall k :: 0 <= k < |b.tags| ==> Utf16Length(b.tags[k]) <= TagMax)
  }

  /** The same validators, read off the values as assigned, before the
      setters run: a title that does not trim to nothing and trims to at
      most 200, content of at least 10, a summary that trims to at most
      300, well-formed image URLs, tags that normalise to at most 30. */
  predicate AcceptsFields(title: string, content: string, summary: Option<string>,
                          images: seq<string>, tags: seq<string>) {
    && Trim(title) != "" && Utf16Length(Trim(title)) <= TitleMax
    && Utf16Length(content) >= ContentMin
    && (summary.Some? ==> Utf16Length(Trim(summary.value)) <= SummaryMax)
    && (forall k :: 0 <= k < |images| ==> ValidImageUrl(images[k]))
    && (forall k :: 0 <= k < |tags| ==> Utf16Length(Trim(Lower(tags[k]))) <= TagMax)
  }

  /** A document as it can sit in the collection. */
  predicate Stored(b: Blog) {
    Normalized(b) && SchemaValid(b) && b.readTime >= 1
  }

  /** Assigning fields of an existing document: the setters of the assigned
      fields run (title and summary trimmed, tags trimmed and lower-cased),
      the other assigned values are stored as given, and nothing else
      changes. The validators accept the result exactly when they accept
      the assigned values. */
  function AssignContent(b: Blog, title: string, content: string, summary: Option<string>,
                         images: seq<string>, isPublic: bool, tags: seq<string>): (r: Blog)
    ensures r.author == b.author && r.views == b.views && r.likes == b.likes
    ensures r.readTime == b.readTime
    ensures r.title == Trim(title) && r.content == content
    ensures r.summary.Some? <==> summary.Some?
    ensures summary.Some? ==> r.summary.value == Trim(summary.value)
    ensures r.images == images && r.isPublic == isPublic
    ensures |r.tags| == |tags| && forall k :: 0 <= k < |tags| ==> r.tags[k] == Trim(Lower(tags[k]))
    ensures Normalized(r)
    ensures SchemaValid(r) <==> AcceptsFields(title, content, summary, images, tags)
  {
    b.(title := Trim(title), content := content, summary := TrimSummary(summary),
       images := images, isPublic := isPublic, tags := NormalizeTags(tags))
  }

  /** `new Blog({...})`: runs the setters and fills the defaults — `isPublic`
      false when not given, `views` 0, no likes, and `readTime` computed from
      the content. The validators accept it exactly when they accept the
      given values. */
  function NewBlog(title: string, content: string, summary: Option<string>, images: seq<string>,
                   author: Id, isPublic: Option<bool>, tags: seq<string>): (r: Blog)
    ensures Normalized(r) && r.readTime >= 1
    ensures r.author == author && r.content == content && r.images == images
    ensures r.title == Trim(title)
    ensures r.summary.Some? <==> summary.Some?
    ensures summary.Some? ==> r.summary.value == Trim(summary.value)
    ensures |r.tags| == |tags| && forall k :: 0 <= k < |tags| ==> r.tags[k] == Trim(Lower(tags[k]))
    ensures r.isPublic <==> isPublic == Some(true)
    ensures r.views == 0 && r.likes == []
    ensures r.readTime == ReadTime(content)
    ensures SchemaValid(r) <==> AcceptsFields(title, content, summary, images, tags)
  {
    var flag := if isPublic.Some? then isPublic.value else false;
    Blog(Trim(title), content, TrimSummary(summary), images, author, flag,
         NormalizeTags(tags), ReadTime(content), 0, [])
  }

  /** The `likeCount` virtual serialised with every blog. */
  function LikeCount(b: Blog): nat {
    |b.likes|
  }
}
