# Blog application core, modelled in Dafny

This project models the core of a small blogging application. The server
(Express with a MongoDB object-document mapper) stores users and blog
posts. Users sign in with Google and then present a bearer token. They
write public or private posts, like posts, and page through listings. A
browser client drives the server.

Each route handler is a pure function: it takes the collection and the
request and returns the reply together with the collection afterwards.
The contracts state the properties the application depends on:

- who may read or change a blog, and in which order the checks run;
- which fields an update keeps;
- that listings are windows of the matching posts;
- that the like toggle is its own inverse;
- what the client sends and how its pagination bar looks.

Modules follow the program's structure:

| file | module | models |
|---|---|---|
| `base.dfy` | `Base` | options, JSON request fields and their truthiness, replies and status codes, `Math.ceil` of a quotient |
| `text.dfy` | `Text` | JavaScript `trim`, `\s`, `toLowerCase`, `split` on a character or on white-space runs, `join` |
| `lists.dfy` | `Lists` | `indexOf`, `splice(i, 1)`, duplicate-free lists |
| `blog_schema.dfy` | `BlogSchema` | the Blog document: setters, validators, image-URL pattern, read time, defaults |
| `user_schema.dfy` | `UserSchema` | the User document, the unique indexes, lookups in natural order, the public view |
| `auth_middleware.dfy` | `AuthMiddleware` | `requireAuth` and `optionalAuth` |
| `query_params.dfy` | `QueryParams` | `parseInt(x) \|\| fallback` for `page` and `limit` |
| `blog_listing.dfy` | `BlogListing` | `GET /api/blogs` and `GET /api/blogs/my` |
| `blog_routes.dfy` | `BlogRoutes` | read, create, update, delete and like on one blog |
| `passport.dfy` | `Passport` | the Google strategy, `serializeUser` and `deserializeUser` |
| `user_routes.dfy` | `UserRoutes` | `GET /api/users/:id` and `PUT /api/users/profile` |
| `pagination_view.dfy` | `PaginationView` | the client's `renderPagination` |
| `client_app.dfy` | `ClientApp` | the client's navigation, tag field, image list and save action |

Some inputs are external to the model and become parameters:

- Token verification is the oracle `verify`.
- Full-text search is the oracle `textMatch`.
- The newest-first order of the blog collection is the sequence `order`.
- New documents receive their ids as arguments.
- The set of page elements in the client's document is the argument `pageElements`.

## Behaviour as the code has it

The model follows the code as written, including these behaviours that a
reader of the routes could easily miss:

- **Anonymous reads.** `GET /api/blogs/:id` answers 401 to a caller without
  a user before it looks at visibility (`src/routes/blogs.ts:95-97`), so an
  anonymous caller is refused even a public blog
  (`BlogRoutes.AnonymousReadIsRefused`). Once a user is attached, the
  visibility rule of lines 99-103 applies: a public blog for anyone, a
  private one for its owner (`BlogRoutes.CanRead`). `BlogRoutes.ReadBlog`
  states exactly when a read succeeds.
- **Validation failures are 500.** A body that passes the handler's own
  check but fails a schema validator is caught as a failed save. The route
  then answers 500, not 400. For example, content "short" is rejected with
  500 (`BlogRoutes.ShortContentIsServerError`). So is a profile name of
  blanks (`UserRoutes.BlankNameIsServerError`).
- **Reads and likes save the whole document.** Counting a view and
  toggling a like call `save()`, which runs every validator again. A stored
  blog that violates the schema therefore makes a non-owner read and every
  like toggle answer 500 with nothing changed (`BlogRoutes.ReadBlog`,
  `BlogRoutes.ToggleLike`).
- **Unlike removes the first occurrence only.** A like list holding a user
  twice needs two unlikes (`BlogRoutes.UnlikeRemovesFirstOnly`). Duplicates
  never arise from the routes themselves
  (`BlogRoutes.LikePreservesConsistency`).
- **Invalid tokens keep the earlier user.** Under `optionalAuth` a token
  that fails verification, or whose subject is not an ObjectId, ends in
  the `catch` and leaves whatever user the request already had (the session
  user), rather than none (`AuthMiddleware.MalformedSubject`).
- **Linking replaces an old Google id.** Signing in by e-mail overwrites a
  different Google id the user already had
  (`Passport.LinkOverwritesGoogleId`).
- **Stale page numbers.** When the current page is past the last page, Next
  stays enabled with an empty click handler
  (`PaginationView.StaleNextHasNoTarget`).
- **Updates keep the read time.** `readTime` is computed when a blog is
  created and is not recomputed when its content changes.
- **Lengths count UTF-16 code units.** The `maxlength` and `minlength`
  validators measure JavaScript's `length`, in which a character outside
  the Basic Multilingual Plane counts twice (`Text.EmojiCountsTwice`).

## Model

| member | source | states |
|---|---|---|
| Base.CeilDiv | src/routes/blogs.ts:46 | `Math.ceil(total / limit)`: the least integer whose multiple of the limit reaches the total (and the mirror statement for a negative limit) |
| Text.Trim | src/models/Blog.ts:19-23 | the `trim` setter: the result neither starts nor ends with white space and is no longer than the input |
| Text.TrimRemovesOnlySpace | src/models/Blog.ts:19-23 | what `trim` removes is white space at the two ends only: the result is the infix of the input after its leading white space, and everything around it is white space |
| Text.TrimIdempotent | src/models/Blog.ts:19-23 | trimming twice is trimming once, so re-assigning a stored field changes nothing |
| Text.TrimOfPadded | src/models/Blog.ts:53-58 | `trim` strips exactly the white space around a trimmed, non-empty text |
| Text.TrimEmptyIffAllSpace | public/app.js:496-507 | a field trims to the empty string exactly when it is all white space, which is when the client refuses to save |
| Text.TrimLowerCommute | src/models/User.ts:21-27 | `lowercase` and `trim` commute, so the order in which the setters run does not matter |
| Text.Split | public/app.js:499-500 | `split(',')` yields at least one piece and no piece contains the separator |
| Text.SplitJoin | public/app.js:499-500 | splitting a join of separator-free pieces gives back the pieces |
| Text.JoinSplit | public/app.js:499-500 | joining the pieces of a split with the separator gives back the string |
| Text.SplitWordsCount | src/models/Blog.ts:63 | `split(/\s+/)` yields one more piece than the string has white-space runs |
| Text.SplitAtFirst | public/app.js:499-500 | `split` cuts at the first separator: the piece before it, then the split of the rest |
| Text.Utf16Length | src/models/Blog.ts:19-33 | the `length` the validators measure lies between the number of characters and twice it, and is zero exactly for the empty string |
| Text.BmpLength | src/models/Blog.ts:19-33 | for text within the Basic Multilingual Plane, `length` is the number of characters |
| Text.EmojiCountsTwice | src/models/Blog.ts:19-33 | a single emoji is one character but has `length` 2 |
| Lists.IndexOf | src/routes/blogs.ts:210 | `indexOf` is -1 exactly when the element is absent, and otherwise the position of its first occurrence |
| Lists.SpliceOne | src/routes/blogs.ts:214 | `splice(i, 1)` removes the element at the start position and keeps the others in order |
| Lists.SpliceOneMultiset | src/routes/blogs.ts:214 | the removal takes exactly that element out of the bag of elements |
| Lists.RemoveFirstOccurrence | src/routes/blogs.ts:210-214 | in a duplicate-free list, removing at `indexOf(x)` removes `x` entirely and keeps the list duplicate-free |
| Lists.PushPreservesNoDuplicates | src/routes/blogs.ts:217 | pushing an absent element keeps the list duplicate-free |
| BlogSchema.ValidImageUrlIgnoresCase | src/models/Blog.ts:38-40 | the image-URL pattern is case-insensitive: a URL and its lower-case form are accepted alike |
| BlogSchema.ImageUrlAccepted | src/models/Blog.ts:39 | mixed-case scheme and extension are accepted |
| BlogSchema.ImageUrlRejectedShape | src/models/Blog.ts:39 | another scheme, or nothing between scheme and extension, is rejected |
| BlogSchema.ImageUrlRejectedQuery | src/models/Blog.ts:39 | a query string after the extension is rejected, since the pattern is anchored at the end |
| BlogSchema.ReadTime | src/models/Blog.ts:59-65 | the read time is at least one minute, covers the word count at 200 words a minute, and is the least such value above one |
| BlogSchema.ReadTimeFromRuns | src/models/Blog.ts:63-64 | the read time expressed through the number of white-space runs in the content |
| BlogSchema.ReadTimeExample | src/models/Blog.ts:59-65 | "this is long enough" reads in one minute |
| BlogSchema.NormalizeTag | src/models/Blog.ts:53-58 | a tag after its setters is trimmed and lower case, whichever setter runs first |
| BlogSchema.NormalizeTagOfNormalized | src/models/Blog.ts:53-58 | a tag already trimmed and lower case is left as it is |
| BlogSchema.AssignContent | src/models/Blog.ts:18-58 | assigning content fields runs their setters: the title and summary are trimmed, each tag is lower-cased and trimmed, content, images and visibility are stored as given; author, views, likes and read time stay; the result passes the validators exactly when the given values do (`AcceptsFields`) |
| BlogSchema.NewBlog | src/models/Blog.ts:49-70 | a new document gets its setters applied (trimmed title and summary, normalised tags), visibility false unless true was given, no views, no likes, the read time of its content, and is valid exactly when the given values pass the validators |
| UserSchema.NormalizeEmail | src/models/User.ts:21-27 | the stored e-mail is trimmed and lower case |
| UserSchema.NewUser | src/models/User.ts:15-41 | a new user gets avatar and bio defaults, and is valid exactly when e-mail and username are non-empty after the setters |
| UserSchema.FindFirst | src/config/passport.ts:12 | `findOne` yields the first document in natural order that matches, or none when nothing matches |
| UserSchema.FindByIdUnique | src/middleware/auth.ts:21 | in a well-formed collection, lookup by id finds the document with that id |
| UserSchema.ReplaceKeepsWellFormed | src/models/User.ts:16-27 | a save of an existing user that passes the validators and unique indexes keeps the collection well formed |
| UserSchema.AppendKeepsWellFormed | src/models/User.ts:16-27 | the same for inserting a new user |
| UserSchema.PublicOmitsGoogleId | src/routes/users.ts:10 | the profile view with `-googleId` reveals nothing of the Google id and keeps every other field |
| AuthMiddleware.BearerToken | src/middleware/auth.ts:12-18 | a token exists exactly when the header starts with `Bearer `, and it is the rest of the header |
| AuthMiddleware.RequireAuth | src/middleware/auth.ts:10-32 | every rejection is a 401, with "Authentication required" without a bearer header and "Invalid authentication token" otherwise; a user is admitted exactly when the token verifies, its subject casts to an ObjectId and names a stored user |
| AuthMiddleware.OptionalAuth | src/middleware/auth.ts:34-50 | never rejects; keeps the prior user without a bearer header, with an invalid token, or with a subject that is no ObjectId; otherwise a user is attached exactly when the subject exists |
| AuthMiddleware.GatesAgree | src/middleware/auth.ts:10-50 | whenever the strict gate admits a user the optional gate attaches the same one; when it rejects, the optional gate leaves no user exactly for a verified, castable subject that names nobody, and otherwise keeps the prior user |
| AuthMiddleware.AdmittedIsSubject | src/middleware/auth.ts:19-27 | in a well-formed collection the admitted user is the one the token names |
| AuthMiddleware.SchemeIsCaseSensitive | src/middleware/auth.ts:14-16 | a lower-case `bearer` scheme is refused as a missing token |
| AuthMiddleware.NonBearerHeader | src/middleware/auth.ts:14-38 | any header not starting with exactly `Bearer ` is refused by the strict gate as a missing token and leaves the optional gate's prior user |
| AuthMiddleware.MalformedSubject | src/middleware/auth.ts:19-48 | any verified token whose subject is no ObjectId is refused by the strict gate with 401 and leaves the optional gate's prior user |
| QueryParams.IntParam | src/routes/blogs.ts:10-11 | a missing or non-numeric parameter and zero all fall back to the default; otherwise the parsed value; never zero for a non-zero default |
| QueryParams.ParsePageRoundTrip | src/routes/blogs.ts:10 | every positive page number the client writes in decimal is read back as itself |
| QueryParams.NonNumericFallsBack | src/routes/blogs.ts:10 | `page=abc` gives page 1 |
| QueryParams.ZeroFallsBack | src/routes/blogs.ts:11 | `limit=0` gives the default limit 10 |
| BlogListing.PublicFilter | src/routes/blogs.ts:19-31 | the public filter always demands public blogs, and adds the search text as given, the tag through the `tags` setters (trimmed, lower case) and the author cast to an ObjectId (lower-case hexadecimal), each exactly when it is non-empty |
| BlogListing.PaddedTagFindsTheSame | src/routes/blogs.ts:25-27 | white space around the tag parameter does not change the filter: a padded tag finds what the bare tag finds |
| BlogListing.MatchingIds | src/routes/blogs.ts:33-35 | an id is listed exactly when it is in the listing order, stored, and its blog matches the filter |
| BlogListing.MatchingIdsFollowOrder | src/routes/blogs.ts:33-35 | the matches keep the newest-first order of the collection and list no blog twice |
| BlogListing.Window | src/routes/blogs.ts:36-37 | `skip` then `limit` yields the slice starting at the skip: empty when skipping past the end, otherwise as long as the limit's magnitude or up to the end, whichever comes first |
| BlogListing.RunQuery | src/routes/blogs.ts:16-49 | a negative skip is a 500; otherwise the current page is echoed, the total is the number of matches, pages is the ceiling of total over limit, and the items are, in order, the blogs of the window of matches that page and limit select |
| BlogListing.ListPublic | src/routes/blogs.ts:8-54 | with page and limit parsed with their defaults: a 500 exactly when the skip is negative or a non-empty author is no ObjectId; otherwise the pagination is page, page count and total of the public matches, the items are that page's window of them, and every item is public and carries the normalised tag and the cast author |
| BlogListing.MalformedAuthorIsServerError | src/routes/blogs.ts:29-53 | an author parameter that is no ObjectId makes the listing a 500 whatever the page, limit and store |
| BlogListing.ListOwn | src/routes/blogs.ts:57-83 | the same for the caller's own blogs, of any visibility: every item belongs to the caller |
| BlogListing.DefaultsShowFirstTen | src/routes/blogs.ts:10-38 | without page and limit the reply succeeds exactly when the author (if any) casts, and then shows page 1 with the first ten matches in order |
| BlogListing.MatchingIdsCount | src/routes/blogs.ts:40 | over a duplicate-free order, the listed ids count the matching documents |
| BlogListing.TotalIsMatchCount | src/routes/blogs.ts:40 | the reported total equals the number of stored blogs matching the filter, as `countDocuments` counts |
| BlogListing.NonEmptyPagesArePages | src/routes/blogs.ts:36-46 | with a positive limit, a page from 1 on holds blogs exactly when it is at most the page count |
| BlogListing.PageHoldsItsMatches | src/routes/blogs.ts:33-46 | page `p` with a positive limit `l` succeeds and holds the matches from position `(p-1)*l` on: `l` of them, or the rest when fewer remain, or none past the end |
| BlogRoutes.ReadBlog | src/routes/blogs.ts:86-116 | 404 before 401 before 403; a non-owner read of a blog that fails the validators is a 500; success exactly when there is a requester who may read the blog and the view save passes; a non-owner read adds one view, an owner read changes nothing, failures change nothing |
| BlogRoutes.AnonymousReadIsRefused | src/routes/blogs.ts:95-97 | a request without a user gets 401 even for a public blog |
| BlogRoutes.ReadChangesOnlyViews | src/routes/blogs.ts:105-109 | a read changes no blog but the one read, and that only in its view count, by exactly one, for a successful non-owner read |
| BlogRoutes.CreateBlog | src/routes/blogs.ts:119-145 | missing or empty title or content is a 400; otherwise a 201 exactly when the given fields pass the validators, and a 500 otherwise; failures store nothing; the created blog is stored under the new id, owned by the caller, with no views or likes, the trimmed title, the content, the trimmed summary when one was given, the given images and visibility, and each tag lower-cased and trimmed |
| BlogRoutes.CreateThenRead | src/routes/blogs.ts:119-145 | after a successful create, its author reads back exactly the blog the create replied with, and no other stored blog changed |
| BlogRoutes.PlainPostIsCreated | src/routes/blogs.ts:119-145 | a post with only title "Hello" and content "Hello world" is created as a private blog with exactly those fields |
| BlogRoutes.ShortContentIsServerError | src/routes/blogs.ts:123-143 | content shorter than ten characters passes the route's check and fails on save as a 500 |
| BlogRoutes.Merge | src/routes/blogs.ts:160-167 | each assignment with its fallback: a truthy title or content replaces (the title trimmed), otherwise the old value stays; a summary, images or visibility that is given replaces, `null` clears the summary and makes the blog not public, absent keeps; given tags are normalised, otherwise the old tags are re-normalised; author, views, likes and read time stay |
| BlogRoutes.UpdateBlog | src/routes/blogs.ts:148-177 | 404, then 403 for a non-owner, with nothing changed; for the owner, success exactly when the merged values pass the validators, else a 500 with nothing changed; on success every field is as `Merge` assigns it, and the blog is stored in place |
| BlogRoutes.EmptyUpdateIsIdentity | src/routes/blogs.ts:160-169 | an update body with no field leaves a stored blog exactly as it was |
| BlogRoutes.MergeIdempotent | src/routes/blogs.ts:162-167 | applying the same assignments twice equals applying them once |
| BlogRoutes.UpdateIsIdempotent | src/routes/blogs.ts:148-177 | sending the same update twice has the effect of sending it once |
| BlogRoutes.DeleteBlog | src/routes/blogs.ts:180-198 | 404, then 403 for a non-owner, with nothing changed; otherwise the reply is "Blog deleted successfully" and only that blog is removed |
| BlogRoutes.ToggleMember | src/routes/blogs.ts:210-218 | an absent user is appended; a present user loses the occurrence at its first position and the rest keep their order |
| BlogRoutes.ToggleLike | src/routes/blogs.ts:201-226 | 404 for an unknown blog; a 500 with nothing changed when the stored blog fails the validators on save; otherwise only that blog's likes change, by the toggle; the reply's `liked` is true exactly when the user was absent and `likes` is the new like count |
| BlogRoutes.ToggleKeepsLikesDistinct | src/routes/blogs.ts:210-221 | from a duplicate-free list the toggle keeps it duplicate-free, and the user is present afterwards exactly when the reply says liked |
| BlogRoutes.ToggleTwiceRestores | src/routes/blogs.ts:210-218 | two toggles restore the likers and the count, and restore the list itself when the user was absent |
| BlogRoutes.UnlikeRemovesFirstOnly | src/routes/blogs.ts:210-214 | a user listed twice loses one copy per toggle, so two toggles do not restore membership |
| BlogRoutes.LikeIgnoresVisibility | src/routes/blogs.ts:201-208 | any authenticated user can like another user's valid private blog |
| BlogRoutes.NormalizeTagsOfNormalized | src/models/Blog.ts:53-58 | re-assigning normalised tags leaves them unchanged |
| BlogRoutes.ReadPreservesConsistency | src/routes/blogs.ts:105-109 | reads keep every stored blog valid with duplicate-free likes |
| BlogRoutes.CreatePreservesConsistency | src/routes/blogs.ts:127-137 | creates keep the collection consistent |
| BlogRoutes.UpdatePreservesConsistency | src/routes/blogs.ts:162-169 | updates keep the collection consistent |
| BlogRoutes.DeletePreservesConsistency | src/routes/blogs.ts:192 | deletes keep the collection consistent |
| BlogRoutes.LikePreservesConsistency | src/routes/blogs.ts:210-220 | like toggles keep the collection consistent |
| Passport.Link | src/config/passport.ts:19-28 | linking sets the Google id, keeps a non-empty avatar or takes the first photo, changes nothing else; it signs in exactly when the avatar or a photo exists and the validators and indexes accept the linked document |
| Passport.Create | src/config/passport.ts:30-40 | a new user is built from the profile's id, first e-mail, display name and first photo; it signs in, appended, exactly when a photo exists and the validators and indexes accept it |
| Passport.GoogleLogin | src/config/passport.ts:9-45 | a Google-id match signs in unchanged; otherwise a missing e-mail fails; otherwise an e-mail match links and no match creates; failures write nothing |
| Passport.SignUpCreatesUser | src/config/passport.ts:11-40 | a profile with an unused Google id, a new e-mail, a photo and a non-blank name signs up: the user built from the profile is appended and signed in |
| Passport.LinkSignsIn | src/config/passport.ts:19-28 | a user found by e-mail, with an avatar or a photo to take and a Google id nobody holds, is linked and signed in, with only that document replaced |
| Passport.LoginOutcome | src/config/passport.ts:11-40 | the signed-in user carries the profile's Google id and is in the collection, which grows by at most that user; a sign-in by e-mail changes only the matched document, into the signed-in user |
| Passport.LoginKeepsWellFormed | src/config/passport.ts:19-40 | every sign-in keeps the user collection well formed |
| Passport.GoogleIdTakesPrecedence | src/config/passport.ts:11-16 | whoever already carries the Google id signs in, with nothing written |
| Passport.LinkOverwritesGoogleId | src/config/passport.ts:22-27 | a user found by e-mail under another Google id gets the new one |
| Passport.Deserialize | src/config/passport.ts:51-58 | the session id yields the stored user with that id, or none when no user has it |
| Passport.SessionRoundTrip | src/config/passport.ts:47-58 | serialising then deserialising a stored user gives back that user |
| UserRoutes.GetUser | src/routes/users.ts:8-21 | 404 exactly when no user has the id; otherwise the public view of a stored user with that id |
| UserRoutes.ApplyProfile | src/routes/users.ts:34-36 | a truthy name becomes the trimmed username, a defined bio replaces the bio, a truthy avatar replaces the avatar; id, e-mail and Google id stay |
| UserRoutes.UpdateProfile | src/routes/users.ts:24-47 | 404 for an unknown requester; a 500 exactly when the validators or indexes refuse the merged document; otherwise the public view of the merged document, stored in place |
| UserRoutes.ProfileUpdateIsConfined | src/routes/users.ts:28-38 | only the requester's document changes, and never its id, e-mail or Google id |
| UserRoutes.ProfileUpdateKeepsWellFormed | src/routes/users.ts:34-38 | a profile update keeps the user collection well formed |
| UserRoutes.UpdateThenRead | src/routes/users.ts:38-42 | the reply to an update equals what reading the profile right after returns |
| UserRoutes.BlankNameIsServerError | src/routes/users.ts:34-45 | a name of blanks is assigned, trimmed to nothing and refused on save as a 500 |
| UserRoutes.EmptyProfileUpdateIsIdentity | src/routes/users.ts:34-38 | an update without fields leaves the collection as it was |
| PaginationView.RenderPagination | public/app.js:390-434 | no bar for one page; otherwise Previous, then pages and ellipses only, then Next; Previous disabled exactly on page 1 and targeting the page before exactly when there is one; Next likewise at the last page |
| PaginationView.StripHoldsPagesAndGaps | public/app.js:409-423 | the page strip holds only buttons for pages in range and ellipses |
| PaginationView.StripButtonIff | public/app.js:409-419 | a page gets a button exactly when it is in range and is the current page, a neighbour of it, the first or the last page; only the current one is active |
| PaginationView.ButtonShownIff | public/app.js:409-419 | the same for the whole bar |
| PaginationView.StripAscending | public/app.js:409-423 | the buttons of the strip are in increasing page order |
| PaginationView.BarAscending | public/app.js:390-434 | the buttons of the whole bar are in increasing page order |
| PaginationView.StripShape | public/app.js:409-423 | with the current page in range the strip is: page 1, an ellipsis if pages are skipped, the current page and its neighbours, an ellipsis if pages are skipped, the last page |
| PaginationView.StaleNextHasNoTarget | public/app.js:426-431 | on page 5 of 3, Next is enabled with an empty handler |
| ClientApp.NonEmpty | public/app.js:502 | the kept pieces are exactly the non-empty ones: each kept piece is non-empty and was split off, and every non-empty piece is kept |
| ClientApp.NonEmptyAppend | public/app.js:502 | filtering keeps order: filtering a concatenation concatenates the filtered parts |
| ClientApp.ParseTags | public/app.js:499-502 | every parsed tag is non-empty, trimmed and comma-free |
| ClientApp.ParseTagsOfPiece | public/app.js:499-502 | text without a comma gives its trimmed self as the one tag, or nothing when it is blank |
| ClientApp.ParseTagsAtComma | public/app.js:499-502 | the tags of `a,b` (with `a` comma-free) are the tags of `a` followed by the tags of `b`: complete and in order |
| ClientApp.BlankPieceVanishes | public/app.js:499-502 | a blank piece between two commas contributes no tag |
| ClientApp.TagsRoundTrip | public/app.js:499-502 | the edit form's `join(', ')` of trimmed, non-empty, comma-free tags parses back to the same tags |
| ClientApp.RemoveImage | public/app.js:605-608 | removing preview `i` drops exactly that image and keeps the others in order |
| ClientApp.RemoveImageInverse | public/app.js:605-608 | putting the removed image back at its index restores the list |
| ClientApp.Navigate | public/app.js:96-130 | an unknown page deactivates every page and changes nothing else; a known one becomes current with the URL fragment and starts its load: public blogs for home, the caller's blogs for my-blogs, the profile, the blog for blog-detail; the editor takes the blog id and empties the images, loading the blog for editing exactly when the id is truthy; other pages load nothing |
| ClientApp.SaveBlog | public/app.js:490-553 | a toast when logged out or when title or content trims to nothing; otherwise PUT to the blog being edited or POST, with trimmed fields, the uploaded images, the parsed tags and a blank summary as `null` |
| ClientApp.SentBodyPassesRequiredCheck | public/app.js:504-519 | a body the client sends never draws the create route's 400 |
| ClientApp.EditorChoosesVerb | public/app.js:521-525 | after opening the editor on a blog, saving sends PUT for that blog; after opening it on nothing, POST |

## Left out

- Network, database and DOM I/O are not modelled: requests, responses,
  drawing, toasts and the loading indicator. Handlers are functions from
  the collection to a reply and a collection. Every `await` is treated as
  atomic; there is no concurrency.
- Timestamps (`createdAt`, `updatedAt`) are left out. The newest-first
  ordering they give is the parameter `order`.
- MongoDB full-text search is left out; it is the oracle `textMatch`.
- JWT signing, verification and expiry are left out; they are the oracle
  `verify`. Token issuing lives in the auth routes, which are not part of
  this model.
- The OAuth exchange with Google is left out. The strategy receives the
  profile as data.
- `populate` of the author is left out. A blog whose author document no
  longer exists would make the read route fail with 500. Blogs are assumed
  to have existing authors.
- ObjectId casting of route parameters is left out. In the blog and user
  routes a malformed `:id` makes `findById` throw, and the `catch` answers
  500; here such an id is only ever not found (404). The auth gates do
  model the cast of the token's subject (`Base.IsObjectId`, 24 hexadecimal
  digits), and the public listing that of its `author` parameter; the other
  string form some driver versions accept is left out. Stored ids are
  taken to be in the lower-case form an ObjectId prints as. The listing
  lowers the cast author, so an upper-case `?author=` matches as in the
  code; the auth gates and the `:id` routes compare ids as written, so an
  upper-case id that the cast would find is not found there.
- Request bodies are left out where fields are not strings, booleans or
  arrays. The model's `Field` covers absent, `null` and a value of the
  expected type.
- Query parameters are modelled as single strings (`ListQuery`). A repeated
  key such as `?tag=a&tag=b` arrives as an array: `tag.toLowerCase()` then
  throws and the listing answers 500, and arrays for the other parameters
  reach `parseInt` or the query in forms the model does not cover.
- `upload.ts` is not part of this model, and neither are the image-upload
  handler or the server and app setup. The client's `formatDate` and
  `formatBlogContent` are left out as well.
- Error-reply keys are left out: the 401 of the read route sends `message`
  rather than `error`, and the model keeps the text only.
- `Text.Lower`: models `toLowerCase` on ASCII letters only. Unicode case
  mapping of other letters is left out.
- `QueryParams.IntParam`: the model uses unbounded integers. JavaScript's
  `parseInt` loses precision above 2^53, and that rounding is not modelled.
- `BlogListing.Window`: a negative `limit` returns its magnitude, and a
  negative `skip` is refused as an error. Both follow MongoDB's behaviour
  for `skip` and `limit`, which lives outside this repository.
- `BlogRoutes.Merge`: a body with `"isPublic": null` is stored and
  returned as `null` by the code, since the Boolean cast lets `null`
  through; the model, and so `BlogRoutes.UpdateBlog`, stores `false`.
  Every reader of the flag (the `isPublic: true` filter, the read route's
  `!blog.isPublic`, the client's checkbox) treats the two alike, so only
  the JSON the update route returns differs.
- `Passport.GoogleLogin`: the lookup by e-mail uses the normalised
  (trimmed, lower-case) address, as the e-mail field's setters do on
  queries.
- `UserSchema.FindFirst`: lookups scan the collection in its natural order.
  Duplicate-free indexes make the order matter only for ill-formed
  collections.
- `ClientApp.Navigate`: the asynchronous loads a page starts are returned
  as an effect and not executed. The later filling of the edit form
  (`loadBlogForEdit`) is left out.
