# Articles and profiles of a publishing back end, in Dafny

This project models the two services of a small publishing back end (a
NestJS/TypeORM application): the article service, which lists, creates,
looks up, updates and deletes articles, and the profile service, which
shows user profiles and maintains the directed "follows" relation between
users. The storage is abstracted as plain tables: the articles table is a
sequence of rows, the users table a map from username to user, and the
follow table a sequence of (followerId, followingId) rows.

- `common.dfy` — `Option`, `Result`, the failures the services raise and the
  HTTP status each is reported with.
- `entities.dfy` — the user and article rows, the comma-joined stored form of
  a tag list, and substring containment (what `LIKE '%tag%'` matches).
- `article_query.dfy` — the listing (`findAll`) as a pure function: tag
  filter, author filter, newest-first order, then offset and limit.
- `articles.dfy` — the article lifecycle: slugs, lookup by slug, the
  not-found-then-not-the-author guard, and a class `ArticleService` whose
  methods change the articles table.
- `profiles.dfy` — profile lookup, the follow and unfollow table operations,
  the response without email, and a class `ProfileService` whose methods
  change the follow table.

Behaviours of the code that the model keeps as they are:

- Listing by an author name that no user has: the code dereferences the
  missing lookup result and the request fails. The model returns
  `Err(AuthorNotFound)`, reported as an internal server error; it does not
  return an empty list.
- The tag filter is substring search on the stored comma-joined tag string,
  not exact tag membership. `Entities.SubstringIsNotTagMembership` gives two
  inputs where the two differ.
- A user following or unfollowing themselves gets an error tagged with HTTP
  status 404 (not found), not an invalid-operation status of its own.
- Looking up an unknown slug gives no article, not an error. The response
  then wraps nothing (`BuildArticleResponse` of `None`).
- The slug suffix is the base-36 string of a random float. The model treats
  the suffix as an arbitrary string.

## Model

| member | source | states |
|---|---|---|
| `Common.Status` | src/article/article.service.ts:70-75 | not-found guards report 404 and the ownership guard 403 (here and at lines 81-86); the self-follow guard reports 404 too (src/profile/profile.service.ts lines 39-41 and 64-66); uncaught failures report 500 (the unknown-author dereference at line 37 and the title-less slug at line 88) |
| `Entities.ContainsIffOccurs` | src/article/article.service.ts:26-30 | the `LIKE '%tag%'` match holds exactly when the tag occurs at some position of the stored string |
| `Entities.OccursIsContained` | src/article/article.service.ts:26-30 | an occurrence at any position is matched |
| `Entities.ContainedOccurs` | src/article/article.service.ts:26-30 | a match gives a position where the tag occurs |
| `Entities.ContainsInContext` | src/article/article.service.ts:26-30 | text around a matching string keeps the match |
| `Entities.MemberTagIsContained` | src/article/article.service.ts:26-30 | every tag of an article's list matches that article's stored tag string |
| `Entities.SubstringIsNotTagMembership` | src/seeds/1660211112838-SeedDb.ts:15 | for the stored `'coffe,dragons'`, the filter also accepts `drag` and `e,d`, which are not tags |
| `ArticleQuery.Select` | src/article/article.service.ts:26-39 | the kept articles come from the table and pass the filters; each passing article is kept as often as the table holds it, every other one is dropped |
| `ArticleQuery.CriteriaOf` | src/article/article.service.ts:26-39 | a tag or author filter is applied exactly when its parameter is truthy, with the query's tag and the named user's id |
| `ArticleQuery.PrependNewest` | src/article/article.service.ts:41 | an article no older than every article of a newest-first list can lead it |
| `ArticleQuery.InsertByDate` | src/article/article.service.ts:41 | inserting into a newest-first list keeps it newest first and adds exactly that article |
| `ArticleQuery.SortNewestFirst` | src/article/article.service.ts:41 | the result is ordered by `createdAt`, newest first, and is a permutation of the input |
| `ArticleQuery.Window` | src/article/article.service.ts:43-49 | a truthy offset skips that many articles and a truthy limit caps the count; a falsy one leaves its side unrestricted; order is kept |
| `ArticleQuery.FindAll` | src/article/article.service.ts:21-55 | fails exactly when a truthy author names no user; otherwise the page is newest first, drawn from the table, every article matches the tag and has the author's id, and a truthy limit bounds its size |
| `ArticleQuery.ListingIsComplete` | src/article/article.service.ts:21-55 | without limit or offset the page holds every matching article of the table, with its multiplicity, and nothing else |
| `ArticleQuery.CutNewestFirst` | src/article/article.service.ts:41-49 | cutting a newest-first list leaves all of the front no older than all of the back |
| `ArticleQuery.OffsetSkipsNewest` | src/article/article.service.ts:41-49 | a truthy offset skips the newest matching articles and shows the rest |
| `ArticleQuery.FrontIsNewest` | src/article/article.service.ts:41-45 | the first articles of a newest-first ordering are no older than any matching article left out |
| `ArticleQuery.LimitKeepsNewest` | src/article/article.service.ts:41-45 | a truthy limit shows the newest matching articles, up to the limit |
| `ArticleQuery.HeadIsNewest` | src/article/article.service.ts:41 | the first article of a newest-first list is no older than any of it |
| `ArticleQuery.FindAllPage` | src/article/article.service.ts:21-55 | only unfolds `FindAll`: a listing whose author resolves succeeds, and its page is the window of the ordered matches (a proof step for the pagination lemmas) |
| `ArticleQuery.WindowIsSlice` | src/article/article.service.ts:43-49 | with both parameters truthy, the window is the slice after the first `offset` articles, at most `limit` long |
| `ArticleQuery.OffsetThenLimit` | src/article/article.service.ts:41-49 | with a truthy offset and a truthy limit, the page is the newest-first matching articles after the first `offset`, at most `limit` of them; past the end it is empty |
| `Articles.GetSlug` | src/article/article.service.ts:100-102 | a slug is the slugified title, a hyphen, then the suffix |
| `Articles.SuffixDecidesSlug` | src/article/article.service.ts:100-102 | two slugs of one title are equal exactly when their suffixes are |
| `Articles.BuildArticleResponse` | src/article/article.service.ts:96-98 | the response wraps the article, or the absent lookup result, unchanged |
| `Articles.SlugIndex` | src/article/article.service.ts:92-94 | finds the first row with the slug, or reports that no row has it |
| `Articles.FindBySlug` | src/article/article.service.ts:92-94 | returns the first article with the slug, or nothing exactly when no article has it |
| `Articles.Authorize` | src/article/article.service.ts:69-75 | not found exactly when no article has the slug; otherwise forbidden exactly when the found article's author is not the caller; it passes exactly when the found article's author is the caller, giving that article |
| `Articles.WithoutSlug` | src/article/article.service.ts:76 | deleting by slug keeps exactly the rows with another slug |
| `Articles.WithoutSlugCounts` | src/article/article.service.ts:76 | every other row is kept as often as the table had it |
| `Articles.WithoutSlugShrinks` | src/article/article.service.ts:76 | the table shrinks exactly when some row has the slug |
| `Articles.WithoutSlugKeepsDistinctIds` | src/article/article.service.ts:76 | deleting rows keeps ids unique |
| `Articles.Updated` | src/article/article.service.ts:87-88 | each field present in the request overwrites the article's, the slug is regenerated from the resulting title, and id, author and date are kept |
| `Articles.UpdatedAsWritten` | src/article/article.service.ts:87-88 | as written, the update fails exactly when the request has no title |
| `Articles.UpdateAgreesWithTitle` | src/article/article.service.ts:87-88 | with a title in the request, the written and the intended update agree |
| `Articles.BodyOnlyUpdateFailsAsWritten` | src/article/article.service.ts:88 | a body-only request fails as written but is a valid intended update |
| `Articles.UpdateRetiresOldSlug` | src/article/article.service.ts:87-89 | once the only article with a slug gets a new slug, the old slug resolves to nothing |
| `Articles.CreatedArticleIsFound` | src/article/article.service.ts:57-66 | a new article whose slug is fresh is what that slug resolves to |
| `Articles.DeleteRemovesEveryRowWithTheSlug` | src/article/article.service.ts:68-77 | after the guard passes, every row with the slug goes, whoever is its author |
| `Articles.ArticleService.constructor` | src/article/article.service.ts:14-19 | the service starts with an empty table and unique ids |
| `Articles.ArticleService.CreateArticle` | src/article/article.service.ts:57-66 | appends one article with a fresh id, the caller as author, the request's tag list or an empty one, the slug from the title, and `now` as its creation time |
| `Articles.ArticleService.DeleteBySlugId` | src/article/article.service.ts:68-77 | on a failed guard, returns the guard's error and changes nothing; otherwise removes exactly the rows with the slug and returns how many (at least one) |
| `Articles.ArticleService.UpdateBySlugId` | src/article/article.service.ts:79-90 | on a failed guard, returns the guard's error and changes nothing; otherwise replaces the first article with the slug by its update (the slug taken from the resulting title, as under Findings) and leaves every other row as it was |
| `Profiles.ProfileOf` | src/profile/profile.service.ts:27-30 | a profile carries the user's fields and the given following flag |
| `Profiles.GetProfile` | src/profile/profile.service.ts:16-31 | not found exactly for an unknown username; otherwise the user's fields, with `following` true exactly when the row (viewer, user) is in the follow table |
| `Profiles.Followed` | src/profile/profile.service.ts:43-53 | afterwards the row is present, no other row changes, a row already present adds nothing, and a duplicate-free table stays duplicate-free |
| `Profiles.Unfollowed` | src/profile/profile.service.ts:68-71 | afterwards the row is absent, and every other row is kept as often as before |
| `Profiles.FollowIsIdempotent` | src/profile/profile.service.ts:48-53 | following twice is following once |
| `Profiles.UnfollowIsIdempotent` | src/profile/profile.service.ts:68-71 | unfollowing twice is unfollowing once |
| `Profiles.UnfollowAbsentIsNoOp` | src/profile/profile.service.ts:68-71 | deleting an absent row leaves the table as it was |
| `Profiles.UnfollowKeepsNoDuplicates` | src/profile/profile.service.ts:68-71 | deleting rows keeps the table duplicate-free |
| `Profiles.FollowThenProfileIsFollowing` | src/profile/profile.service.ts:22-29 | after a follow the viewer's profile of that user reads following; after an unfollow it does not |
| `Profiles.BuildProfileResponse` | src/profile/profile.service.ts:75-78 | the response has no email, and restoring the email gives back the profile |
| `Profiles.ProfileService.constructor` | src/profile/profile.service.ts:11-14 | the service starts over a username-keyed users table and an empty follow table |
| `Profiles.ProfileService.FollowProfile` | src/profile/profile.service.ts:33-56 | unknown name: not found; then self: the self-follow error; both change nothing; otherwise inserts the row if missing and returns the profile with following true; keeps the table duplicate-free and without self-follows |
| `Profiles.ProfileService.UnfollowProfile` | src/profile/profile.service.ts:58-73 | the same two guards in the same order; otherwise deletes the row and returns the profile with following false; keeps the table duplicate-free and without self-follows |

## Left out

- The feed and favorites: the article routes call a feed query and favorite/unfavorite operations, but the article service defines none of them, so the model has no favorites counter, favorite relation or feed.
- Controllers, routing, the authentication guard, request validation and module wiring: they hold no logic of their own.
- The seed migration and the ORM seed configuration: database setup only.
- The slug library's transliteration: `slugify` is a function-typed field of `ArticleService` that the model never interprets.
- The random suffix: built from `Math.random()` and a float-to-base-36 conversion. It is a parameter of the create and update methods, with no length or character set assumed.
- SQL details of the tag filter: `%` and `_` inside a tag are matched literally, and case sensitivity is assumed.
- Ties in the newest-first order: SQL leaves their order open. The model keeps table order, which is one of the orders SQL may return.
- Articles.FindBySlug: the slug lookup has no ordering, so when several rows share a slug the row it returns is unspecified. The model always takes the first in table order, and that choice decides which author `Authorize` checks and which row `UpdateBySlugId` rewrites.
- ArticleQuery.FindAll: `articlesCount` is the number of filtered articles. The model states nothing relating it to the page, because that depends on the ORM's count query.
- Query parameters arrive as strings in HTTP. The model takes the tag and author as optional strings and the limit and offset as optional naturals. An absent value, an empty string and the number 0 are falsy; the string `"0"` is not modelled.
- Anonymous viewers: the viewer is always a user id. The listing's viewer id is unused by the code and is not a parameter of the model.
- Timestamps: `createdAt` is the `now` parameter of `CreateArticle`. `updatedAt` is not modelled: the article entity file is not part of this model, and the article and user rows are reconstructed from the services.
- The author relation of an article is its `authorId`. The joined author data of a listing is not modelled.
- `Object.assign` copying properties beyond the request's declared fields, or explicit `undefined` values, is not modelled.
- Slug uniqueness: the code never checks for collisions and the model does not either. A storage-level unique constraint is not modelled.
- The delete result is the number of removed rows.
- Asynchronous execution, transactions and concurrent requests: each operation runs alone and to completion.
- Profiles.BuildProfileResponse: the code deletes `email` from the profile object in place. The model returns a profile without email. The object is created by the same request and nothing else holds it.
- Users are only read. The user row has no credential: the model assumes the user entity keeps its password column out of default selections, which the user entity file (not part of this model) would decide. If it were selected, the profile spread would carry it, since only `email` is removed.

## Findings

| source | as written | input that shows it | evidently intended | confidence | as-written member | corrected member |
|---|---|---|---|---|---|---|
| src/article/article.service.ts:88 | the new slug is computed from `updateArticleDto.title` | an update request without a `title`, for example one that only changes `body` | the slug is computed from the merged article's title | medium, not executed: it rests on the slug library rejecting a value that is not a string | `Articles.UpdatedAsWritten`, `Articles.BodyOnlyUpdateFailsAsWritten` | `Articles.Updated` |
