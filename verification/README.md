# Blog post publishing, modelled in Dafny

A model of the core of a small Django blog: the `Post` entity with its one
state transition (`publish`), its string rendering and the cascade that
deletes an author's posts, and the public listing query of `post_list`,
which shows the posts whose publication instant has passed, most recent
first.

- `wrappers.dfy`: module `Wrappers`. `Option` stands for the nullable
  `published_date` column.
- `seqs.dfy`: module `Seqs`. `Filter` keeps some rows of a table in their
  original order. Both the listing filter and the cascade delete use it.
  `FilterUnique` shows that the contract of `Filter` determines its result.
- `models.dfy`: module `Models`. Holds `Post`, `NewPost` (field defaults),
  `Publish`, `Str`, `DeleteAuthor` and the title bound `ValidPost`.
- `views.dfy`: module `Views`. Holds the filter `Visible`, the newest-first
  sort and `Listing`, with lemmas on membership, order, permutation,
  clock monotonicity, publish-then-list and cascade-then-list.
- `scenarios.dfy`: module `Scenarios`. Holds the concrete clock values of
  `tests/test_models.py` and `tests/test_views.py`.

Modelling choices:

- Timestamps are integers, ordered like the instants they stand for. The
  scenarios write dates as `YYYYMMDD` (2020-03-01 is `20200301`).
- The clock (`timezone.now()`) is an explicit `now` argument of `NewPost`,
  `Publish` and `Listing`. It replaces the patching of `timezone.now` in
  the repository's tests.
- An author is an opaque `UserId`. The post table is a `seq<Post>`.
- `order_by('-published_date')` gives no order among posts with the same
  publication instant. The contract of `Listing` holds for every such
  order: the result is newest first and holds exactly the visible posts,
  each as often as the table does. `ListingUpToTies` proves that this
  fixes the sequence of instants. The concrete sort (`SortNewestFirst`, an
  insertion sort) keeps tied posts in their table order (`SortStable`,
  `ListingTiesInTableOrder`). That tie-break is the model's own choice.
- `Filter` is applied to rows that can occur more than once, so its
  contract counts occurrences with multisets, not just set membership.

## Test expectation that disagrees with the query

At the clock 3020-04-01, `tests/test_views.py:113-119` expects the listing
`[post, past_post, future_post]`. Their instants are 2020-03-01,
2019-04-01 and 2120-04-01. That list is not newest first. The query at
`blog/views.py:11` orders by `-published_date`, so it yields 2120, 2020,
2019. The model follows the query. `Scenarios.ListingIn3020` proves that
the listing is `[Future, Current, Past]` and is not the list the test
expects.

## Model

| member | source | states |
|---|---|---|
| Models.NewPost | blog/models.py:14-17 | A new post keeps the given author, title and text. `created_date` falls back to the clock when not given. The post is a draft exactly when no `published_date` is given. It is valid exactly when the title has at most 200 characters. |
| Models.Publish | blog/models.py:19-22 | `publish` sets `published_date` to exactly the clock value, so the post is no longer a draft. Author, title, text and `created_date` are unchanged, and so is validity. |
| Models.PublishTwice | blog/models.py:21 | Publishing twice keeps only the second clock value. Publishing twice at the same clock equals publishing once. |
| Models.Str | blog/models.py:24-26 | A post renders as exactly its title. The rendering fits the declared 200-character bound exactly when the post is valid. |
| Models.DeleteAuthor | blog/models.py:10-13 | Deleting a user cascades. No post of that user remains. Every post of another author stays, as often as it occurred. The survivors keep their order (they form a subsequence of the table). |
| Models.DeleteAuthorUnique | blog/models.py:10-13 | Any subsequence of the table with exactly that content is the result of `DeleteAuthor`, so the cascade's contract determines it. |
| Models.DeleteAuthorIdempotent | blog/models.py:10-13 | Deleting the same author a second time changes nothing. |
| Models.DeleteAuthorKeepsValid | blog/models.py:14 | If every post respects the title bound, every post that survives the cascade does too. |
| Views.SortNewestFirst | blog/views.py:11 | The ordering step returns a permutation of its input. When every input post is published, the result is in non-increasing order of `published_date`. |
| Views.Listing | blog/views.py:9-12 | Every listed post is visible: it has a `published_date` at or before the clock. The result is in non-increasing order of `published_date`. A post occurs in it exactly as often as in the table if it is visible, and not at all otherwise. |
| Views.DraftNeverListed | blog/views.py:11 | A post with no `published_date` is absent from the listing at every clock value. |
| Views.ListedIff | blog/views.py:11 | A post is listed iff it is in the table, has a `published_date`, and that date is at or before the clock. The bound is inclusive. |
| Views.ListingMonotone | blog/views.py:11 | Every post listed at clock `now1` is listed at any `now2 >= now1`, with at least the same multiplicity. |
| Views.ListingAtEarlierClock | blog/views.py:11 | For `now1 <= now2`, the listing at `now1` is the listing at `now2` with the posts published after `now1` removed. The rest keep their order (ties in table order, the model's tie-break). |
| Views.PublishThenListed | blog/views.py:11 | After the post at position `i` is published at clock `t`, it is in the listing at clock `now` iff `t <= now`. |
| Views.ListingAfterDeleteAuthor | blog/models.py:10-13 | Listing after deleting an author equals deleting that author's posts from the listing. The other posts keep their order (ties in table order, the model's tie-break). |
| Views.SortStable | blog/views.py:11 | The model's tie-break: the posts published at any one instant leave the sort in the order they entered it. |
| Views.ListingTiesInTableOrder | blog/views.py:11 | In the listing, the posts published at one instant appear in table order when that instant is at or before the clock, and not at all otherwise. The order among ties is the model's choice, since `order_by` leaves it open. |
| Views.ListingUpToTies | blog/views.py:11 | Take any sequence that is newest first and holds exactly the visible posts. It has the same publication instants, position by position, as `Listing`. So only ties are left open. |
| Scenarios.PostLifecycle | tests/test_models.py:15-44 | A post created with no publication time is a draft whose `created_date` is the clock. It renders as "Test". After `publish` at 2020-04-01 it carries exactly that instant. |
| Scenarios.ListingOnNewYear2020 | tests/test_views.py:76-87 | At 2020-01-01, the posts dated 2020-03-01, 2019-04-01 and 2120-04-01 list as the 2019 post alone. |
| Scenarios.ListingOnApril2020 | tests/test_views.py:88-103 | At 2020-04-01 the listing is the 2020 post, then the 2019 post. |
| Scenarios.ListingIn3020 | tests/test_views.py:104-119 | At 3020-04-01 the listing is 2120, 2020, 2019. This is not the order the test expects. |
| Scenarios.DraftThenPublished | blog/models.py:17 | A freshly created draft is not listed at any clock. Published at `t`, it is listed at every clock from `t` on. |

## Left out

- Persistence: `save()` at blog/models.py:22, id assignment, durability and
  the ORM's query evaluation are framework services. Posts are an in-memory
  sequence, and `Publish` returns the updated post.
- The database's enforcement of `max_length=200` is not modelled. The bound
  is the predicate `ValidPost`, and nothing truncates.
- The `NotFound` outcome of publishing an unknown post id is not modelled.
  Looking up a post by id belongs to the framework. `publish` in
  blog/models.py acts on a post that was already loaded.
- `render`, the `posts` context key, templates, HTTP status codes, URL
  reversing and the HTML checks at tests/test_views.py:120-125 are
  framework wiring. That last block also reads the real clock, which the
  model does not have.
- The `User` model, authentication and the admin are not modelled. An author
  is an opaque id.
- Time zones and `datetime` construction are not modelled. Instants are
  integers.
- Concurrency between publish and listing requests is not modelled. Each
  operation is a pure function of its arguments.
- The listing scenarios use the table in creation order. The database may
  return rows in any order, and the model does not prove every order
  separately. `ListingUpToTies` shows that the listing's instants do not
  depend on the input order. In these scenarios each instant belongs to a
  single post.
