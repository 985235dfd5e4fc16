/**
 The concrete situations of tests/test_models.py and tests/test_views.py,
 with the clock as an argument instead of a patched `timezone.now`.
 Instants are written as calendar dates `YYYYMMDD`, which orders them as
 the dates they stand for.
 */
module Scenarios {
  import opened Wrappers
  import opened Seqs
  import opened Models
  import opened Views

  const Author := UserId(1)

  /** The three posts of the listing test, each created and published on the same day. */
  const Current := Post(Author, "Test", "superText", 20200301, Some(20200301))
  const Past := Post(Author, "past_est", "superText", 20190401, Some(20190401))
  const Future := Post(Author, "future_test", "superText", 21200401, Some(21200401))

  /** The table in creation order. */
  const Table := [Current, Past, Future]

  /**
   A post created without a publication instant is a draft created at the
   clock, renders as its title, and after `publish` at 2020-04-01 carries
   exactly that instant.
   */
  lemma PostLifecycle(created: int)
    ensures IsDraft(NewPost(Author, "Test", "superText", None, None, created))
    ensures NewPost(Author, "Test", "superText", None, None, created).createdDate == created
    ensures Str(NewPost(Author, "Test", "superText", None, None, created)) == "Test"
    ensures Publish(NewPost(Author, "Test", "superText", None, None, created), 20200401).publishedDate
              == Some(20200401)
  {
  }

  /** Before 2020-03-01 only the 2019 post is visible. */
  lemma ListingOnNewYear2020()
    ensures Listing(Table, 20200101) == [Past]
  {
    var visible := VisibleAt(20200101);
    assert Table[1..] == [Past, Future] && Table[1..][1..] == [Future];
    assert Filter([Future], visible) == [];
    assert Filter([Past, Future], visible) == [Past];
    assert Filter(Table, visible) == [Past];
    assert SortNewestFirst([Past]) == [Past];
  }

  /** On 2020-04-01 the 2020 post comes before the 2019 one; the 2120 post is hidden. */
  lemma ListingOnApril2020()
    ensures Listing(Table, 20200401) == [Current, Past]
  {
    var visible := VisibleAt(20200401);
    assert Table[1..] == [Past, Future] && Table[1..][1..] == [Future];
    assert Filter([Future], visible) == [];
    assert Filter([Past, Future], visible) == [Past];
    assert Filter(Table, visible) == [Current, Past];
    assert SortNewestFirst([Past]) == [Past];
    assert [Current, Past][1..] == [Past];
    assert InsertNewestFirst(Current, [Past]) == [Current, Past];
  }

  /**
   On 3020-04-01 all three posts are visible and the query orders them newest
   first: 2120, 2020, 2019. The expectation written at tests/test_views.py:113-119,
   `[post, past_post, future_post]` (2020, 2019, 2120), is not what
   `order_by('-published_date')` yields; the model follows the query.
   */
  lemma ListingIn3020()
    ensures Listing(Table, 30200401) == [Future, Current, Past]
    ensures Listing(Table, 30200401) != [Current, Past, Future]
  {
    AllVisibleIn3020();
    SortTable();
    assert Future.publishedDate != Current.publishedDate;
  }

  /** On 3020-04-01 the filter keeps the whole table. */
  lemma AllVisibleIn3020()
    ensures Filter(Table, VisibleAt(30200401)) == Table
  {
    var visible := VisibleAt(30200401);
    assert Table[1..] == [Past, Future] && Table[1..][1..] == [Future];
    assert Filter([Future], visible) == [Future];
    assert Filter([Past, Future], visible) == [Past, Future];
  }

  /** The insertion sort puts the table in the order 2120, 2020, 2019. */
  lemma SortTable()
    ensures SortNewestFirst(Table) == [Future, Current, Past]
  {
    assert Table[1..] == [Past, Future] && Table[1..][1..] == [Future];
    assert SortNewestFirst([Future]) == [Future];
    assert InsertNewestFirst(Past, [Future]) == [Future, Past] by {
      assert InsertNewestFirst(Past, []) == [Past];
    }
    assert SortNewestFirst([Past, Future]) == [Future, Past];
    assert InsertNewestFirst(Current, [Future, Past]) == [Future, Current, Past] by {
      assert [Future, Past][1..] == [Past];
      assert InsertNewestFirst(Current, [Past]) == [Current, Past];
    }
  }

  /**
   A new draft stays off the listing until it is published; once published
   at clock `t` it is listed at every clock from `t` on.
   */
  lemma DraftThenPublished(t: int, now: int)
    ensures NewPost(Author, "draft", "text", None, None, t) !in
              Listing(Table + [NewPost(Author, "draft", "text", None, None, t)], now)
    ensures t <= now ==>
              Publish(NewPost(Author, "draft", "text", None, None, t), t) in
              Listing(Table + [Publish(NewPost(Author, "draft", "text", None, None, t), t)], now)
  {
  }
}
