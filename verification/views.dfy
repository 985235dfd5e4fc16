/**
 The public listing of `post_list` (blog/views.py): the posts whose
 publication instant is at or before the clock, most recently published
 first. The clock is an explicit `now` argument instead of `timezone.now()`.

 The query's `order_by('-published_date')` gives no order among posts that
 share a publication instant. `Listing` is specified by properties that hold
 for any such order (the result is sorted newest first and is a permutation
 of the visible posts); the concrete sort below keeps equal-instant posts in
 their input order, which is this model's own choice of tie-break.
 */
module Views {
  import opened Wrappers
  import opened Seqs
  import opened Models

  /**
   The filter `published_date__lte=now`. A draft is never visible: in SQL a
   comparison with NULL is not true. The bound is inclusive.
   */
  predicate Visible(p: Post, now: int) {
    match p.publishedDate
    case None => false
    case Some(d) => d <= now
  }

  /** `Visible` at a fixed clock, as a condition to filter by. */
  function VisibleAt(now: int): Post -> bool {
    (p: Post) => Visible(p, now)
  }

  /** Every post of `s` has a publication instant. */
  predicate AllPublished(s: seq<Post>) {
    forall p :: p in s ==> p.publishedDate.Some?
  }

  /** Both posts are published, and `a` no later than `b`. */
  predicate PublishedNoLater(a: Post, b: Post) {
    a.publishedDate.Some? && b.publishedDate.Some? &&
    a.publishedDate.value <= b.publishedDate.value
  }

  /**
   Publication instants never increase along `s`, one neighbour at a time:
   most recent first. `NewestFirstPairwise` gives the same for any two
   positions.
   */
  predicate NewestFirst(s: seq<Post>) {
    |s| <= 1 || (PublishedNoLater(s[1], s[0]) && NewestFirst(s[1..]))
  }

  /** In a newest-first sequence, a later position is never published after an earlier one. */
  lemma {:induction false} NewestFirstPairwise(s: seq<Post>)
    requires NewestFirst(s)
    ensures forall i, j :: 0 <= i < j < |s| ==> PublishedNoLater(s[j], s[i])
  {
    if |s| > 1 {
      NewestFirstPairwise(s[1..]);
      forall i, j | 0 <= i < j < |s|
        ensures PublishedNoLater(s[j], s[i])
      {
        assert s[j] == s[1..][j - 1];
        if i > 0 {
          assert s[i] == s[1..][i - 1];
        } else if j > 1 {
          assert PublishedNoLater(s[1..][j - 1], s[1..][0]);
        }
      }
    }
  }

  /**
   Puts `p` into `s`, in front of the first post published at the same
   instant as `p` or earlier.
   */
  function InsertNewestFirst(p: Post, s: seq<Post>): (r: seq<Post>)
    ensures multiset(r) == multiset(s) + multiset{p}
    ensures |r| == |s| + 1
    ensures r[0] == p || (|s| > 0 && r[0] == s[0])
    ensures p.publishedDate.Some? && AllPublished(s) && NewestFirst(s) ==>
              AllPublished(r) && NewestFirst(r)
  {
    if |s| == 0 || PublishedNoLater(s[0], p) then [p] + s
    else
      assert s == [s[0]] + s[1..];
      assert s[0] in s;
      var r := [s[0]] + InsertNewestFirst(p, s[1..]);
      assert r[1..] == InsertNewestFirst(p, s[1..]);
      r
  }

  /**
   Orders posts newest first by insertion. Posts published at the same
   instant keep their input order (`SortStable`).
   */
  function SortNewestFirst(s: seq<Post>): (r: seq<Post>)
    ensures multiset(r) == multiset(s)
    ensures AllPublished(s) ==> AllPublished(r) && NewestFirst(r)
  {
    if |s| == 0 then []
    else
      assert s == [s[0]] + s[1..];
      InsertNewestFirst(s[0], SortNewestFirst(s[1..]))
  }

  /**
   `post_list`'s query: every visible post, newest first. The result holds
   exactly the visible posts of the table, each as often as the table holds
   it, and no other post.
   */
  function Listing(posts: seq<Post>, now: int): (r: seq<Post>)
    ensures forall i :: 0 <= i < |r| ==> Visible(r[i], now)
    ensures AllPublished(r) && NewestFirst(r)
    ensures forall i, j :: 0 <= i < j < |r| ==> PublishedNoLater(r[j], r[i])
    ensures forall p :: multiset(r)[p] == if Visible(p, now) then multiset(posts)[p] else 0
    ensures forall p :: p in r <==> p in posts && Visible(p, now)
  {
    var f := Filter(posts, VisibleAt(now));
    var r := SortNewestFirst(f);
    VisiblePermutation(posts, now, f, r);
    NewestFirstPairwise(r);
    r
  }

  /**
   A permutation `r` of the visible posts `f` of a table holds only visible,
   hence published, posts, each as often as the table does.
   */
  lemma VisiblePermutation(posts: seq<Post>, now: int, f: seq<Post>, r: seq<Post>)
    requires forall p :: multiset(f)[p] == if Visible(p, now) then multiset(posts)[p] else 0
    requires multiset(r) == multiset(f)
    ensures AllPublished(f) && AllPublished(r)
    ensures forall i :: 0 <= i < |r| ==> Visible(r[i], now)
    ensures forall p :: multiset(r)[p] == if Visible(p, now) then multiset(posts)[p] else 0
    ensures forall p :: p in r <==> p in posts && Visible(p, now)
  {
    assert forall i :: 0 <= i < |r| ==> r[i] in multiset(r);
    assert forall p :: p in f ==> p in multiset(f);
  }

  /** A draft is absent from the listing at every clock value. */
  lemma DraftNeverListed(posts: seq<Post>, now: int, p: Post)
    requires IsDraft(p)
    ensures p !in Listing(posts, now)
  {
  }

  /** A post is listed iff it is in the table, published, and published at or before the clock. */
  lemma ListedIff(posts: seq<Post>, now: int, p: Post)
    ensures p in Listing(posts, now) <==>
              p in posts && p.publishedDate.Some? && p.publishedDate.value <= now
  {
  }

  /**
   Filtering a newest-first sequence leaves it newest first, and what comes
   first after filtering is no newer than what came first before.
   */
  lemma {:induction false} FilterKeepsNewestFirst(s: seq<Post>, keep: Post -> bool)
    requires NewestFirst(s)
    ensures NewestFirst(Filter(s, keep))
    ensures |Filter(s, keep)| > 0 ==>
              Filter(s, keep)[0] == s[0] || PublishedNoLater(Filter(s, keep)[0], s[0])
    decreases |s|
  {
    if |s| > 0 {
      var tail := s[1..];
      assert s == [s[0]] + tail;
      FilterKeepsNewestFirst(tail, keep);
      var f := Filter(tail, keep);
      FilterCons(s[0], tail, keep);
      if keep(s[0]) {
        assert ([s[0]] + f)[1..] == f;
      }
    }
  }

  /** `FilterInsert` when `p` goes to the front of `s`. */
  lemma FilterInsertFront(p: Post, s: seq<Post>, keep: Post -> bool)
    requires NewestFirst(s)
    requires |s| == 0 || PublishedNoLater(s[0], p)
    ensures Filter(InsertNewestFirst(p, s), keep) ==
              if keep(p) then InsertNewestFirst(p, Filter(s, keep)) else Filter(s, keep)
  {
    assert InsertNewestFirst(p, s) == [p] + s;
    FilterCons(p, s, keep);
    FilterKeepsNewestFirst(s, keep);
  }

  /** `FilterInsert` when `p` goes behind the head of `s`. */
  lemma {:induction false} FilterInsertBehind(p: Post, s: seq<Post>, keep: Post -> bool)
    requires NewestFirst(s)
    requires |s| > 0 && !PublishedNoLater(s[0], p)
    ensures Filter(InsertNewestFirst(p, s), keep) ==
              if keep(p) then InsertNewestFirst(p, Filter(s, keep)) else Filter(s, keep)
    decreases |s|, 0
  {
    FilterInsert(p, s[1..], keep);
    var s0, ft := s[0], Filter(s[1..], keep);
    var it := InsertNewestFirst(p, s[1..]);
    assert InsertNewestFirst(p, s) == [s0] + it;
    FilterCons(s0, it, keep);
    assert Filter(s, keep) == if keep(s0) then [s0] + ft else ft;
    if keep(s0) && keep(p) {
      assert ([s0] + ft)[1..] == ft;
      assert InsertNewestFirst(p, [s0] + ft) == [s0] + InsertNewestFirst(p, ft);
    }
  }

  /** Inserting into a newest-first sequence and then filtering is filtering and then inserting. */
  lemma {:induction false} FilterInsert(p: Post, s: seq<Post>, keep: Post -> bool)
    requires NewestFirst(s)
    ensures Filter(InsertNewestFirst(p, s), keep) ==
              if keep(p) then InsertNewestFirst(p, Filter(s, keep)) else Filter(s, keep)
    decreases |s|, 1
  {
    if |s| == 0 || PublishedNoLater(s[0], p) {
      FilterInsertFront(p, s, keep);
    } else {
      FilterInsertBehind(p, s, keep);
    }
  }

  /** Filtering commutes with the stable newest-first sort of published posts. */
  lemma {:induction false} FilterSort(s: seq<Post>, keep: Post -> bool)
    requires AllPublished(s)
    ensures Filter(SortNewestFirst(s), keep) == SortNewestFirst(Filter(s, keep))
    decreases |s|
  {
    if |s| > 0 {
      assert s == [s[0]] + s[1..];
      FilterCons(s[0], s[1..], keep);
      FilterSort(s[1..], keep);
      FilterInsert(s[0], SortNewestFirst(s[1..]), keep);
    }
  }

  /** The posts published at instant `d`, as a condition to filter by. */
  function PublishedAt(d: int): Post -> bool {
    (p: Post) => p.publishedDate == Some(d)
  }

  /** Posts that all share one publication instant are already sorted: the sort leaves them as they are. */
  lemma {:induction false} SortSameInstant(s: seq<Post>, d: int)
    requires forall i :: 0 <= i < |s| ==> s[i].publishedDate == Some(d)
    ensures SortNewestFirst(s) == s
    decreases |s|
  {
    if |s| > 0 {
      assert s == [s[0]] + s[1..];
      SortSameInstant(s[1..], d);
    }
  }

  /**
   The sort is stable: the posts published at any one instant come out in
   the order they went in.
   */
  lemma SortStable(s: seq<Post>, d: int)
    requires AllPublished(s)
    ensures Filter(SortNewestFirst(s), PublishedAt(d)) == Filter(s, PublishedAt(d))
  {
    FilterSort(s, PublishedAt(d));
    SortSameInstant(Filter(s, PublishedAt(d)), d);
  }

  /**
   The model's tie-break: in the listing, the posts published at one instant
   `d` appear in table order, and none appear when `d` is after the clock.
   */
  lemma ListingTiesInTableOrder(posts: seq<Post>, now: int, d: int)
    ensures Filter(Listing(posts, now), PublishedAt(d)) ==
              if d <= now then Filter(posts, PublishedAt(d)) else []
  {
    var f := Filter(posts, VisibleAt(now));
    SortStable(f, d);
    if d <= now {
      FilterOfFilter(posts, PublishedAt(d), VisibleAt(now));
    }
  }

  /** Moving the clock forward never removes a post from the listing. */
  lemma ListingMonotone(posts: seq<Post>, now1: int, now2: int)
    requires now1 <= now2
    ensures forall p :: p in Listing(posts, now1) ==> p in Listing(posts, now2)
    ensures multiset(Listing(posts, now1)) <= multiset(Listing(posts, now2))
  {
  }

  /**
   The listing at an earlier clock is the listing at a later one with the
   posts published in between taken out, the rest in the same order.
   */
  lemma ListingAtEarlierClock(posts: seq<Post>, now1: int, now2: int)
    requires now1 <= now2
    ensures Filter(Listing(posts, now2), VisibleAt(now1)) == Listing(posts, now1)
  {
    FilterSort(Filter(posts, VisibleAt(now2)), VisibleAt(now1));
    FilterOfFilter(posts, VisibleAt(now1), VisibleAt(now2));
  }

  /**
   Publishing the `i`th post at clock `t` puts it in the listing at every
   clock from `t` on, and at no clock before `t`.
   */
  lemma PublishThenListed(posts: seq<Post>, i: nat, t: int, now: int)
    requires i < |posts|
    ensures Publish(posts[i], t) in Listing(posts[i := Publish(posts[i], t)], now) <==> t <= now
  {
    var q := Publish(posts[i], t);
    assert posts[i := q][i] == q;
  }

  /**
   Deleting an author takes exactly that author's posts off the public page;
   the rest of the page is unchanged, in the same order.
   */
  lemma ListingAfterDeleteAuthor(posts: seq<Post>, user: UserId, now: int)
    ensures Listing(DeleteAuthor(posts, user), now) == DeleteAuthor(Listing(posts, now), user)
  {
    FilterSort(Filter(posts, VisibleAt(now)), NotBy(user));
    FilterCommutes(posts, VisibleAt(now), NotBy(user));
  }
  /** The publication instants along `s`, position by position. */
  function Instants(s: seq<Post>): (r: seq<Option<int>>)
    ensures |r| == |s|
    ensures |s| > 0 ==> r[0] == s[0].publishedDate
  {
    if |s| == 0 then [] else [s[0].publishedDate] + Instants(s[1..])
  }

  /** `Instants` distributes over concatenation. */
  lemma {:induction false} InstantsAppend(a: seq<Post>, b: seq<Post>)
    ensures Instants(a + b) == Instants(a) + Instants(b)
    decreases |a|
  {
    if |a| == 0 {
      assert a + b == b;
    } else {
      assert (a + b)[1..] == a[1..] + b;
      InstantsAppend(a[1..], b);
    }
  }

  /** Instants of published posts never increase along `d`, one neighbour at a time. */
  predicate InstantsDescending(d: seq<Option<int>>) {
    |d| <= 1 ||
    (d[0].Some? && d[1].Some? && d[1].value <= d[0].value && InstantsDescending(d[1..]))
  }

  /** In a descending instant sequence every instant is published and no later than the first. */
  lemma {:induction false} DescendingBelowHead(d: seq<Option<int>>)
    requires InstantsDescending(d) && |d| > 1
    ensures forall i :: 0 <= i < |d| ==> d[i].Some? && d[i].value <= d[0].value
  {
    if |d| > 2 {
      DescendingBelowHead(d[1..]);
      forall i | 1 <= i < |d|
        ensures d[i].Some? && d[i].value <= d[0].value
      {
        assert d[i] == d[1..][i - 1];
      }
    }
  }

  /** The instants of a newest-first sequence are descending. */
  lemma {:induction false} NewestFirstInstants(s: seq<Post>)
    requires NewestFirst(s)
    ensures InstantsDescending(Instants(s))
  {
    if |s| > 1 {
      NewestFirstInstants(s[1..]);
      assert Instants(s)[1..] == Instants(s[1..]);
    }
  }

  /** The instants of a post followed by a sequence. */
  lemma InstantsCons(p: Post, s: seq<Post>)
    ensures Instants([p] + s) == [p.publishedDate] + Instants(s)
  {
    assert ([p] + s)[1..] == s;
  }

  /** The instants of `b`, cut in front of position `k`. */
  lemma InstantsCut(b: seq<Post>, k: nat)
    requires k < |b|
    ensures Instants(b) == Instants(b[..k]) + Instants([b[k]] + b[k + 1..])
  {
    assert b[..k] + b[k..] == b;
    assert b[k..] == [b[k]] + b[k + 1..];
    InstantsAppend(b[..k], b[k..]);
  }

  /** The instants of `b` around position `k`. */
  lemma InstantsSplit(b: seq<Post>, k: nat)
    requires k < |b|
    ensures Instants(b) == Instants(b[..k]) + ([b[k].publishedDate] + Instants(b[k + 1..]))
  {
    InstantsCut(b, k);
    InstantsCons(b[k], b[k + 1..]);
  }

  /** Removing the post at position `k` removes one occurrence of its instant. */
  lemma InstantsRemoveAt(b: seq<Post>, k: nat)
    requires k < |b|
    ensures multiset(Instants(b)) ==
              multiset(Instants(b[..k] + b[k + 1..])) + multiset{b[k].publishedDate}
  {
    InstantsSplit(b, k);
    InstantsAppend(b[..k], b[k + 1..]);
    MultisetMiddle(Instants(b[..k]), b[k].publishedDate, Instants(b[k + 1..]));
  }

  /** Two sequences holding the same posts hold the same instants, counted with multiplicity. */
  lemma {:induction false} InstantsMultiset(a: seq<Post>, b: seq<Post>)
    requires multiset(a) == multiset(b)
    ensures multiset(Instants(a)) == multiset(Instants(b))
    decreases |a|
  {
    if |a| == 0 {
      assert |b| == |multiset(b)| == 0;
    } else {
      assert a[0] in multiset(b);
      var k :| 0 <= k < |b| && b[k] == a[0];
      MultisetRemoveMatching(a, b, k);
      InstantsMultiset(a[1..], b[..k] + b[k + 1..]);
      InstantsRemoveAt(b, k);
      assert Instants(a) == [a[0].publishedDate] + Instants(a[1..]);
    }
  }

  /** Two descending instant sequences with the same instants start with the same instant. */
  lemma DescendingHeads(x: seq<Option<int>>, y: seq<Option<int>>)
    requires InstantsDescending(x) && InstantsDescending(y)
    requires multiset(x) == multiset(y) && |x| > 0
    ensures |y| == |x| && x[0] == y[0]
  {
    assert |y| == |multiset(y)| == |x|;
    assert x[0] in multiset(y) && y[0] in multiset(x);
    var k :| 0 <= k < |y| && y[k] == x[0];
    var j :| 0 <= j < |x| && x[j] == y[0];
    if |x| == 1 {
      assert multiset(y) == multiset{x[0]};
    } else {
      DescendingBelowHead(x);
      DescendingBelowHead(y);
    }
  }

  /** Two descending instant sequences with the same instants are equal. */
  lemma {:induction false} DescendingUnique(x: seq<Option<int>>, y: seq<Option<int>>)
    requires InstantsDescending(x) && InstantsDescending(y)
    requires multiset(x) == multiset(y)
    ensures x == y
    decreases |x|
  {
    if |x| == 0 {
      assert |y| == |multiset(y)| == 0;
    } else {
      DescendingHeads(x, y);
      MultisetRemoveAt(x, 0);
      MultisetRemoveAt(y, 0);
      assert x[..0] + x[1..] == x[1..] && y[..0] + y[1..] == y[1..];
      DescendingUnique(x[1..], y[1..]);
    }
  }

  /**
   The listing is determined up to the order of posts that share a
   publication instant: every sequence that is newest first and holds
   exactly the visible posts has the same instants, position by position,
   as `Listing`.
   */
  lemma ListingUpToTies(posts: seq<Post>, now: int, r: seq<Post>)
    requires NewestFirst(r)
    requires forall p :: multiset(r)[p] == if Visible(p, now) then multiset(posts)[p] else 0
    ensures Instants(r) == Instants(Listing(posts, now))
  {
    var l := Listing(posts, now);
    assert multiset(r) == multiset(l);
    InstantsMultiset(r, l);
    NewestFirstInstants(r);
    NewestFirstInstants(l);
    DescendingUnique(Instants(r), Instants(l));
  }
}
