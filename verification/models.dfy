/**
 The blog's one entity, `Post` (blog/models.py): its fields and defaults, the
 `publish` transition, its string rendering, and the cascade that removes an
 author's posts when the author is deleted.

 Timestamps are integers ordered like the instants they stand for; the clock
 (`timezone.now()` in the source) is an explicit `now` argument.
 */
module Models {
  import opened Wrappers
  import opened Seqs

  /** The author reference: the identity of a user row, and nothing more. */
  datatype UserId = UserId(id: nat)

  /** Declared `max_length` of the `title` column. */
  const TitleMaxLength: nat := 200

  /**
   One row of the post table. `publishedDate == None` (SQL NULL) marks a
   draft; `Some(t)` records the instant the post was published.
   */
  datatype Post = Post(
    author: UserId,
    title: string,
    text: string,
    createdDate: int,
    publishedDate: Option<int>)

  predicate IsDraft(p: Post) {
    p.publishedDate.None?
  }

  /**
   The title respects its declared length bound. The bound is a property a
   stored post is expected to have, not something the model enforces by
   truncating.
   */
  predicate ValidPost(p: Post) {
    |p.title| <= TitleMaxLength
  }

  /**
   Creating a post: `createdDate` falls back to the clock when the caller
   gives none, and `publishedDate` stays NULL unless the caller sets it.
   */
  function NewPost(author: UserId, title: string, text: string,
                   createdDate: Option<int>, publishedDate: Option<int>,
                   now: int): (p: Post)
    ensures p.author == author && p.title == title && p.text == text
    ensures createdDate.None? ==> p.createdDate == now
    ensures createdDate.Some? ==> p.createdDate == createdDate.value
    ensures IsDraft(p) <==> publishedDate.None?
    ensures p.publishedDate == publishedDate
    ensures ValidPost(p) <==> |title| <= TitleMaxLength
  {
    var created := match createdDate
      case None => now
      case Some(c) => c;
    Post(author, title, text, created, publishedDate)
  }

  /**
   `Post.publish`: the publication instant becomes the clock value, whatever
   it was before; no other field changes.
   */
  function Publish(p: Post, now: int): (q: Post)
    ensures q.publishedDate == Some(now)
    ensures !IsDraft(q)
    ensures q.author == p.author && q.title == p.title && q.text == p.text
    ensures q.createdDate == p.createdDate
    ensures ValidPost(q) <==> ValidPost(p)
  {
    p.(publishedDate := Some(now))
  }

  /** `Post.__str__`: a post is shown as its title. */
  function Str(p: Post): (s: string)
    ensures s == p.title
    ensures |s| <= TitleMaxLength <==> ValidPost(p)
  {
    p.title
  }

  /** The posts owned by someone other than `user`. */
  function NotBy(user: UserId): Post -> bool {
    (p: Post) => p.author != user
  }

  /**
   The `on_delete=CASCADE` rule of the author foreign key: deleting `user`
   deletes exactly the posts whose author is `user`; every other post stays,
   unchanged and in its original order.
   */
  function DeleteAuthor(posts: seq<Post>, user: UserId): (r: seq<Post>)
    ensures forall i :: 0 <= i < |r| ==> r[i].author != user
    ensures forall p :: p in r <==> p in posts && p.author != user
    ensures forall p :: multiset(r)[p] == if p.author == user then 0 else multiset(posts)[p]
    ensures IsSubsequence(r, posts)
  {
    Filter(posts, NotBy(user))
  }

  /**
   `DeleteAuthor`'s contract pins its result down: any subsequence of the
   table that keeps every post of other authors, as often as it occurs, and
   no post of `user`, is the table after the cascade.
   */
  lemma DeleteAuthorUnique(posts: seq<Post>, user: UserId, r: seq<Post>)
    requires IsSubsequence(r, posts)
    requires forall p :: multiset(r)[p] == if p.author == user then 0 else multiset(posts)[p]
    ensures r == DeleteAuthor(posts, user)
  {
    FilterUnique(posts, NotBy(user), r);
  }

  /** Deleting the same author twice deletes nothing more the second time. */
  lemma DeleteAuthorIdempotent(posts: seq<Post>, user: UserId)
    ensures DeleteAuthor(DeleteAuthor(posts, user), user) == DeleteAuthor(posts, user)
  {
    FilterOfFilter(posts, NotBy(user), NotBy(user));
  }

  /** The cascade keeps every surviving post valid when the table was valid. */
  lemma DeleteAuthorKeepsValid(posts: seq<Post>, user: UserId)
    requires forall i :: 0 <= i < |posts| ==> ValidPost(posts[i])
    ensures forall i :: 0 <= i < |DeleteAuthor(posts, user)| ==> ValidPost(DeleteAuthor(posts, user)[i])
  {
    var r := DeleteAuthor(posts, user);
    forall i | 0 <= i < |r|
      ensures ValidPost(r[i])
    {
      assert r[i] in posts;
    }
  }

  /** Publishing again overwrites the earlier instant: only the last clock value is kept. */
  lemma PublishTwice(p: Post, first: int, second: int)
    ensures Publish(Publish(p, first), second) == Publish(p, second)
    ensures first == second ==> Publish(Publish(p, first), second) == Publish(p, first)
  {
  }
}
