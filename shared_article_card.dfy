/** A card in the shared workspace: its comment form, the update a
    submitted comment makes, and the order comments are shown in. */
module SharedArticleCard {
  import opened Wrappers
  import opened Text
  import opened Types
  import opened Lists

  /** `article.comments || []`. */
  function CommentsOf(article: LibraryArticle): seq<Comment> {
    if article.comments.Some? then article.comments.value else []
  }

  /** `handleCommentSubmit` at time `now`: rejected when the trimmed
      comment or the trimmed author is empty; otherwise the article with
      one comment more, made of the trimmed inputs, at the end. */
  function SubmitComment(article: LibraryArticle, newComment: string, authorName: string, now: nat): (r: Option<LibraryArticle>)
    ensures r.None? <==> Trim(newComment) == [] || Trim(authorName) == []
    ensures r.Some? ==>
      var before := CommentsOf(article);
      var after := CommentsOf(r.value);
      |after| == |before| + 1 && after[..|before|] == before
      && after[|before|] == Comment(NatToString(now), Trim(authorName), Trim(newComment), now)
    ensures r.Some? ==> r.value.comments.Some? && r.value.(comments := article.comments) == article
  {
    var text := Trim(newComment);
    var author := Trim(authorName);
    if text == [] || author == [] then None
    else
      var comment := Comment(NatToString(now), author, text, now);
      var comments := CommentsOf(article) + [comment];
      assert comments[..|CommentsOf(article)|] == CommentsOf(article);
      Some(article.(comments := Some(comments)))
  }

  /** `SubmitComment` once the two inputs have been trimmed. */
  lemma SubmitCommentOutcome(article: LibraryArticle, newComment: string, authorName: string, now: nat,
                             text: string, author: string)
    requires text == Trim(newComment) && author == Trim(authorName)
    ensures SubmitComment(article, newComment, authorName, now) ==
      if text == [] || author == [] then None
      else Some(article.(comments := Some(CommentsOf(article) + [Comment(NatToString(now), author, text, now)])))
  {
  }

  /** Each accepted comment adds one to the count, so `n` accepted
      submissions on an article add `n`. */
  lemma SubmitTwice(article: LibraryArticle, c1: string, a1: string, t1: nat, c2: string, a2: string, t2: nat)
    requires SubmitComment(article, c1, a1, t1).Some?
    requires SubmitComment(SubmitComment(article, c1, a1, t1).value, c2, a2, t2).Some?
    ensures var twice := SubmitComment(SubmitComment(article, c1, a1, t1).value, c2, a2, t2).value;
      |CommentsOf(twice)| == |CommentsOf(article)| + 2
      && CommentsOf(twice)[..|CommentsOf(article)|] == CommentsOf(article)
  {
    var once := SubmitComment(article, c1, a1, t1).value;
    var twice := SubmitComment(once, c2, a2, t2).value;
    ExtendTwice(CommentsOf(article), CommentsOf(once), CommentsOf(twice));
  }

  /** A list extended by one, twice, is extended by two. */
  lemma ExtendTwice(a: seq<Comment>, b: seq<Comment>, c: seq<Comment>)
    requires |b| == |a| + 1 && b[..|a|] == a
    requires |c| == |b| + 1 && c[..|b|] == b
    ensures |c| == |a| + 2 && c[..|a|] == a
  {
    assert c[..|a|] == c[..|b|][..|a|];
  }

  function TimestampKey(c: Comment): int {
    c.timestamp
  }

  /** The comments in display order: a sorted copy, oldest first. */
  function SortedComments(article: LibraryArticle): seq<Comment> {
    SortBy(CommentsOf(article), TimestampKey)
  }

  /** The displayed comments are the stored ones, ascending by time, with
      comments of equal time in stored order. */
  lemma SortedCommentsProperties(article: LibraryArticle, t: int)
    ensures multiset(SortedComments(article)) == multiset(CommentsOf(article))
    ensures forall i, j :: 0 <= i < j < |SortedComments(article)| ==>
      SortedComments(article)[i].timestamp <= SortedComments(article)[j].timestamp
    ensures Filter(SortedComments(article), KeyIs(TimestampKey, t)) == Filter(CommentsOf(article), KeyIs(TimestampKey, t))
  {
    SortBySorted(CommentsOf(article), TimestampKey);
    var r := SortedComments(article);
    assert forall i, j :: 0 <= i < j < |r| ==> TimestampKey(r[i]) <= TimestampKey(r[j]);
    SortByStable(CommentsOf(article), TimestampKey, t);
  }

  /** "No comments yet" shows exactly when the (possibly missing) list is
      empty, which is exactly when nothing is displayed. */
  function ShowEmptyState(article: LibraryArticle): (r: bool)
    ensures r <==> |SortedComments(article)| == 0
    ensures r <==> (article.comments.None? || article.comments.value == [])
  {
    assert |SortedComments(article)| == |multiset(SortedComments(article))| == |CommentsOf(article)|;
    |CommentsOf(article)| == 0
  }

  /** The form of one card. `savedAuthor` is what the card wrote to local
      storage as the author name to suggest next time. */
  class CommentForm {
    var article: LibraryArticle
    var newComment: string
    var authorName: string
    var savedAuthor: Option<string>

    constructor(article: LibraryArticle, storedAuthor: Option<string>)
      ensures this.article == article && newComment == [] && savedAuthor == storedAuthor
      ensures authorName == if Truthy(storedAuthor) then storedAuthor.value else []
    {
      this.article := article;
      newComment := [];
      authorName := if Truthy(storedAuthor) then storedAuthor.value else [];
      savedAuthor := storedAuthor;
    }

    /** A new render with the stored article as the prop (the card is
        keyed by id): the fields are kept. */
    method ReceiveProps(a: LibraryArticle)
      modifies this
      ensures article == a
      ensures newComment == old(newComment) && authorName == old(authorName) && savedAuthor == old(savedAuthor)
    {
      article := a;
    }

    /** Typing in the comment field. */
    method EditComment(text: string)
      modifies this
      ensures newComment == text
      ensures article == old(article) && authorName == old(authorName) && savedAuthor == old(savedAuthor)
    {
      newComment := text;
    }

    /** Typing in the author field. */
    method EditAuthor(name: string)
      modifies this
      ensures authorName == name
      ensures article == old(article) && newComment == old(newComment) && savedAuthor == old(savedAuthor)
    {
      authorName := name;
    }

    /** `handleCommentSubmit`: on success the updated article is handed
        back, the comment field is emptied and the trimmed author name is
        saved; on rejection nothing changes and an alert is raised. */
    method SubmitForm(now: nat) returns (updated: Option<LibraryArticle>, alerted: bool)
      modifies this
      ensures updated == SubmitComment(article, old(newComment), old(authorName), now)
      ensures alerted <==> updated.None?
      ensures updated.None? ==> newComment == old(newComment) && savedAuthor == old(savedAuthor)
      ensures updated.Some? ==> newComment == [] && savedAuthor == Some(Trim(old(authorName)))
      ensures authorName == old(authorName) && article == old(article)
    {
      var text := Trim(newComment);
      var author := Trim(authorName);
      if text == [] || author == [] {
        SubmitCommentOutcome(article, newComment, authorName, now, text, author);
        return None, true;
      }
      var comment := Comment(NatToString(now), author, text, now);
      updated := Some(article.(comments := Some(CommentsOf(article) + [comment])));
      SubmitCommentOutcome(article, newComment, authorName, now, text, author);
      newComment := [];
      savedAuthor := Some(author);
      alerted := false;
    }
  }

  /** Two accepted comments on one card, with the render of the stored
      article in between: the second builds on the first, so both are kept
      behind the old comments. */
  method SubmitTwiceRendered(form: CommentForm, now1: nat, second: string, now2: nat)
    returns (u1: Option<LibraryArticle>, u2: Option<LibraryArticle>)
    requires Trim(form.newComment) != [] && Trim(form.authorName) != [] && Trim(second) != []
    modifies form
    ensures u1 == SubmitComment(old(form.article), old(form.newComment), old(form.authorName), now1)
    ensures u1.Some? && u2 == SubmitComment(u1.value, second, old(form.authorName), now2) && u2.Some?
    ensures |CommentsOf(u2.value)| == |CommentsOf(old(form.article))| + 2
    ensures CommentsOf(u2.value)[..|CommentsOf(old(form.article))|] == CommentsOf(old(form.article))
  {
    var alerted: bool;
    u1, alerted := form.SubmitForm(now1);
    form.ReceiveProps(u1.value);
    form.EditComment(second);
    u2, alerted := form.SubmitForm(now2);
    SubmitTwice(old(form.article), old(form.newComment), old(form.authorName), now1, second, old(form.authorName), now2);
  }
}
