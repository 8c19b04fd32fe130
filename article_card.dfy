/** An article card: the form values it edits (notes, the tags as one
    comma-separated text, the rating and the reminder), and the article it
    hands back to be stored. */
module ArticleCard {
  import opened Wrappers
  import opened Text
  import opened Types
  import opened Lists
  import opened Library

  /** `parts.map(tag => tag.trim())`. */
  function TrimAll(parts: seq<string>): (r: seq<string>)
    ensures |r| == |parts| && forall k :: 0 <= k < |r| ==> r[k] == Trim(parts[k])
  {
    seq(|parts|, k requires 0 <= k < |parts| => Trim(parts[k]))
  }

  predicate NonEmpty(s: string) {
    s != []
  }

  /** `tags.split(',').map(tag => tag.trim()).filter(Boolean)`. */
  function ParseTags(text: string): (r: seq<string>)
    ensures forall k :: 0 <= k < |r| ==> r[k] != [] && Trimmed(r[k]) && ',' !in r[k]
  {
    var pieces := Split(text, ',');
    var trimmed := TrimAll(pieces);
    assert forall k :: 0 <= k < |trimmed| ==> ',' !in trimmed[k] by {
      forall k | 0 <= k < |trimmed| ensures ',' !in trimmed[k] {
        TrimIsSlice(pieces[k]);
      }
    }
    var r := Filter(trimmed, NonEmpty);
    forall k | 0 <= k < |r| ensures r[k] != [] && Trimmed(r[k]) && ',' !in r[k] {
      FilterMembers(trimmed, NonEmpty, r[k]);
    }
    r
  }

  lemma TrimIsSlice(s: string)
    ensures forall c :: c in Trim(s) ==> c in s
  {
    var a, b :| 0 <= a <= b <= |s| && Trim(s) == s[a..b] && AllSpace(s[..a]) && AllSpace(s[b..]);
    SliceMembers(s, a, b);
  }

  lemma SliceMembers(s: string, a: nat, b: nat)
    requires a <= b <= |s|
    ensures forall c :: c in s[a..b] ==> c in s
  {
    forall c | c in s[a..b] ensures c in s {
      var k :| 0 <= k < |s[a..b]| && s[a..b][k] == c;
      assert s[a + k] == c;
    }
  }

  /** A tag list the parser gives back unchanged: every tag non-empty,
      trimmed, and free of commas. */
  predicate CleanTags(tags: seq<string>) {
    forall k :: 0 <= k < |tags| ==> tags[k] != [] && Trimmed(tags[k]) && ',' !in tags[k]
  }

  /** The text field starts as `article.tags.join(', ')`. */
  function TagsText(tags: seq<string>): string {
    Join(tags, ", ")
  }

  /** The pieces of a joined list: the first tag, then each later tag with
      the blank of the separator in front. */
  function Blanked(tags: seq<string>): (r: seq<string>)
    requires |tags| >= 1
    ensures |r| == |tags| && r[0] == tags[0]
    ensures forall k :: 1 <= k < |r| ==> r[k] == [' '] + tags[k]
  {
    seq(|tags|, k requires 0 <= k < |tags| => if k == 0 then tags[0] else [' '] + tags[k])
  }

  lemma {:induction false} SplitTagsText(tags: seq<string>)
    requires |tags| >= 1
    requires forall k :: 0 <= k < |tags| ==> ',' !in tags[k]
    ensures Split(TagsText(tags), ',') == Blanked(tags)
    decreases |tags|
  {
    if |tags| == 1 {
      SplitNoSeparator(tags[0], ',');
    } else {
      var rest := tags[1..];
      SplitTagsText(rest);
      var tail := Join(rest, ", ");
      JoinStep(tags);
      SplitPieceThenSeparator(tags[0], ',', [' '] + tail);
      SplitBlankFront(tail);
      BlankedStep(tags, Split(tail, ','));
    }
  }

  lemma JoinStep(tags: seq<string>)
    requires |tags| >= 2
    ensures TagsText(tags) == tags[0] + [','] + ([' '] + Join(tags[1..], ", "))
  {
    Regroup(tags[0], ", ", Join(tags[1..], ", "));
    assert tags[0] + ", " == tags[0] + [','] + [' '];
    Regroup(tags[0] + [','], [' '], Join(tags[1..], ", "));
  }

  /** A blank in front joins the first piece. */
  lemma SplitBlankFront(tail: string)
    ensures Split([' '] + tail, ',') == [[' '] + Split(tail, ',')[0]] + Split(tail, ',')[1..]
  {
    assert ([' '] + tail)[1..] == tail;
  }

  lemma BlankedStep(tags: seq<string>, pieces: seq<string>)
    requires |tags| >= 2 && pieces == Blanked(tags[1..])
    ensures [tags[0]] + ([[' '] + pieces[0]] + pieces[1..]) == Blanked(tags)
  {
    var r := [tags[0]] + ([[' '] + pieces[0]] + pieces[1..]);
    assert |r| == |tags|;
    forall k | 0 <= k < |tags| ensures r[k] == Blanked(tags)[k] {
      if k >= 2 {
        assert r[k] == pieces[k - 1];
      }
    }
  }

  /** Tags typed on either side of a comma are parsed separately and
      kept in order. */
  lemma ParseTagsAppend(a: string, b: string)
    ensures ParseTags(a + "," + b) == ParseTags(a) + ParseTags(b)
  {
    assert a + "," + b == a + [','] + b;
    SplitAppend(a, ',', b);
    var x, y := Split(a, ','), Split(b, ',');
    assert TrimAll(x + y) == TrimAll(x) + TrimAll(y);
    FilterAppend(TrimAll(x), TrimAll(y), NonEmpty);
  }

  /** Parsing undoes the join for a clean list: the tags shown when a
      card opens come back unchanged when it saves. */
  lemma ParseTagsText(tags: seq<string>)
    requires CleanTags(tags)
    ensures ParseTags(TagsText(tags)) == tags
  {
    if tags == [] {
      assert Split([], ',') == [[]];
      assert Trim([]) == [] by {
        TrimOfTrimmed([]);
      }
      assert TrimAll([[]]) == [[]];
    } else {
      SplitTagsText(tags);
      var trimmed := TrimAll(Blanked(tags));
      forall k | 0 <= k < |tags| ensures trimmed[k] == tags[k] {
        if k == 0 {
          TrimOfTrimmed(tags[0]);
        } else {
          TrimAfterBlank(tags[k]);
        }
      }
      assert trimmed == tags;
      FilterKeepsAll(tags, NonEmpty);
    }
  }

  /** The reminder fields of `handleReminderSave`: the date picked (none
      for the empty field) and the note as typed. */
  datatype ReminderChange = ReminderChange(date: Option<int>, note: string)

  /** `handleSaveChanges(reminderChanges)`: the article with the card's
      notes, parsed tags and rating, and then the reminder fields, if any,
      on top. */
  function Merge(article: LibraryArticle, notes: string, tagsText: string, rating: int, change: Option<ReminderChange>): (r: LibraryArticle)
    ensures r.notes == notes && r.tags == ParseTags(tagsText) && r.rating == rating
    ensures change.None? ==> r.reminderDate == article.reminderDate && r.reminderNote == article.reminderNote
    ensures change.Some? ==> r.reminderDate == change.value.date && r.reminderNote == Some(change.value.note)
    ensures r.(notes := article.notes, tags := article.tags, rating := article.rating,
               reminderDate := article.reminderDate, reminderNote := article.reminderNote) == article
  {
    var edited := article.(notes := notes, tags := ParseTags(tagsText), rating := rating);
    match change
    case None => edited
    case Some(c) => edited.(reminderDate := c.date, reminderNote := Some(c.note))
  }

  /** Saving without edits gives the article back, when its tags are
      clean. */
  lemma UneditedMergeIsIdentity(article: LibraryArticle)
    requires CleanTags(article.tags)
    ensures Merge(article, article.notes, TagsText(article.tags), article.rating, None) == article
  {
    ParseTagsText(article.tags);
  }

  /** The card's local state, and the `article` prop of its latest
      render. */
  class Card {
    var article: LibraryArticle
    var notes: string
    var tags: string
    var rating: int
    var isReminderModalOpen: bool
    var reminderDate: Option<int>
    var reminderNote: string

    constructor(article: LibraryArticle)
      ensures this.article == article
      ensures notes == article.notes && tags == TagsText(article.tags) && rating == article.rating
      ensures !isReminderModalOpen && reminderDate == article.reminderDate
      ensures reminderNote == if Truthy(article.reminderNote) then article.reminderNote.value else ""
    {
      this.article := article;
      notes := article.notes;
      tags := TagsText(article.tags);
      rating := article.rating;
      isReminderModalOpen := false;
      reminderDate := article.reminderDate;
      reminderNote := if Truthy(article.reminderNote) then article.reminderNote.value else "";
    }

    /** A new render with the stored article as the prop (the card is
        keyed by id): the form's state was read from the prop only when the
        card was mounted, so it stays as it is. */
    method ReceiveProps(a: LibraryArticle)
      modifies this
      ensures article == a
      ensures notes == old(notes) && tags == old(tags) && rating == old(rating)
      ensures isReminderModalOpen == old(isReminderModalOpen)
      ensures reminderDate == old(reminderDate) && reminderNote == old(reminderNote)
    {
      article := a;
    }

    /** `handleSaveChanges()`: the article to store. The card's state does
        not change. */
    method SaveChanges() returns (updated: LibraryArticle)
      ensures updated == Merge(article, notes, tags, rating, None)
      ensures updated.id == article.id && updated.tags == ParseTags(tags)
    {
      updated := article.(notes := notes, tags := ParseTags(tags), rating := rating);
    }

    /** `handleReminderSave`: the edits and the reminder fields are stored
        together and the dialog closes. */
    method ReminderSave() returns (updated: LibraryArticle)
      modifies this
      ensures updated == Merge(article, notes, tags, rating, Some(ReminderChange(reminderDate, reminderNote)))
      ensures !isReminderModalOpen
      ensures notes == old(notes) && tags == old(tags) && rating == old(rating)
      ensures reminderDate == old(reminderDate) && reminderNote == old(reminderNote)
      ensures article == old(article)
    {
      var change := ReminderChange(reminderDate, reminderNote);
      updated := article.(notes := notes, tags := ParseTags(tags), rating := rating);
      updated := updated.(reminderDate := change.date, reminderNote := Some(change.note));
      isReminderModalOpen := false;
    }

    /** `handleReminderClear`: the stored article loses its reminder and
        nothing else, the card's unsaved notes, tags and rating are not
        applied, and the reminder fields are emptied. */
    method ReminderClear() returns (updated: LibraryArticle)
      modifies this
      ensures updated == ClearReminder(article)
      ensures reminderDate.None? && reminderNote == "" && !isReminderModalOpen
      ensures notes == old(notes) && tags == old(tags) && rating == old(rating)
      ensures article == old(article)
    {
      updated := article;
      updated := updated.(reminderDate := None);
      updated := updated.(reminderNote := None);
      reminderDate := None;
      reminderNote := "";
      isReminderModalOpen := false;
    }
  }

  /** A reminder save, the render with the stored article, and a later
      save of the same card: the later save builds on the stored article,
      so the reminder just saved is kept. */
  method SaveAfterReminder(card: Card) returns (first: LibraryArticle, second: LibraryArticle)
    modifies card
    ensures first == Merge(old(card.article), old(card.notes), old(card.tags), old(card.rating),
                           Some(ReminderChange(old(card.reminderDate), old(card.reminderNote))))
    ensures second == Merge(first, old(card.notes), old(card.tags), old(card.rating), None)
    ensures second.reminderDate == first.reminderDate && second.reminderNote == first.reminderNote
  {
    first := card.ReminderSave();
    card.ReceiveProps(first);
    second := card.SaveChanges();
  }
}
