/** The library panel: the set of selected article ids, the compare button,
    the newest-first order the cards are shown in, and the shared marks. */
module LibraryPanel {
  import opened Wrappers
  import opened Types
  import opened Lists

  /** `handleSelectArticle` on a copy of the selection: the id is removed
      if present and added if not. */
  function Toggle(sel: set<string>, id: string): (r: set<string>)
    ensures id in r <==> id !in sel
    ensures forall x :: x != id ==> (x in r <==> x in sel)
  {
    if id in sel then sel - {id} else sel + {id}
  }

  /** Toggling twice gives the selection back. */
  lemma ToggleSelectionTwice(sel: set<string>, id: string)
    ensures Toggle(Toggle(sel, id), id) == sel
  {
    var once := Toggle(sel, id);
    var twice := Toggle(once, id);
    assert forall x :: x in twice <==> x in sel;
  }

  predicate IsSelected(sel: set<string>, a: LibraryArticle) {
    a.id in sel
  }

  /** The articles of the panel that are selected, in the panel's order. */
  function SelectedArticles(articles: seq<LibraryArticle>, sel: set<string>): seq<LibraryArticle> {
    Filter(articles, a => IsSelected(sel, a))
  }

  /** What `handleCompareClick` hands to `onCompare`: the selected
      articles of the list, in list order, when there are at least two. */
  function CompareSelection(articles: seq<LibraryArticle>, sel: set<string>): (r: Option<seq<LibraryArticle>>)
    ensures r.Some? <==> |SelectedArticles(articles, sel)| >= 2
    ensures r.Some? ==> |r.value| >= 2 && forall k :: 0 <= k < |r.value| ==> r.value[k].id in sel
  {
    var chosen := SelectedArticles(articles, sel);
    if |chosen| >= 2 then Some(chosen) else None
  }

  /** The articles compared are exactly the list's selected ones, and
      they keep the list's relative order. */
  lemma CompareKeepsOrder(a: seq<LibraryArticle>, b: seq<LibraryArticle>, sel: set<string>)
    ensures SelectedArticles(a + b, sel) == SelectedArticles(a, sel) + SelectedArticles(b, sel)
    ensures forall x :: x in SelectedArticles(a, sel) <==> x in a && x.id in sel
  {
    FilterAppend(a, b, x => IsSelected(sel, x));
    forall x ensures x in SelectedArticles(a, sel) <==> x in a && x.id in sel {
      FilterMembers(a, x => IsSelected(sel, x), x);
    }
  }

  /** The banner with the compare button shows when at least two ids are
      selected. */
  function ShowBanner(sel: set<string>): (r: bool)
    ensures r <==> |sel| >= 2
  {
    |sel| >= 2
  }

  /** Ids that are no longer in the list still count for the banner but
      not for the comparison: with two ids selected and one of them gone,
      the button shows and does nothing. */
  lemma StaleSelection(a: LibraryArticle)
    requires a.id == "a"
    ensures ShowBanner({"a", "b"}) && CompareSelection([a], {"a", "b"}).None?
  {
    assert "a" != "b";
    assert |{"a", "b"}| == 2;
  }

  /** The sort key of line 47: the comparator `b - a` on the dates is the
      ascending comparator on the negated date. */
  function NewestKey(a: LibraryArticle): int {
    -a.dateAdded
  }

  /** The cards in display order: a sorted copy of the list. */
  function SortedNewest(articles: seq<LibraryArticle>): seq<LibraryArticle> {
    SortBy(articles, NewestKey)
  }

  /** The display order holds the same articles, newest first, and
      articles added at the same time keep their list order. */
  lemma SortedNewestProperties(articles: seq<LibraryArticle>, d: int)
    ensures multiset(SortedNewest(articles)) == multiset(articles)
    ensures forall i, j :: 0 <= i < j < |SortedNewest(articles)| ==>
      SortedNewest(articles)[i].dateAdded >= SortedNewest(articles)[j].dateAdded
    ensures Filter(SortedNewest(articles), KeyIs(NewestKey, -d)) == Filter(articles, KeyIs(NewestKey, -d))
  {
    SortBySorted(articles, NewestKey);
    NewestFirst(SortedNewest(articles));
    NewestStable(articles, d);
  }

  lemma NewestStable(articles: seq<LibraryArticle>, d: int)
    ensures Filter(SortedNewest(articles), KeyIs(NewestKey, -d)) == Filter(articles, KeyIs(NewestKey, -d))
  {
    var key := NewestKey;
    var r := SortBy(articles, key);
    assert SortedNewest(articles) == r;
    SortByStable(articles, key, -d);
  }

  /** Ascending by the negated date is descending by the date. */
  lemma NewestFirst(r: seq<LibraryArticle>)
    requires SortedBy(r, NewestKey)
    ensures forall i, j :: 0 <= i < j < |r| ==> r[i].dateAdded >= r[j].dateAdded
  {
    forall i, j | 0 <= i < j < |r| ensures r[i].dateAdded >= r[j].dateAdded {
      assert NewestKey(r[i]) <= NewestKey(r[j]);
    }
  }

  /** `workspaceArticleIds`. */
  function SharedIds(workspace: seq<LibraryArticle>): set<string> {
    set a | a in workspace :: a.id
  }

  /** A card is marked shared exactly when the workspace holds an article
      with its id. */
  lemma SharedExactly(workspace: seq<LibraryArticle>, a: LibraryArticle)
    ensures a.id in SharedIds(workspace) <==> HasId(workspace, a.id)
  {
    if HasId(workspace, a.id) {
      var k :| 0 <= k < |workspace| && workspace[k].id == a.id;
      assert workspace[k] in workspace;
    }
  }

  /** The panel's own state: the selected ids. */
  class Panel {
    var selected: set<string>

    constructor()
      ensures selected == {}
    {
      selected := {};
    }

    method SelectArticle(id: string)
      modifies this
      ensures selected == Toggle(old(selected), id)
    {
      var next := selected;
      if id in next {
        next := next - {id};
      } else {
        next := next + {id};
      }
      selected := next;
    }

    /** `handleCompareClick`: with at least two of the list's articles
        selected, they are handed on and the selection is emptied;
        otherwise nothing happens. */
    method CompareClick(articles: seq<LibraryArticle>) returns (compared: Option<seq<LibraryArticle>>)
      modifies this
      ensures compared == CompareSelection(articles, old(selected))
      ensures compared.Some? ==> selected == {}
      ensures compared.None? ==> selected == old(selected)
    {
      var chosen := SelectedArticles(articles, selected);
      if |chosen| >= 2 {
        compared := Some(chosen);
        selected := {};
      } else {
        compared := None;
      }
    }
  }
}
