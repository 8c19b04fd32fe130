/** The list operations of the application's library and shared workspace:
    saving the open article, replacing one by id, deleting by id, sharing a
    library article to the workspace, and clearing reminders that are due. */
module Library {
  import opened Wrappers
  import opened Text
  import opened Types
  import opened Lists

  /** `${file.name}-${file.size}`. */
  function ArticleId(file: File): string {
    file.name + "-" + NatToString(file.size)
  }

  /** Different files get different ids, even when names hold dashes: the
      size has no dash, so the last dash of an id separates the name from
      the size. */
  lemma ArticleIdInjective(f: File, g: File)
    requires ArticleId(f) == ArticleId(g)
    ensures f == g
  {
    var df, dg := NatToString(f.size), NatToString(g.size);
    var id := ArticleId(f);
    assert id == f.name + ['-'] + df;
    assert id == g.name + ['-'] + dg;
    LastDash(id, f.name, df);
    LastDash(id, g.name, dg);
    assert |f.name| == |g.name|;
    assert df == id[|id| - |df|..] == dg;
    NatToStringInjective(f.size, g.size);
    assert f.name == id[..|f.name|] == g.name;
  }

  /** In a prefix, a dash and a dash-free suffix, that dash is the last
      one. */
  lemma LastDash(s: string, a: string, d: string)
    requires s == a + ['-'] + d
    requires forall k :: 0 <= k < |d| ==> d[k] != '-'
    ensures |a| < |s| && s[|a|] == '-'
    ensures forall k :: |a| < k < |s| ==> s[k] != '-'
  {
    assert forall k :: |a| < k < |s| ==> s[k] == d[k - |a| - 1];
  }

  /** The article `handleSaveToLibrary` builds: rating 0, no tags, no
      notes, no comments, no reminder. */
  function NewArticle(file: File, text: string, dataUrl: string, now: int): (a: LibraryArticle)
    ensures a.id == ArticleId(file) && a.fileName == file.name && a.pdfText == text
    ensures a.tags == [] && a.rating == 0 && a.notes == [] && a.comments == Some([])
    ensures a.reminderDate.None? && a.reminderNote.None?
  {
    LibraryArticle(ArticleId(file), file.name, dataUrl, text, [], 0, "", now, None, None, Some([]))
  }

  /** The guard of `handleSaveToLibrary`, taken on the library as it is when
      the button is pressed: a file and a non-empty text are needed, and the
      id must be new. It gives the article to add. */
  function SaveCandidate(lib: seq<LibraryArticle>, file: Option<File>, text: Option<string>, dataUrl: string, now: int): (r: Option<LibraryArticle>)
    ensures r.Some? <==> file.Some? && Truthy(text) && !HasId(lib, ArticleId(file.value))
    ensures r.Some? ==> r.value == NewArticle(file.value, text.value, dataUrl, now)
  {
    if file.None? || !Truthy(text) then None
    else if HasId(lib, ArticleId(file.value)) then None
    else Some(NewArticle(file.value, text.value, dataUrl, now))
  }

  /** The state update of line 260, as written: the article goes in front
      of whatever the library holds when the file has been read. */
  function PrependAsWritten(prev: seq<LibraryArticle>, a: LibraryArticle): (r: seq<LibraryArticle>)
    ensures |r| == |prev| + 1 && r[0] == a && r[1..] == prev
    ensures UniqueIds(prev) && !HasId(prev, a.id) ==> UniqueIds(r)
  {
    PrependCheckedKeepsUnique(prev, a);
    [a] + prev
  }

  /** The update with the id test repeated on the library it applies to. */
  function PrependChecked(prev: seq<LibraryArticle>, a: LibraryArticle): (r: seq<LibraryArticle>)
    ensures HasId(prev, a.id) ==> r == prev
    ensures !HasId(prev, a.id) ==> r == [a] + prev
  {
    if HasId(prev, a.id) then prev else [a] + prev
  }

  /** The checked update never creates a duplicate id. */
  lemma PrependCheckedKeepsUnique(prev: seq<LibraryArticle>, a: LibraryArticle)
    ensures UniqueIds(prev) ==> UniqueIds(PrependChecked(prev, a))
  {
    if UniqueIds(prev) && !HasId(prev, a.id) {
      var r := [a] + prev;
      forall i, j | 0 <= i < j < |r| ensures r[i].id != r[j].id {
        if i == 0 {
          assert r[j] == prev[j - 1];
        } else {
          assert r[i] == prev[i - 1] && r[j] == prev[j - 1];
        }
      }
    }
  }

  /** Two saves of one file started before either has finished both pass
      the id test, since each looks at the library as it was; put in front
      as written, the two articles share an id. */
  lemma SaveRaceAsWritten()
    ensures var f := File("a.pdf", 1);
      var first := SaveCandidate([], Some(f), Some("x"), "", 0);
      var second := SaveCandidate([], Some(f), Some("x"), "", 1);
      first.Some? && second.Some?
      && !UniqueIds(PrependAsWritten(PrependAsWritten([], first.value), second.value))
  {
    var f := File("a.pdf", 1);
    var first := SaveCandidate([], Some(f), Some("x"), "", 0);
    var second := SaveCandidate([], Some(f), Some("x"), "", 1);
    var r := PrependAsWritten(PrependAsWritten([], first.value), second.value);
    assert r[0].id == r[1].id;
  }

  /** With the test repeated, a second article with the same id is
      dropped, however the two saves interleave. */
  lemma SaveRaceChecked(lib: seq<LibraryArticle>, a: LibraryArticle, b: LibraryArticle)
    requires a.id == b.id
    ensures PrependChecked(PrependChecked(lib, a), b) == PrependChecked(lib, a)
  {
    var r := PrependChecked(lib, a);
    if !HasId(lib, a.id) {
      assert r[0].id == b.id;
    }
  }

  /** Saving when nothing else happens in between: at most one article is
      put in front, and only when its id is new. */
  function SaveToLibrary(lib: seq<LibraryArticle>, file: Option<File>, text: Option<string>, dataUrl: string, now: int): (r: seq<LibraryArticle>)
    ensures UniqueIds(lib) ==> UniqueIds(r)
    ensures r == lib || (|r| == |lib| + 1 && r[1..] == lib && !HasId(lib, r[0].id) && r[0].rating == 0 && r[0].tags == [])
  {
    match SaveCandidate(lib, file, text, dataUrl, now)
    case None => lib
    case Some(a) =>
      PrependCheckedKeepsUnique(lib, a);
      PrependChecked(lib, a)
  }

  /** With a file and a text whose id is already in the library, saving
      changes nothing. */
  lemma SaveExistingIsNoOp(lib: seq<LibraryArticle>, file: File, text: Option<string>, dataUrl: string, now: int)
    requires HasId(lib, ArticleId(file))
    ensures SaveToLibrary(lib, Some(file), text, dataUrl, now) == lib
  {
  }

  /** `handleUpdateLibraryArticle`: every entry with the id of `a` is
      replaced by `a`. */
  function UpdateArticle(lib: seq<LibraryArticle>, a: LibraryArticle): (r: seq<LibraryArticle>)
    ensures |r| == |lib|
    ensures forall k :: 0 <= k < |r| ==> r[k] == if lib[k].id == a.id then a else lib[k]
  {
    seq(|lib|, k requires 0 <= k < |lib| => if lib[k].id == a.id then a else lib[k])
  }

  /** Updating keeps the ids in place, so uniqueness survives, and with
      unique ids at most one entry changes. */
  lemma UpdateKeepsIds(lib: seq<LibraryArticle>, a: LibraryArticle)
    ensures forall k :: 0 <= k < |lib| ==> UpdateArticle(lib, a)[k].id == lib[k].id
    ensures UniqueIds(lib) ==> UniqueIds(UpdateArticle(lib, a))
    ensures !HasId(lib, a.id) ==> UpdateArticle(lib, a) == lib
  {
  }

  lemma UpdateChangesOne(lib: seq<LibraryArticle>, a: LibraryArticle, k: nat)
    requires UniqueIds(lib) && k < |lib| && lib[k].id == a.id
    ensures UpdateArticle(lib, a) == lib[k := a]
  {
  }

  /** `handleDeleteFromLibrary`. */
  function DeleteArticle(lib: seq<LibraryArticle>, id: string): seq<LibraryArticle> {
    Filter(lib, (a: LibraryArticle) => a.id != id)
  }

  /** No entry with the id is left; every other entry stays, in order. */
  lemma DeleteRemovesId(lib: seq<LibraryArticle>, id: string)
    ensures !HasId(DeleteArticle(lib, id), id)
    ensures forall a :: a in DeleteArticle(lib, id) <==> a in lib && a.id != id
    ensures !HasId(lib, id) ==> DeleteArticle(lib, id) == lib
  {
    var r := DeleteArticle(lib, id);
    forall a ensures a in r <==> a in lib && a.id != id {
      FilterMembers(lib, (a: LibraryArticle) => a.id != id, a);
    }
    if !HasId(lib, id) {
      FilterKeepsAll(lib, (a: LibraryArticle) => a.id != id);
    }
  }

  /** Deleting keeps the ids unique. */
  lemma {:induction false} DeleteKeepsUnique(lib: seq<LibraryArticle>, id: string)
    requires UniqueIds(lib)
    ensures UniqueIds(DeleteArticle(lib, id))
    decreases |lib|
  {
    if lib != [] {
      var p := (a: LibraryArticle) => a.id != id;
      var rest := DeleteArticle(lib[1..], id);
      assert UniqueIds(lib[1..]) by {
        forall i, j | 0 <= i < j < |lib[1..]| ensures lib[1..][i].id != lib[1..][j].id {
          assert lib[1..][i] == lib[i + 1] && lib[1..][j] == lib[j + 1];
        }
      }
      DeleteKeepsUnique(lib[1..], id);
      if p(lib[0]) {
        var r := [lib[0]] + rest;
        forall i, j | 0 <= i < j < |r| ensures r[i].id != r[j].id {
          if i == 0 {
            assert r[j] == rest[j - 1];
            FilterMembers(lib[1..], p, rest[j - 1]);
            var k :| 0 <= k < |lib[1..]| && lib[1..][k] == rest[j - 1];
            assert lib[k + 1] == rest[j - 1];
          } else {
            assert r[i] == rest[i - 1] && r[j] == rest[j - 1];
          }
        }
      }
    }
  }

  /** Deleting splits over a concatenation: the order of what remains is
      the order of the library. */
  lemma DeleteKeepsOrder(a: seq<LibraryArticle>, b: seq<LibraryArticle>, id: string)
    ensures DeleteArticle(a + b, id) == DeleteArticle(a, id) + DeleteArticle(b, id)
  {
    FilterAppend(a, b, (x: LibraryArticle) => x.id != id);
  }

  /** `library.find(a => a.id === id)`. */
  function FindById(lib: seq<LibraryArticle>, id: string): (r: Option<LibraryArticle>)
    ensures r.Some? <==> HasId(lib, id)
    ensures r.Some? ==>
      exists k :: 0 <= k < |lib| && lib[k] == r.value && r.value.id == id && forall j :: 0 <= j < k ==> lib[j].id != id
    decreases |lib|
  {
    if lib == [] then None
    else if lib[0].id == id then Some(lib[0])
    else
      var r := FindById(lib[1..], id);
      FindByIdStep(lib, id, r);
      r
  }

  lemma FindByIdStep(lib: seq<LibraryArticle>, id: string, r: Option<LibraryArticle>)
    requires lib != [] && lib[0].id != id
    requires r.Some? <==> HasId(lib[1..], id)
    requires r.Some? ==>
      exists k :: 0 <= k < |lib[1..]| && lib[1..][k] == r.value && r.value.id == id && forall j :: 0 <= j < k ==> lib[1..][j].id != id
    ensures r.Some? <==> HasId(lib, id)
    ensures r.Some? ==>
      exists k :: 0 <= k < |lib| && lib[k] == r.value && r.value.id == id && forall j :: 0 <= j < k ==> lib[j].id != id
  {
    if r.Some? {
      var k :| 0 <= k < |lib[1..]| && lib[1..][k] == r.value && r.value.id == id
        && forall j :: 0 <= j < k ==> lib[1..][j].id != id;
      assert lib[k + 1] == r.value;
      assert forall j :: 0 <= j < k + 1 ==> lib[j].id != id by {
        forall j | 0 <= j < k + 1 ensures lib[j].id != id {
          if j > 0 {
            assert lib[j] == lib[1..][j - 1];
          }
        }
      }
    }
    if HasId(lib, id) {
      var k :| 0 <= k < |lib| && lib[k].id == id;
      assert lib[1..][k - 1] == lib[k];
    }
  }

  /** `handleShareToWorkspace`: the first library article with the id goes
      in front of the workspace, unless the workspace has the id already or
      the library does not. */
  function ShareToWorkspace(ws: seq<LibraryArticle>, lib: seq<LibraryArticle>, id: string): (r: seq<LibraryArticle>)
    ensures HasId(ws, id) || !HasId(lib, id) ==> r == ws
    ensures !HasId(ws, id) && HasId(lib, id) ==> r == [FindById(lib, id).value] + ws && r[0].id == id
  {
    if HasId(ws, id) then ws
    else
      match FindById(lib, id)
      case None => ws
      case Some(a) => [a] + ws
  }

  /** So workspace ids stay unique. */
  lemma ShareKeepsUnique(ws: seq<LibraryArticle>, lib: seq<LibraryArticle>, id: string)
    requires UniqueIds(ws)
    ensures UniqueIds(ShareToWorkspace(ws, lib, id))
  {
    var r := ShareToWorkspace(ws, lib, id);
    if r != ws {
      forall i, j | 0 <= i < j < |r| ensures r[i].id != r[j].id {
        assert r[j] == ws[j - 1];
        if i > 0 {
          assert r[i] == ws[i - 1];
        }
      }
    }
  }

  // ---------------------------------------------------------------------
  // Reminders

  /** The copy with `reminderDate` and `reminderNote` deleted. */
  function ClearReminder(a: LibraryArticle): (r: LibraryArticle)
    ensures r.reminderDate.None? && r.reminderNote.None?
    ensures r.(reminderDate := a.reminderDate, reminderNote := a.reminderNote) == a
  {
    a.(reminderDate := None, reminderNote := None)
  }

  /** The reminder is set and its time has come. */
  predicate Due(a: LibraryArticle, now: int) {
    a.reminderDate.Some? && a.reminderDate.value <= now
  }

  /** The library after one reminder check at time `now`. */
  function ClearDue(lib: seq<LibraryArticle>, now: int): (r: seq<LibraryArticle>)
    ensures |r| == |lib|
  {
    seq(|lib|, k requires 0 <= k < |lib| => if Due(lib[k], now) then ClearReminder(lib[k]) else lib[k])
  }

  /** Exactly the due articles lose their reminder and nothing else; every
      other article is unchanged; no due reminder is left. */
  lemma ClearDueExactly(lib: seq<LibraryArticle>, now: int)
    ensures forall k :: 0 <= k < |lib| && Due(lib[k], now) ==>
      ClearDue(lib, now)[k].reminderDate.None? && ClearDue(lib, now)[k].reminderNote.None?
      && ClearDue(lib, now)[k].(reminderDate := lib[k].reminderDate, reminderNote := lib[k].reminderNote) == lib[k]
    ensures forall k :: 0 <= k < |lib| && !Due(lib[k], now) ==> ClearDue(lib, now)[k] == lib[k]
    ensures forall k :: 0 <= k < |lib| ==> !Due(ClearDue(lib, now)[k], now)
  {
  }
}
