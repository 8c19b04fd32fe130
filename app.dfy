/** The application's top-level state: the open PDF, the chat, the library
    and the workspace, the theme, and the transitions its handlers make.
    Work that waits for a promise is split in two methods: one for what
    happens before the `await` and one for what happens when it settles,
    with the settled outcome as a parameter. */
module App {
  import opened Wrappers
  import opened Text
  import opened Types
  import opened Library
  import opened Lists

  // ---------------------------------------------------------------------
  // Theme

  /** `handleThemeToggle`: SYSTEM, then LIGHT, then DARK, then SYSTEM. */
  function NextTheme(t: Theme): (r: Theme)
    ensures r != t
  {
    if t == System then Light
    else if t == Light then Dark
    else System
  }

  /** Three toggles come back to the start, and no fewer do. */
  lemma ThreeTogglesRestore(t: Theme)
    ensures NextTheme(NextTheme(NextTheme(t))) == t
    ensures NextTheme(NextTheme(t)) != t
  {
  }

  // ---------------------------------------------------------------------
  // Messages

  const Welcome: string := "Добро пожаловать! Вы можете задать мне любой вопрос или загрузить PDF-статью для анализа."
  const PdfFailure: string := "Произошла неизвестная ошибка при обработке PDF."
  const AiFailure: string := "Произошла неизвестная ошибка при обращении к ИИ."
  const ReminderDefault: string := "Время просмотреть эту статью!"
  const AnalyzedSuffix: string := "\" успешно проанализирован. Теперь вы можете "
    + "задавать вопросы, использовать быстрые действия или сохранить статью в библиотеку."

  /** The bot's message once a file's text is extracted. */
  function AnalyzedText(fileName: string): string {
    "\"" + fileName + AnalyzedSuffix
  }

  /** `e instanceof Error ? e.message : fallback`; `None` is a thrown value
      that is not an `Error`. */
  function ErrorText(e: Option<string>, fallback: string): (r: string)
    ensures e.Some? ==> r == e.value
    ensures e.None? ==> r == fallback
  {
    match e
    case Some(m) => m
    case None => fallback
  }

  /** The text of the alert for a due article. */
  function ReminderAlert(a: LibraryArticle): string {
    "Напоминание для \"" + a.fileName + "\":\n"
      + (if Truthy(a.reminderNote) then a.reminderNote.value else ReminderDefault)
  }

  /** The reminder test at `now`, as a function value to filter with. */
  function DueAt(now: int): LibraryArticle -> bool {
    a => Due(a, now)
  }

  /** The alert of each article, in order. */
  function Alerts(xs: seq<LibraryArticle>): seq<string> {
    seq(|xs|, k requires 0 <= k < |xs| => ReminderAlert(xs[k]))
  }

  /** The alerts one reminder check raises, in library order: one for each
      due article and no other. */
  function DueAlerts(lib: seq<LibraryArticle>, now: int): (r: seq<string>)
    ensures r == Alerts(Filter(lib, DueAt(now)))
    ensures |r| <= |lib|
    ensures (forall k :: 0 <= k < |lib| ==> !Due(lib[k], now)) ==> r == []
    decreases |lib|
  {
    if lib == [] then []
    else
      var init := lib[..|lib| - 1];
      var last := lib[|lib| - 1];
      assert lib == init + [last];
      FilterAppend(init, [last], DueAt(now));
      FilterCons(last, [], DueAt(now));
      assert [last] + [] == [last];
      DueAlerts(init, now) + (if Due(last, now) then [ReminderAlert(last)] else [])
  }

  /** The guard of `handleSendMessage` as the source writes it: two tests,
      the second of which catches a context-free request made while an
      answer is being generated. */
  function SendGuard(pdfText: Option<string>, state: AppState, contextFree: bool): bool {
    if (!Truthy(pdfText) && !contextFree) || state == Generating then
      if !contextFree then false
      else state != Generating
    else state != Generating
  }

  /** A message is sent exactly when no answer is being generated and
      there is a text or the request needs none. */
  lemma SendGuardExactly(pdfText: Option<string>, state: AppState, contextFree: bool)
    ensures SendGuard(pdfText, state, contextFree) <==> state != Generating && (Truthy(pdfText) || contextFree)
  {
  }

  /** What a sent message waits on: the arguments of `generateResponse`,
      and the text the handler captured, which decides the state it ends
      in. */
  datatype PendingSend = PendingSend(prompt: string, context: Option<string>, thinking: bool, grounding: bool, captured: Option<string>)

  /** The state the handler ends in, from the text it captured. */
  function SettledState(captured: Option<string>): (r: AppState)
    ensures r == Ready || r == Idle
    ensures r == Ready <==> Truthy(captured)
  {
    if Truthy(captured) then Ready else Idle
  }

  /** One more article walked adds its alert, if it is due. */
  lemma DueAlertsStep(lib: seq<LibraryArticle>, i: nat, now: int)
    requires i < |lib|
    ensures DueAlerts(lib[..i + 1], now) == DueAlerts(lib[..i], now) + (if Due(lib[i], now) then [ReminderAlert(lib[i])] else [])
  {
    assert lib[..i + 1][..i] == lib[..i];
  }

  /** Where a reminder check walking `snapshot` stands after `i`
      articles: the ids are those of the snapshot and, with unique ids,
      the first `i` entries are cleared as `ClearDue` says and the rest are
      untouched. */
  predicate ClearedUpTo(snapshot: seq<LibraryArticle>, lib: seq<LibraryArticle>, i: nat, now: int) {
    i <= |snapshot| && |lib| == |snapshot|
    && (forall k :: 0 <= k < |snapshot| ==> lib[k].id == snapshot[k].id)
    && (UniqueIds(snapshot) ==>
         (forall k :: 0 <= k < i ==> lib[k] == ClearDue(snapshot, now)[k])
         && (forall k :: i <= k < |snapshot| ==> lib[k] == snapshot[k]))
  }

  /** One due article of a library with unique ids is cleared by the
      update: the entry at its position becomes the cleared copy and no
      other entry changes. */
  lemma ClearStep(snapshot: seq<LibraryArticle>, before: seq<LibraryArticle>, after: seq<LibraryArticle>, i: nat, now: int)
    requires i < |snapshot| && Due(snapshot[i], now)
    requires ClearedUpTo(snapshot, before, i, now)
    requires after == UpdateArticle(before, ClearReminder(snapshot[i]))
    ensures ClearedUpTo(snapshot, after, i + 1, now)
  {
    UpdateKeepsIds(before, ClearReminder(snapshot[i]));
  }

  /** An article that is not due is passed over. */
  lemma KeepStep(snapshot: seq<LibraryArticle>, lib: seq<LibraryArticle>, i: nat, now: int)
    requires i < |snapshot| && !Due(snapshot[i], now)
    requires ClearedUpTo(snapshot, lib, i, now)
    ensures ClearedUpTo(snapshot, lib, i + 1, now)
  {
  }

  /** At the end of the walk a library with unique ids is `ClearDue`. */
  lemma ClearedAll(snapshot: seq<LibraryArticle>, lib: seq<LibraryArticle>, now: int)
    requires ClearedUpTo(snapshot, lib, |snapshot|, now)
    ensures |lib| == |snapshot| && forall k :: 0 <= k < |lib| ==> lib[k].id == snapshot[k].id
    ensures UniqueIds(snapshot) ==> lib == ClearDue(snapshot, now)
  {
  }

  class AppModel {
    var library: seq<LibraryArticle>
    var workspace: seq<LibraryArticle>
    var theme: Theme
    var appState: AppState
    var pdfFile: Option<File>
    var pdfText: Option<string>
    var messages: seq<ChatMessage>
    var error: Option<string>
    var isThinkingMode: bool

    /** The state after mounting: the saved theme or SYSTEM, the saved
        lists, and `resetState`. */
    constructor(savedTheme: Option<Theme>, savedLibrary: seq<LibraryArticle>, savedWorkspace: seq<LibraryArticle>)
      ensures theme == if savedTheme.Some? then savedTheme.value else System
      ensures library == savedLibrary && workspace == savedWorkspace
      ensures pdfFile.None? && pdfText.None? && error.None? && appState == Idle && !isThinkingMode
      ensures messages == [ChatMessage("initial", Welcome, Bot)]
    {
      theme := if savedTheme.Some? then savedTheme.value else System;
      library := savedLibrary;
      workspace := savedWorkspace;
      pdfFile := None;
      pdfText := None;
      error := None;
      messages := [ChatMessage("initial", Welcome, Bot)];
      appState := Idle;
      isThinkingMode := false;
    }

    /** `resetState`: no file, no text, no error, the welcome message
        only, IDLE, thinking off. The lists and the theme stay. */
    method ResetState()
      modifies this
      ensures pdfFile.None? && pdfText.None? && error.None? && appState == Idle && !isThinkingMode
      ensures messages == [ChatMessage("initial", Welcome, Bot)]
      ensures library == old(library) && workspace == old(workspace) && theme == old(theme)
    {
      pdfFile := None;
      pdfText := None;
      error := None;
      messages := [ChatMessage("initial", Welcome, Bot)];
      appState := Idle;
      isThinkingMode := false;
    }

    /** `handleFileChange` up to the `await`. Without a file it resets;
        with one it goes to PROCESSING_PDF with the file set, and the
        returned flag says the text extraction starts. The old text is
        kept while the file is processed. */
    method FileChange(file: Option<File>, now: nat) returns (started: bool)
      modifies this
      ensures started <==> file.Some?
      ensures file.None? ==>
        pdfFile.None? && pdfText.None? && error.None? && appState == Idle && !isThinkingMode
        && messages == [ChatMessage("initial", Welcome, Bot)]
      ensures file.Some? ==>
        appState == ProcessingPdf && error.None? && pdfFile == file && pdfText == old(pdfText)
        && messages == [ChatMessage(NatToString(now), "Обработка " + file.value.name + "...", Bot)]
        && isThinkingMode == old(isThinkingMode)
      ensures library == old(library) && workspace == old(workspace) && theme == old(theme)
    {
      if file.None? {
        ResetState();
        return false;
      }
      appState := ProcessingPdf;
      error := None;
      pdfFile := file;
      messages := [ChatMessage(NatToString(now), "Обработка " + file.value.name + "...", Bot)];
      return true;
    }

    /** `handleFileChange` after the extraction settles: with the text,
        READY; with a failure, ERROR with the message recorded and the
        file and the text cleared. */
    method FileProcessed(file: File, outcome: Result<string, Option<string>>, now: nat)
      modifies this
      ensures outcome.Ok? ==>
        pdfText == Some(outcome.value) && appState == Ready
        && pdfFile == old(pdfFile) && error == old(error)
        && messages == old(messages) + [ChatMessage(NatToString(now) + "2",
             AnalyzedText(file.name), Bot)]
      ensures outcome.Err? ==>
        pdfText.None? && pdfFile.None? && appState == Error
        && error == Some(ErrorText(outcome.error, PdfFailure))
        && messages == old(messages) + [ChatMessage(NatToString(now) + "err", "Ошибка: " + ErrorText(outcome.error, PdfFailure), Bot)]
      ensures library == old(library) && workspace == old(workspace) && theme == old(theme)
      ensures isThinkingMode == old(isThinkingMode)
    {
      match outcome
      case Ok(text) =>
        pdfText := Some(text);
        appState := Ready;
        messages := messages + [ChatMessage(NatToString(now) + "2",
          AnalyzedText(file.name), Bot)];
      case Err(e) =>
        var msg := ErrorText(e, PdfFailure);
        error := Some(msg);
        appState := Error;
        messages := messages + [ChatMessage(NatToString(now) + "err", "Ошибка: " + msg, Bot)];
        pdfFile := None;
        pdfText := None;
    }

    /** `handleSendMessage` up to the `await`. When the guard lets it
        through, the state is GENERATING, the error is cleared, the user's
        message is appended, and the call to make is returned; otherwise
        nothing changes. */
    method SendMessage(prompt: string, useGrounding: bool, isContextFree: bool, now: nat) returns (call: Option<PendingSend>)
      modifies this
      ensures call.Some? <==> old(appState) != Generating && (Truthy(old(pdfText)) || isContextFree)
      ensures call.None? ==> appState == old(appState) && error == old(error) && messages == old(messages)
      ensures call.Some? ==>
        appState == Generating && error.None?
        && messages == old(messages) + [ChatMessage(NatToString(now), prompt, User)]
        && call.value == PendingSend(prompt, if isContextFree then None else old(pdfText), isThinkingMode, useGrounding, old(pdfText))
      ensures pdfText == old(pdfText) && pdfFile == old(pdfFile) && isThinkingMode == old(isThinkingMode)
      ensures library == old(library) && workspace == old(workspace) && theme == old(theme)
    {
      SendGuardExactly(pdfText, appState, isContextFree);
      if (!Truthy(pdfText) && !isContextFree) || appState == Generating {
        if !isContextFree {
          return None;
        }
      }
      if appState == Generating {
        return None;
      }
      error := None;
      appState := Generating;
      messages := messages + [ChatMessage(NatToString(now), prompt, User)];
      var context := if isContextFree then None else pdfText;
      return Some(PendingSend(prompt, context, isThinkingMode, useGrounding, pdfText));
    }

    /** `handleSendMessage` after the answer settles: the bot's answer or
        an apology with the error is appended, and the state is READY when
        the captured text was non-empty and IDLE otherwise, so it is never
        left GENERATING. */
    method MessageAnswered(call: PendingSend, outcome: Result<string, Option<string>>, now: nat)
      modifies this
      ensures appState == SettledState(call.captured) && appState != Generating
      ensures outcome.Ok? ==>
        messages == old(messages) + [ChatMessage(NatToString(now) + "bot", outcome.value, Bot)]
        && error == old(error)
      ensures outcome.Err? ==>
        error == Some(ErrorText(outcome.error, AiFailure))
        && messages == old(messages) + [ChatMessage(NatToString(now) + "boterr",
             "Извините, я столкнулся с ошибкой: " + ErrorText(outcome.error, AiFailure), Bot)]
      ensures pdfText == old(pdfText) && pdfFile == old(pdfFile) && isThinkingMode == old(isThinkingMode)
      ensures library == old(library) && workspace == old(workspace) && theme == old(theme)
    {
      if outcome.Ok? {
        messages := messages + [ChatMessage(NatToString(now) + "bot", outcome.value, Bot)];
      } else {
        var msg := ErrorText(outcome.error, AiFailure);
        error := Some(msg);
        messages := messages + [ChatMessage(NatToString(now) + "boterr", "Извините, я столкнулся с ошибкой: " + msg, Bot)];
      }
      appState := SettledState(call.captured);
    }

    /** `handleSaveToLibrary` up to the `await`: the article to add, if
        the guard on the current library lets it through. Nothing
        changes. */
    method BeginSave(dataUrl: string, now: int) returns (article: Option<LibraryArticle>)
      ensures article.Some? <==> pdfFile.Some? && Truthy(pdfText) && !HasId(library, ArticleId(pdfFile.value))
      ensures article.Some? ==>
        article.value.id == ArticleId(pdfFile.value) && article.value.pdfText == pdfText.value
        && article.value.rating == 0 && article.value.tags == [] && article.value.notes == []
        && article.value.comments == Some([])
      ensures article.Some? ==> article.value == NewArticle(pdfFile.value, pdfText.value, dataUrl, now)
    {
      article := SaveCandidate(library, pdfFile, pdfText, dataUrl, now);
    }

    /** `handleSaveToLibrary` once the file has been read, as written: the
        article goes in front of the library as it is now, with no second id
        test, so ids stay unique only if no other save added this id in the
        meantime. */
    method FinishSave(article: LibraryArticle)
      modifies this
      ensures library == PrependAsWritten(old(library), article)
      ensures old(UniqueIds(library)) && !HasId(old(library), article.id) ==> UniqueIds(library)
      ensures workspace == old(workspace) && theme == old(theme) && appState == old(appState)
      ensures pdfFile == old(pdfFile) && pdfText == old(pdfText) && messages == old(messages) && error == old(error)
    {
      library := PrependAsWritten(library, article);
    }

    /** The corrected end of `handleSaveToLibrary`: the article goes in
        front, unless the library has gained its id in the meantime. */
    method FinishSaveChecked(article: LibraryArticle)
      modifies this
      ensures library == PrependChecked(old(library), article)
      ensures old(UniqueIds(library)) ==> UniqueIds(library)
      ensures workspace == old(workspace) && theme == old(theme) && appState == old(appState)
      ensures pdfFile == old(pdfFile) && pdfText == old(pdfText) && messages == old(messages) && error == old(error)
    {
      PrependCheckedKeepsUnique(library, article);
      library := PrependChecked(library, article);
    }

    /** `handleUpdateLibraryArticle`. */
    method UpdateLibraryArticle(article: LibraryArticle)
      modifies this
      ensures library == UpdateArticle(old(library), article)
      ensures old(UniqueIds(library)) ==> UniqueIds(library)
      ensures workspace == old(workspace) && theme == old(theme) && appState == old(appState)
      ensures pdfFile == old(pdfFile) && pdfText == old(pdfText) && messages == old(messages) && error == old(error)
    {
      UpdateKeepsIds(library, article);
      library := UpdateArticle(library, article);
    }

    /** `handleDeleteFromLibrary`. */
    method DeleteFromLibrary(id: string)
      modifies this
      ensures library == DeleteArticle(old(library), id) && !HasId(library, id)
      ensures old(UniqueIds(library)) ==> UniqueIds(library)
      ensures workspace == old(workspace) && theme == old(theme) && appState == old(appState)
      ensures pdfFile == old(pdfFile) && pdfText == old(pdfText) && messages == old(messages) && error == old(error)
    {
      DeleteRemovesId(library, id);
      if UniqueIds(library) {
        DeleteKeepsUnique(library, id);
      }
      library := DeleteArticle(library, id);
    }

    /** `handleShareToWorkspace`. */
    method ShareToWorkspaceById(id: string)
      modifies this
      ensures workspace == ShareToWorkspace(old(workspace), library, id)
      ensures old(UniqueIds(workspace)) ==> UniqueIds(workspace)
      ensures library == old(library) && theme == old(theme) && appState == old(appState)
      ensures pdfFile == old(pdfFile) && pdfText == old(pdfText) && messages == old(messages) && error == old(error)
    {
      if UniqueIds(workspace) {
        ShareKeepsUnique(workspace, library, id);
      }
      workspace := ShareToWorkspace(workspace, library, id);
    }

    /** `handleThemeToggle`. */
    method ThemeToggle()
      modifies this
      ensures theme == NextTheme(old(theme))
      ensures library == old(library) && workspace == old(workspace) && appState == old(appState)
      ensures pdfFile == old(pdfFile) && pdfText == old(pdfText) && messages == old(messages) && error == old(error)
    {
      theme := NextTheme(theme);
    }

    /** One article of the reminder check's walk over `snapshot`: a due
        article raises its alert and is stored without its reminder; any
        other is left alone. */
    method ClearIfDue(snapshot: seq<LibraryArticle>, i: nat, now: int) returns (alert: seq<string>)
      requires i < |snapshot| && ClearedUpTo(snapshot, library, i, now)
      modifies this
      ensures alert == if Due(snapshot[i], now) then [ReminderAlert(snapshot[i])] else []
      ensures ClearedUpTo(snapshot, library, i + 1, now)
      ensures workspace == old(workspace) && theme == old(theme) && appState == old(appState)
      ensures pdfFile == old(pdfFile) && pdfText == old(pdfText) && messages == old(messages) && error == old(error)
    {
      var article := snapshot[i];
      if Due(article, now) {
        alert := [ReminderAlert(article)];
        ghost var before := library;
        UpdateLibraryArticle(ClearReminder(article));
        ClearStep(snapshot, before, library, i, now);
      } else {
        alert := [];
        KeepStep(snapshot, library, i, now);
      }
    }

    /** One run of `checkReminders` at time `now`: it walks the library as
        it was when the check started, and for each due article raises an
        alert and stores the copy with the reminder removed. With unique
        ids the library ends as `ClearDue` of the old one. */
    method CheckReminders(now: int) returns (alerts: seq<string>)
      modifies this
      ensures alerts == DueAlerts(old(library), now)
      ensures |library| == |old(library)|
      ensures forall k :: 0 <= k < |library| ==> library[k].id == old(library)[k].id
      ensures old(UniqueIds(library)) ==> library == ClearDue(old(library), now)
      ensures workspace == old(workspace) && theme == old(theme) && appState == old(appState)
      ensures pdfFile == old(pdfFile) && pdfText == old(pdfText) && messages == old(messages) && error == old(error)
    {
      var snapshot := library;
      alerts := [];
      var i := 0;
      while i < |snapshot|
        invariant ClearedUpTo(snapshot, library, i, now)
        invariant alerts == DueAlerts(snapshot[..i], now)
        invariant workspace == old(workspace) && theme == old(theme) && appState == old(appState)
        invariant pdfFile == old(pdfFile) && pdfText == old(pdfText) && messages == old(messages) && error == old(error)
      {
        var alert := ClearIfDue(snapshot, i, now);
        DueAlertsStep(snapshot, i, now);
        alerts := alerts + alert;
        i := i + 1;
      }
      assert snapshot[..i] == snapshot;
      ClearedAll(snapshot, library, now);
    }
  }
}
