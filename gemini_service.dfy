/** The decisions the AI service makes around its network calls: which
    model and configuration a request gets, how the prompt embeds the
    article, how the web sources of a grounded answer are filtered,
    de-duplicated and numbered, how errors become messages, the shape check
    on graph data, and how the comparison embeds each article. The calls
    themselves are parameters: the reply, or the error they fail with. */
module GeminiService {
  import opened Wrappers
  import opened Text
  import opened Types
  import opened Lists

  const ProModel: string := "gemini-2.5-pro"
  const FlashModel: string := "gemini-2.5-flash"
  const ThinkingBudget: nat := 32768
  const ContextLimit: nat := 30000
  const ComparisonLimit: nat := 15000

  const Scholarly: string := "Ты — полезный ИИ-ассистент для студентов и исследователей. Твоя задача — анализировать предоставленный текст из научного документа и отвечать на вопросы точно и кратко. При поиске в интернете, ссылайся на авторитетные научные источники."
  const Writing: string := "Ты — полезный ИИ-ассистент для письма. Твоя задача — помогать пользователям улучшать их тексты, проверять стиль и перефразировать, основываясь только на предоставленном тексте."

  // ---------------------------------------------------------------------
  // The request

  /** The request `generateContent` receives: the model, the prompt, and
      the fields of `config` that were set. */
  datatype Request = Request(model: string, contents: string, thinkingBudget: Option<nat>, tools: bool, systemInstruction: Option<string>)

  const ContextHead: string := "Based on the following scientific article context, please answer the user's request. Provide your answer in well-structured markdown format.\n\n--- CONTEXT START ---\n"
  const ContextTail: string := "\n--- CONTEXT END ---\n\nUser Request: "

  /** The prompt before any instruction is put in front: with a non-empty
      context, the template around the context's first 30000 characters;
      otherwise the request as typed. */
  function PromptBody(prompt: string, context: Option<string>): string {
    if Truthy(context) then ContextHead + Take(context.value, ContextLimit) + ContextTail + prompt
    else prompt
  }

  /** Nothing past the 30000th character of the context reaches the
      model, so the prompt's length is bounded whatever the article's. */
  lemma ContextTruncated(prompt: string, context: string)
    requires |context| > ContextLimit
    ensures PromptBody(prompt, Some(context)) == PromptBody(prompt, Some(context[..ContextLimit]))
    ensures |PromptBody(prompt, Some(context))| == |ContextHead| + ContextLimit + |ContextTail| + |prompt|
  {
    assert Take(context[..ContextLimit], ContextLimit) == context[..ContextLimit];
  }

  /** A short context is embedded whole. */
  lemma ShortContextWhole(prompt: string, context: string)
    requires 0 < |context| <= ContextLimit
    ensures PromptBody(prompt, Some(context)) == ContextHead + context + ContextTail + prompt
  {
    assert Take(context, ContextLimit) == context[..|context|] == context;
  }

  // ---------------------------------------------------------------------
  // Sources of a grounded answer

  /** `chunk.web`, whose `uri` and `title` may be missing. */
  datatype Web = Web(uri: Option<string>, title: Option<string>)

  datatype Chunk = Chunk(web: Option<Web>)

  datatype Source = Source(uri: string, title: string)

  /** `!!(web && web.uri && web.title)`. */
  predicate IsSourceChunk(c: Chunk) {
    c.web.Some? && Truthy(c.web.value.uri) && Truthy(c.web.value.title)
  }

  function ToSource(c: Chunk): Source
    requires IsSourceChunk(c)
  {
    Source(c.web.value.uri.value, c.web.value.title.value)
  }

  /** The map and filter of lines 62-64: the webs with a uri and a title,
      in chunk order. */
  function ValidSources(chunks: seq<Chunk>): (r: seq<Source>)
    ensures |r| <= |chunks|
    ensures forall k :: 0 <= k < |r| ==> r[k].uri != [] && r[k].title != []
  {
    var kept := Filter(chunks, IsSourceChunk);
    seq(|kept|, k requires 0 <= k < |kept| => ToSource(kept[k]))
  }

  /** A source comes from a chunk with a uri and a title, and every such
      chunk gives one. */
  lemma ValidSourcesMembers(chunks: seq<Chunk>)
    ensures forall c :: c in chunks && IsSourceChunk(c) ==> ToSource(c) in ValidSources(chunks)
    ensures forall s :: s in ValidSources(chunks) ==> exists c :: c in chunks && IsSourceChunk(c) && ToSource(c) == s
  {
    var kept := Filter(chunks, IsSourceChunk);
    var r := ValidSources(chunks);
    forall c | c in chunks && IsSourceChunk(c) ensures ToSource(c) in r {
      FilterMembers(chunks, IsSourceChunk, c);
      var k :| 0 <= k < |kept| && kept[k] == c;
      assert r[k] == ToSource(c);
    }
    forall s | s in r ensures exists c :: c in chunks && IsSourceChunk(c) && ToSource(c) == s {
      var k :| 0 <= k < |r| && r[k] == s;
      FilterMembers(chunks, IsSourceChunk, kept[k]);
    }
  }

  predicate HasUri(s: seq<Source>, u: string) {
    exists k :: 0 <= k < |s| && s[k].uri == u
  }

  predicate DistinctUris(s: seq<Source>) {
    forall i, j :: 0 <= i < j < |s| ==> s[i].uri != s[j].uri
  }

  function IndexOfUri(s: seq<Source>, u: string): (r: Option<nat>)
    ensures r.Some? ==> r.value < |s| && s[r.value].uri == u
    ensures r.None? ==> !HasUri(s, u)
    decreases |s|
  {
    if s == [] then None
    else if s[0].uri == u then Some(0)
    else
      match IndexOfUri(s[1..], u)
      case Some(k) => Some(k + 1)
      case None => NotInTail(s, u); None
  }

  lemma NotInTail(s: seq<Source>, u: string)
    requires s != [] && s[0].uri != u && !HasUri(s[1..], u)
    ensures !HasUri(s, u)
  {
    forall k | 0 <= k < |s| ensures s[k].uri != u {
      if k > 0 {
        assert s[k] == s[1..][k - 1];
      }
    }
  }

  /** `map.set(x.uri, x)`: a key already present keeps its place and takes
      the new value; a new key goes at the end. */
  function Put(acc: seq<Source>, x: Source): seq<Source> {
    match IndexOfUri(acc, x.uri)
    case Some(k) => acc[k := x]
    case None => acc + [x]
  }

  /** `Array.from(new Map(sources.map(item => [item.uri, item])).values())`. */
  function Dedup(s: seq<Source>): seq<Source>
    decreases |s|
  {
    if s == [] then [] else Put(Dedup(s[..|s| - 1]), s[|s| - 1])
  }

  /** The last source with the uri. */
  function LastWith(s: seq<Source>, u: string): (r: Option<Source>)
    ensures r.None? ==> !HasUri(s, u)
    ensures r.Some? ==> r.value.uri == u && HasUri(s, u)
    ensures r.Some? ==>
      exists j :: 0 <= j < |s| && s[j] == r.value && forall j' :: j < j' < |s| ==> s[j'].uri != u
    decreases |s|
  {
    if s == [] then None
    else if s[|s| - 1].uri == u then Some(s[|s| - 1])
    else
      var r := LastWith(s[..|s| - 1], u);
      LastWithStep(s, s[..|s| - 1], u, r);
      r
  }

  lemma LastWithStep(s: seq<Source>, p: seq<Source>, u: string, r: Option<Source>)
    requires s != [] && p == s[..|s| - 1] && s[|s| - 1].uri != u
    requires r.None? ==> !HasUri(p, u)
    requires r.Some? ==> r.value.uri == u && HasUri(p, u)
    requires r.Some? ==>
      exists j :: 0 <= j < |p| && p[j] == r.value && forall j' :: j < j' < |p| ==> p[j'].uri != u
    ensures r.None? ==> !HasUri(s, u)
    ensures r.Some? ==> r.value.uri == u && HasUri(s, u)
    ensures r.Some? ==>
      exists j :: 0 <= j < |s| && s[j] == r.value && forall j' :: j < j' < |s| ==> s[j'].uri != u
  {
    if r.None? {
      forall k | 0 <= k < |s| ensures s[k].uri != u {
        if k < |p| {
          assert s[k] == p[k];
        }
      }
    } else {
      var k :| 0 <= k < |p| && p[k].uri == u;
      assert s[k] == p[k];
      var j :| 0 <= j < |p| && p[j] == r.value && forall j' :: j < j' < |p| ==> p[j'].uri != u;
      LastAtStep(s, p, u, j);
    }
  }

  /** The last position with the uri stays the last one when a source
      with another uri is appended. */
  lemma LastAtStep(s: seq<Source>, p: seq<Source>, u: string, j: nat)
    requires s != [] && p == s[..|s| - 1] && s[|s| - 1].uri != u
    requires j < |p| && forall j' :: j < j' < |p| ==> p[j'].uri != u
    ensures j < |s| && s[j] == p[j] && forall j' :: j < j' < |s| ==> s[j'].uri != u
  {
    forall j' | j < j' < |s| ensures s[j'].uri != u {
      if j' < |p| {
        assert s[j'] == p[j'];
      }
    }
  }

  /** The position of the first source with the uri; `|s|` if none. */
  function FirstAt(s: seq<Source>, u: string): (r: nat)
    ensures r <= |s|
    ensures forall j :: 0 <= j < r ==> s[j].uri != u
    ensures r < |s| ==> s[r].uri == u
    decreases |s|
  {
    if s == [] then 0
    else if s[0].uri == u then 0
    else
      var r := FirstAt(s[1..], u);
      assert forall j :: 1 <= j < r + 1 ==> s[j] == s[1..][j - 1];
      1 + r
  }

  lemma FirstAtAppend(s: seq<Source>, x: Source, u: string)
    ensures HasUri(s, u) ==> FirstAt(s + [x], u) == FirstAt(s, u) < |s|
    ensures !HasUri(s, u) && x.uri == u ==> FirstAt(s + [x], u) == |s|
  {
    var t := s + [x];
    assert forall j :: 0 <= j < |s| ==> t[j] == s[j];
    assert t[|s|] == x;
    if HasUri(s, u) {
      var k :| 0 <= k < |s| && s[k].uri == u;
      assert FirstAt(s, u) < |s|;
    }
  }

  /** What the de-duplicated list is: distinct uris, the same uris as the
      input, each entry the last source with its uri, and the entries in
      the order their uris first appear. */
  ghost predicate DedupSpec(s: seq<Source>, r: seq<Source>) {
    && DistinctUris(r)
    && (forall u :: HasUri(r, u) <==> HasUri(s, u))
    && (forall k :: 0 <= k < |r| ==> LastWith(s, r[k].uri) == Some(r[k]))
    && (forall i, j :: 0 <= i < j < |r| ==> FirstAt(s, r[i].uri) < FirstAt(s, r[j].uri))
  }

  lemma {:induction false} DedupMeetsSpec(s: seq<Source>)
    ensures DedupSpec(s, Dedup(s))
    decreases |s|
  {
    if s != [] {
      var p := s[..|s| - 1];
      var x := s[|s| - 1];
      DedupMeetsSpec(p);
      assert s == p + [x];
      PutStep(p, x, Dedup(p));
    }
  }

  lemma PutStep(p: seq<Source>, x: Source, acc: seq<Source>)
    requires DedupSpec(p, acc)
    ensures DedupSpec(p + [x], Put(acc, x))
  {
    match IndexOfUri(acc, x.uri)
    case Some(k) => PutExisting(p, x, acc, k);
    case None => PutNew(p, x, acc);
  }

  lemma AppendUris(p: seq<Source>, x: Source)
    ensures forall u :: HasUri(p + [x], u) <==> HasUri(p, u) || x.uri == u
  {
    var s := p + [x];
    assert forall k :: 0 <= k < |p| ==> s[k] == p[k];
    assert s[|p|] == x;
    forall u | HasUri(s, u) && x.uri != u ensures HasUri(p, u) {
      var k :| 0 <= k < |s| && s[k].uri == u;
      assert k < |p|;
    }
  }

  lemma LastWithAppend(p: seq<Source>, x: Source, u: string)
    ensures LastWith(p + [x], u) == if x.uri == u then Some(x) else LastWith(p, u)
  {
    var s := p + [x];
    assert s[..|s| - 1] == p;
  }

  /** A uri seen before: its entry takes the new value in place. */
  lemma PutExisting(p: seq<Source>, x: Source, acc: seq<Source>, k: nat)
    requires DedupSpec(p, acc)
    requires k < |acc| && acc[k].uri == x.uri
    ensures DedupSpec(p + [x], acc[k := x])
  {
    var r := acc[k := x];
    PutExistingDistinct(x, acc, k, r);
    PutExistingUris(p, x, acc, k, r);
    PutExistingLast(p, x, acc, k, r);
    PutExistingOrder(p, x, acc, k, r);
  }

  lemma PutExistingDistinct(x: Source, acc: seq<Source>, k: nat, r: seq<Source>)
    requires DistinctUris(acc)
    requires k < |acc| && acc[k].uri == x.uri && r == acc[k := x]
    ensures DistinctUris(r)
  {
    assert forall i :: 0 <= i < |r| ==> r[i].uri == acc[i].uri;
  }

  lemma PutExistingUris(p: seq<Source>, x: Source, acc: seq<Source>, k: nat, r: seq<Source>)
    requires forall u :: HasUri(acc, u) <==> HasUri(p, u)
    requires k < |acc| && acc[k].uri == x.uri && r == acc[k := x]
    ensures forall u :: HasUri(r, u) <==> HasUri(p + [x], u)
  {
    AppendUris(p, x);
    assert forall i :: 0 <= i < |r| ==> r[i].uri == acc[i].uri;
    forall u ensures HasUri(r, u) <==> HasUri(acc, u) {
      if HasUri(r, u) {
        var i :| 0 <= i < |r| && r[i].uri == u;
        assert acc[i].uri == u;
      }
      if HasUri(acc, u) {
        var i :| 0 <= i < |acc| && acc[i].uri == u;
        assert r[i].uri == u;
      }
    }
    assert HasUri(acc, x.uri);
  }

  lemma PutExistingLast(p: seq<Source>, x: Source, acc: seq<Source>, k: nat, r: seq<Source>)
    requires DistinctUris(acc)
    requires forall i :: 0 <= i < |acc| ==> LastWith(p, acc[i].uri) == Some(acc[i])
    requires k < |acc| && acc[k].uri == x.uri && r == acc[k := x]
    ensures forall i :: 0 <= i < |r| ==> LastWith(p + [x], r[i].uri) == Some(r[i])
  {
    forall i | 0 <= i < |r| ensures LastWith(p + [x], r[i].uri) == Some(r[i]) {
      LastWithAppend(p, x, r[i].uri);
    }
  }

  lemma PutExistingOrder(p: seq<Source>, x: Source, acc: seq<Source>, k: nat, r: seq<Source>)
    requires forall u :: HasUri(acc, u) <==> HasUri(p, u)
    requires forall i, j :: 0 <= i < j < |acc| ==> FirstAt(p, acc[i].uri) < FirstAt(p, acc[j].uri)
    requires k < |acc| && acc[k].uri == x.uri && r == acc[k := x]
    ensures forall i, j :: 0 <= i < j < |r| ==> FirstAt(p + [x], r[i].uri) < FirstAt(p + [x], r[j].uri)
  {
    forall i | 0 <= i < |r| ensures r[i].uri == acc[i].uri && FirstAt(p + [x], r[i].uri) == FirstAt(p, acc[i].uri) {
      assert HasUri(acc, acc[i].uri);
      FirstAtAppend(p, x, acc[i].uri);
    }
  }

  /** A new uri: the source goes at the end. */
  lemma PutNew(p: seq<Source>, x: Source, acc: seq<Source>)
    requires DedupSpec(p, acc)
    requires !HasUri(acc, x.uri)
    ensures DedupSpec(p + [x], acc + [x])
  {
    PutNewDistinct(x, acc);
    PutNewUris(p, x, acc);
    PutNewLast(p, x, acc);
    PutNewOrder(p, x, acc);
  }

  lemma PutNewDistinct(x: Source, acc: seq<Source>)
    requires DistinctUris(acc) && !HasUri(acc, x.uri)
    ensures DistinctUris(acc + [x])
  {
    var r := acc + [x];
    forall i, j | 0 <= i < j < |r| ensures r[i].uri != r[j].uri {
      assert r[i] == acc[i];
      if j < |acc| {
        assert r[j] == acc[j];
      }
    }
  }

  lemma PutNewUris(p: seq<Source>, x: Source, acc: seq<Source>)
    requires forall u :: HasUri(acc, u) <==> HasUri(p, u)
    ensures forall u :: HasUri(acc + [x], u) <==> HasUri(p + [x], u)
  {
    AppendUris(p, x);
    AppendUris(acc, x);
  }

  lemma PutNewLast(p: seq<Source>, x: Source, acc: seq<Source>)
    requires forall k :: 0 <= k < |acc| ==> LastWith(p, acc[k].uri) == Some(acc[k])
    requires !HasUri(acc, x.uri)
    ensures forall k :: 0 <= k < |acc + [x]| ==> LastWith(p + [x], (acc + [x])[k].uri) == Some((acc + [x])[k])
  {
    var r := acc + [x];
    forall i | 0 <= i < |r| ensures LastWith(p + [x], r[i].uri) == Some(r[i]) {
      LastWithAppend(p, x, r[i].uri);
      if i < |acc| {
        assert r[i] == acc[i];
      }
    }
  }

  lemma PutNewOrder(p: seq<Source>, x: Source, acc: seq<Source>)
    requires forall u :: HasUri(acc, u) <==> HasUri(p, u)
    requires forall i, j :: 0 <= i < j < |acc| ==> FirstAt(p, acc[i].uri) < FirstAt(p, acc[j].uri)
    requires !HasUri(acc, x.uri)
    ensures forall i, j :: 0 <= i < j < |acc + [x]| ==> FirstAt(p + [x], (acc + [x])[i].uri) < FirstAt(p + [x], (acc + [x])[j].uri)
  {
    var s := p + [x];
    var r := acc + [x];
    FirstAtAppend(p, x, x.uri);
    forall i | 0 <= i < |acc| ensures r[i] == acc[i] && FirstAt(s, acc[i].uri) == FirstAt(p, acc[i].uri) < |p| {
      assert HasUri(acc, acc[i].uri);
      FirstAtAppend(p, x, acc[i].uri);
    }
    assert r[|acc|] == x;
  }

  /** The unique sources of a list of chunks. */
  function UniqueSources(chunks: seq<Chunk>): (r: seq<Source>)
    ensures DedupSpec(ValidSources(chunks), r)
  {
    DedupMeetsSpec(ValidSources(chunks));
    Dedup(ValidSources(chunks))
  }

  /** `${index + 1}. [${source.title}](${source.uri})`. */
  function SourceLine(i: nat, s: Source): string {
    NatToString(i + 1) + ". [" + s.title + "](" + s.uri + ")"
  }

  function SourceLines(sources: seq<Source>): (r: seq<string>)
    ensures |r| == |sources|
    ensures forall i :: 0 <= i < |r| ==> r[i] == SourceLine(i, sources[i])
  {
    seq(|sources|, i requires 0 <= i < |sources| => SourceLine(i, sources[i]))
  }

  function SourcesMarkdown(sources: seq<Source>): string {
    Join(SourceLines(sources), "\n")
  }

  /** When no title or uri holds a line feed, the block reads back as one
      line per source, numbered from 1 in order. */
  lemma SourcesMarkdownLines(sources: seq<Source>)
    requires |sources| >= 1
    requires forall k :: 0 <= k < |sources| ==> '\n' !in sources[k].title && '\n' !in sources[k].uri
    ensures Split(SourcesMarkdown(sources), '\n') == SourceLines(sources)
  {
    var lines := SourceLines(sources);
    forall k | 0 <= k < |lines| ensures '\n' !in lines[k] {
      var n := NatToString(k + 1);
      assert forall j :: 0 <= j < |n| ==> n[j] != '\n';
      assert lines[k] == n + ". [" + sources[k].title + "](" + sources[k].uri + ")";
    }
    assert "\n" == ['\n'];
    SplitJoin(lines, '\n');
  }

  const SourcesHeader: string := "\n\n**Источники:**\n"

  /** The sources block is added when grounding is on, the metadata has
      chunks, and at least one unique source remains. */
  predicate ShowsSources(useGrounding: bool, chunks: Option<seq<Chunk>>) {
    useGrounding && chunks.Some? && |UniqueSources(chunks.value)| > 0
  }

  /** A chunk list with no usable web source adds nothing. */
  lemma NoUsableSource(chunks: seq<Chunk>)
    requires forall k :: 0 <= k < |chunks| ==> !IsSourceChunk(chunks[k])
    ensures !ShowsSources(true, Some(chunks))
  {
    FilterDropsAll(chunks, IsSourceChunk);
    assert ValidSources(chunks) == [];
  }

  // ---------------------------------------------------------------------
  // Errors

  const FinishReasonText: string := "candidate must have finish reason FINISH_REASON_OTHER"
  const BadRequestText: string := "400 Bad Request"
  const SafetyMessage: string := "Извините, ответ не может быть сгенерирован, так как запрос был заблокирован из-за настроек безопасности. Пожалуйста, попробуйте переформулировать ваш запрос."
  const BadRequestMessage: string := "Произошла ошибка в запросе. Возможно, `systemInstruction` и `tools` не могут использоваться вместе для этой модели. Пожалуйста, попробуйте отключить 'Расширенный режим' при использовании поиска."
  const ReplyFailurePrefix: string := "Не удалось получить ответ от ИИ: "
  const UnknownReplyFailure: string := "Произошла неизвестная ошибка при взаимодействии с ИИ."

  /** The text `generateResponse` returns when the call fails with `e`
      (`None` for a thrown value that is not an `Error`): the finish-reason
      test first, then the bad-request test, then the message itself. */
  function ErrorMessage(e: Option<string>): (r: string)
    ensures e.None? ==> r == UnknownReplyFailure
    ensures e.Some? && Contains(e.value, FinishReasonText) ==> r == SafetyMessage
    ensures e.Some? && !Contains(e.value, FinishReasonText) && Contains(e.value, BadRequestText) ==> r == BadRequestMessage
    ensures e.Some? && !Contains(e.value, FinishReasonText) && !Contains(e.value, BadRequestText) ==>
      r == ReplyFailurePrefix + e.value
  {
    match e
    case None => UnknownReplyFailure
    case Some(m) =>
      if Contains(m, FinishReasonText) then SafetyMessage
      else if Contains(m, BadRequestText) then BadRequestMessage
      else ReplyFailurePrefix + m
  }

  /** Any other error's message is kept whole after the prefix. */
  lemma OtherErrorKept(m: string)
    requires !Contains(m, FinishReasonText) && !Contains(m, BadRequestText)
    ensures ErrorMessage(Some(m))[|ReplyFailurePrefix|..] == m
  {
  }

  // ---------------------------------------------------------------------
  // generateResponse

  /** What `generateContent` returned: the text and the grounding chunks,
      if the metadata had any. */
  datatype Reply = Reply(text: string, chunks: Option<seq<Chunk>>)

  /** `generateResponse`. `reply` is how the call made with `request`
      settled: a reply, or the error it failed with. */
  method GenerateResponse(prompt: string, context: Option<string>, isThinkingMode: bool, useGrounding: bool,
                          reply: Result<Reply, Option<string>>) returns (request: Request, text: string)
    ensures request.model == if isThinkingMode && !useGrounding then ProModel else FlashModel
    ensures request.thinkingBudget == if isThinkingMode && !useGrounding then Some(ThinkingBudget) else None
    ensures useGrounding ==>
      request.tools && request.systemInstruction.None? && request.contents == Scholarly + "\n\n" + PromptBody(prompt, context)
    ensures !useGrounding ==>
      !request.tools && request.contents == PromptBody(prompt, context)
      && request.systemInstruction == Some(if Truthy(context) then Scholarly else Writing)
    ensures reply.Ok? && ShowsSources(useGrounding, reply.value.chunks) ==>
      text == reply.value.text + SourcesHeader + SourcesMarkdown(UniqueSources(reply.value.chunks.value))
    ensures reply.Ok? && !ShowsSources(useGrounding, reply.value.chunks) ==> text == reply.value.text
    ensures reply.Err? ==> text == ErrorMessage(reply.error)
  {
    var modelName := if isThinkingMode && !useGrounding then ProModel else FlashModel;
    var thinkingBudget: Option<nat> := None;
    var tools := false;
    var systemInstruction: Option<string> := None;
    var fullPrompt := "";
    if Truthy(context) {
      fullPrompt := ContextHead + Take(context.value, ContextLimit) + ContextTail + prompt;
    } else {
      fullPrompt := prompt;
    }
    if isThinkingMode && !useGrounding {
      thinkingBudget := Some(ThinkingBudget);
    }
    if useGrounding {
      tools := true;
      fullPrompt := Scholarly + "\n\n" + fullPrompt;
    } else {
      systemInstruction := Some(if Truthy(context) then Scholarly else Writing);
    }
    request := Request(modelName, fullPrompt, thinkingBudget, tools, systemInstruction);
    if reply.Err? {
      return request, ErrorMessage(reply.error);
    }
    var responseText := reply.value.text;
    if useGrounding && reply.value.chunks.Some? {
      var unique := UniqueSources(reply.value.chunks.value);
      if |unique| > 0 {
        Regroup(responseText, SourcesHeader, SourcesMarkdown(unique));
        responseText := responseText + (SourcesHeader + SourcesMarkdown(unique));
      }
    }
    text := responseText;
  }

  // ---------------------------------------------------------------------
  // generateGraphData

  /** The parsed JSON: `nodes` and `edges` may be missing. */
  datatype JsonGraph = JsonGraph(nodes: Option<seq<GraphNode>>, edges: Option<seq<GraphEdge>>)

  /** How the call and the parse can fail: a `SyntaxError` from
      `JSON.parse`, or a thrown value with its message (`None` when it is
      not an `Error`). */
  datatype GraphFailure = SyntaxError | Thrown(message: Option<string>)

  const ShapeError: string := "Получен некорректный формат JSON для графа."
  const GraphParseFailure: string := "Не удалось разобрать JSON-ответ от ИИ. Он мог вернуть невалидный формат."
  const GraphFailurePrefix: string := "Не удалось сгенерировать граф знаний: "
  const UnknownGraphFailure: string := "Произошла неизвестная ошибка при создании графа."

  /** `generateGraphData` once the call and the parse have settled: graph
      data with both arrays, or the message of the error it throws. The
      shape error is thrown inside the `try`, so it comes out wrapped. */
  function GraphResult(parsed: Result<JsonGraph, GraphFailure>): (r: Result<GraphData, string>)
    ensures r.Ok? <==> parsed.Ok? && parsed.value.nodes.Some? && parsed.value.edges.Some?
    ensures r.Ok? ==> r.value == GraphData(parsed.value.nodes.value, parsed.value.edges.value)
    ensures parsed.Ok? && !r.Ok? ==> r.error == GraphFailurePrefix + ShapeError
    ensures parsed == Err(SyntaxError) ==> r == Err(GraphParseFailure)
    ensures parsed.Err? && parsed.error.Thrown? ==>
      r == Err(if parsed.error.message.Some? then GraphFailurePrefix + parsed.error.message.value else UnknownGraphFailure)
  {
    match parsed
    case Ok(j) =>
      if j.nodes.None? || j.edges.None? then Err(GraphFailurePrefix + ShapeError)
      else Ok(GraphData(j.nodes.value, j.edges.value))
    case Err(SyntaxError) => Err(GraphParseFailure)
    case Err(Thrown(m)) =>
      if m.Some? then Err(GraphFailurePrefix + m.value) else Err(UnknownGraphFailure)
  }

  /** Empty arrays pass the check: only a missing field is rejected. */
  lemma EmptyGraphAccepted()
    ensures GraphResult(Ok(JsonGraph(Some([]), Some([])))) == Ok(GraphData([], []))
    ensures GraphResult(Ok(JsonGraph(Some([]), None))).Err?
  {
  }

  // ---------------------------------------------------------------------
  // generateComparison

  /** The block one article contributes, with at most 15000 characters of
      its text. */
  function ComparisonBlock(i: nat, a: ComparisonArticle): string {
    "\n--- СТАТЬЯ " + NatToString(i + 1) + ": " + a.fileName + " ---\n"
      + Take(a.pdfText, ComparisonLimit)
      + "\n--- КОНЕЦ СТАТЬИ " + NatToString(i + 1) + " ---\n"
  }

  function ComparisonBlocks(articles: seq<ComparisonArticle>): (r: seq<string>)
    ensures |r| == |articles|
    ensures forall i :: 0 <= i < |r| ==> r[i] == ComparisonBlock(i, articles[i])
  {
    seq(|articles|, i requires 0 <= i < |articles| => ComparisonBlock(i, articles[i]))
  }

  /** `articlesContext`. */
  function ComparisonContext(articles: seq<ComparisonArticle>): string {
    Join(ComparisonBlocks(articles), "\n\n")
  }

  /** Only the first 15000 characters of an article reach the prompt. */
  lemma ComparisonTruncated(i: nat, a: ComparisonArticle)
    requires |a.pdfText| > ComparisonLimit
    ensures ComparisonBlock(i, a) == ComparisonBlock(i, a.(pdfText := a.pdfText[..ComparisonLimit]))
    ensures |ComparisonBlock(i, a)| == |ComparisonBlock(i, a.(pdfText := []))| + ComparisonLimit
  {
    assert Take(a.pdfText[..ComparisonLimit], ComparisonLimit) == a.pdfText[..ComparisonLimit];
  }

  /** `articleTitles`: `"Статья i (name)"` for each article, joined by
      `, `. */
  /** The title of the article numbered `n` in the prompt. */
  function ArticleTitle(n: nat, name: string): string {
    "\"Статья " + NatToString(n) + " (" + name + ")\""
  }

  function TitleList(articles: seq<ComparisonArticle>): seq<string> {
    seq(|articles|, i requires 0 <= i < |articles| => ArticleTitle(i + 1, articles[i].fileName))
  }

  function ArticleTitles(articles: seq<ComparisonArticle>): string {
    Join(TitleList(articles), ", ")
  }

  /** One article gives its own title, numbered 1. */
  lemma ArticleTitlesOne(a: ComparisonArticle)
    ensures ArticleTitles([a]) == ArticleTitle(1, a.fileName)
  {
  }

  /** Each further article adds `, ` and its title, numbered after the
      ones before it. */
  lemma ArticleTitlesSnoc(articles: seq<ComparisonArticle>, x: ComparisonArticle)
    requires articles != []
    ensures ArticleTitles(articles + [x]) == ArticleTitles(articles) + ", " + ArticleTitle(|articles| + 1, x.fileName)
  {
    assert TitleList(articles + [x]) == TitleList(articles) + [ArticleTitle(|articles| + 1, x.fileName)];
    JoinSnoc(TitleList(articles), ArticleTitle(|articles| + 1, x.fileName), ", ");
  }

  const ComparisonFailurePrefix: string := "Не удалось сгенерировать сравнение: "
  const UnknownComparisonFailure: string := "Произошла " + "неизвестная ошибка " + "при сравнении " + "статей."

  /** The text `generateComparison` returns when the call fails. */
  function ComparisonError(e: Option<string>): (r: string)
    ensures e.Some? ==> r == ComparisonFailurePrefix + e.value
    ensures e.None? ==> r == UnknownComparisonFailure
  {
    if e.Some? then ComparisonFailurePrefix + e.value else UnknownComparisonFailure
  }

  /** Each failure gets its own text: a message is kept whole behind the
      prefix, and no message gives the fixed text. */
  lemma ComparisonErrorInjective(e1: Option<string>, e2: Option<string>)
    ensures ComparisonError(e1) == ComparisonError(e2) ==> e1 == e2
    ensures e1.Some? ==> ComparisonError(e1)[|ComparisonFailurePrefix|..] == e1.value
  {
    if e1.Some? {
      assert ComparisonError(e1)[|ComparisonFailurePrefix|..] == e1.value;
      assert ComparisonError(e1)[0] == 'Н';
    }
    if e2.Some? {
      assert ComparisonError(e2)[|ComparisonFailurePrefix|..] == e2.value;
      assert ComparisonError(e2)[0] == 'Н';
    }
    assert UnknownComparisonFailure[0] == 'П';
  }
}
