# Scientific AI assistant: a Dafny model of its core

This project models the logic of a browser application for reading
scientific PDF articles with an AI model.

- **Chat.** The user opens a PDF and asks questions about its text. The
  answer comes back as markdown, and the application renders it to HTML
  with its own converter.
- **Library.** Analysed articles can be saved to a personal library. There
  each article carries notes, comma-separated tags, a star rating and an
  optional reminder.
- **Workspace.** Library articles can be shared to a workspace, where other
  readers add comments.
- **Comparison.** Two or more selected library articles can be compared by
  the model.
- **Sign-in.** The form signs up and signs in with an email, a password
  and a captcha.
- **Build script.** A small script rewrites the non-ASCII characters of the
  application's string literals as `\uXXXX` escapes.

The model follows each source file's own form:

- **Pure code** becomes functions and lemmas. This covers the markdown
  converter, the list operations, the tag parser, the comment update, and
  the request and error logic of the AI service.
- **Loops** become methods with loop invariants. These are the escaping
  loop and the reminder check.
- **Components that keep state** become classes whose methods change their
  fields: the application, the library panel, both cards and the sign-in
  form.
- **Awaits.** A handler that waits for a promise is split in two methods.
  One covers what happens before the `await`. The other covers what
  happens once it settles, with the settled outcome as a parameter.

Modules, one file each:

- `Wrappers`: `Option` and `Result`.
- `Text`: JavaScript's `trim`, `split`, `join`, `substring`, `indexOf`,
  `includes` and `Number.toString`.
- `Lists`: `filter` and the stable `sort` of JavaScript arrays.
- `GlobalReplace`: `String.prototype.replace` with a global regex. There is
  one driver that finds the leftmost match, replaces it and resumes after
  it. Each regex of the converter has its own hand-written matcher that
  follows JavaScript regex semantics. `.` excludes all four JavaScript line
  terminators, `^` in multiline mode matches after any of them, and `\s`
  is JavaScript's white space.
- `MarkdownBlocks`, `MarkdownInline`, `MarkdownLists`, `MarkdownBreaks` and
  `Markdown`: the ten passes of `formatMarkdown` and their composition.
- `EscapeUnicode`: the build script.
- `Types`: the application's records.
- `Library`: the library and workspace list operations.
- `App`: the application state and its handlers.
- `LibraryPanel`, `ArticleCard`, `SharedArticleCard` and `Login`: the
  components.
- `GeminiService`: the AI service.

## Model

| member | source | states |
|---|---|---|
| Markdown.FormatMarkdown | utils/markdown.ts:2-83 | a missing or empty text gives `''`; the result never holds a line feed |
| Markdown.BreaksHaveNoLineFeed | utils/markdown.ts:77-80 | after the line-feed pass and the three clean-ups no `\n` is left |
| Markdown.PlainStructure | utils/markdown.ts:10-74 | text without any markup character goes through the nine structural passes unchanged |
| Markdown.PlainTextOnlyGetsBreaks | utils/markdown.ts:7-82 | for such text the converter only turns each `\n` into `<br />` |
| Markdown.HelloWorld | utils/markdown.ts:2-83 | `"Hello\nWorld"` becomes `"Hello<br />World"` |
| Markdown.TwoLines | utils/markdown.ts:77 | two lines joined by `\n` become the lines joined by `<br />` |
| MarkdownBlocks.EscapeAngles | utils/markdown.ts:11 | the escaped code holds no `<` and no `>` |
| MarkdownBlocks.EscapeAnglesCons | utils/markdown.ts:11 | escaping works character by character: `<` becomes `&lt;`, `>` becomes `&gt;`, anything else (also `&`) stays |
| MarkdownBlocks.EscapeAnglesAppend | utils/markdown.ts:11 | escaping a concatenation escapes each part |
| MarkdownBlocks.EscapeAnglesIdentity | utils/markdown.ts:11 | code without angle brackets is left as it is |
| MarkdownBlocks.MatchFence | utils/markdown.ts:10 | a block matches exactly when a fence opens at the position and a later fence closes it; the capture ends at the first closing fence, and the replacement is the `<pre><code>` wrapper around the escaped capture |
| MarkdownBlocks.UnclosedFenceIsLiteral | utils/markdown.ts:10-13 | text in which no fence closes an earlier one leaves the fence pass unchanged |
| MarkdownBlocks.TableHeaderRow | utils/markdown.ts:17 | the header row is `\|`, a non-empty run without line feeds, `\|`, an optional `\r` and a `\n` |
| MarkdownBlocks.TableSeparatorRow | utils/markdown.ts:17 | a hit is the separator row: `\|`, separator characters `-`, `\|`, `:` and blank, of which the last is a `\|` with at least one before it, then `\n` or `\r\n` |
| MarkdownBlocks.SeparatorRowFound | utils/markdown.ts:17 | every such row is matched, up to the end of its line break |
| MarkdownBlocks.TableBodyRow | utils/markdown.ts:17 | a hit is a body row: `\|`, then the line up to its LAST `\|` at least two characters on, then a `\r` and a `\n` where present |
| MarkdownBlocks.BodyRowFound | utils/markdown.ts:17 | every such row is matched, up to that end |
| MarkdownBlocks.TableBodyEnd | utils/markdown.ts:17 | the greedy run of body rows ends where no further row matches |
| MarkdownBlocks.MatchTable | utils/markdown.ts:16-41 | a table matches exactly at a line start with `\|`, a header row and a separator row; it is replaced by the HTML of the header inside its outer pipes and of the greedy run of body rows after the separator |
| MarkdownBlocks.RowCells | utils/markdown.ts:30-34 | a body row `\|c1\|…\|cn\|` keeps all of its cells, in order |
| MarkdownBlocks.HeaderDropsOuterCells | utils/markdown.ts:19-23 | the header capture `c1\|…\|cn` loses its first and last cells, so the header has n-2 `<th>` cells, each holding the trimmed middle cell |
| MarkdownBlocks.TwoColumnHeaderIsEmpty | utils/markdown.ts:19-25 | a two-column table has an empty header row |
| MarkdownBlocks.EmptyBodyHasOneEmptyRow | utils/markdown.ts:27-37 | a table without body rows still gets one empty `<tr>` |
| MarkdownBlocks.BodyCellBreaksAreNoOp | utils/markdown.ts:33 | each body cell renders as `<td>` around the trimmed cell, since a row holds no `\n` for the `<br/>` replace to find |
| MarkdownInline.MatchLink | utils/markdown.ts:45 | `[t](u)` with a non-empty title free of `]` and a non-empty url free of `)` becomes the anchor with `u` and `t` copied verbatim |
| MarkdownInline.LinkFound | utils/markdown.ts:45 | every such shape is found and replaced |
| MarkdownInline.MatchSpan | utils/markdown.ts:48-51 | the lazy span closes at the first closing delimiter on the same line, and there is none when no such delimiter exists |
| MarkdownInline.MatchEmphasis | utils/markdown.ts:48-51 | the first alternative wins; matches exactly when one of the two spans closes, replaced by the tag around the text between |
| MarkdownInline.MatchBold | utils/markdown.ts:48 | the bold pass is the emphasis match with `**`, `__` and `strong`; a hit lies inside the text |
| MarkdownInline.MatchItalic | utils/markdown.ts:51 | the italic pass is the emphasis match with `*`, `_` and `em`; a hit lies inside the text |
| MarkdownInline.MatchCode | utils/markdown.ts:54-57 | a backtick pair with text between becomes the `<code>` element of the escaped text |
| MarkdownInline.CodeFound | utils/markdown.ts:54-57 | every such pair is found |
| MarkdownInline.NoItalicWithoutDelimiter | utils/markdown.ts:51 | no span starts at a character other than `*` and `_` |
| MarkdownInline.OneCharSpan | utils/markdown.ts:51 | a one-character delimiter closes at its next occurrence on the line |
| MarkdownInline.ItalicSplice | utils/markdown.ts:51 | `p d x d q` becomes `p <em>x</em> q` when nothing else holds an emphasis character |
| MarkdownInline.FencedItalicIsStillRendered | utils/markdown.ts:10-51 | `*x*` inside a fenced code block still becomes `<em>x</em>` |
| MarkdownInline.SnakeCaseBecomesItalic | utils/markdown.ts:51 | `a_b_c` becomes `a<em>b</em>c` |
| MarkdownInline.UnclosedBoldBecomesEmptyItalic | utils/markdown.ts:48-51 | `**x` with no closer survives the bold pass and then becomes `<em></em>x` |
| MarkdownInline.EmphasisInCodeIsEscaped | utils/markdown.ts:51-57 | emphasis markup inside backticks is shown as escaped `&lt;em&gt;…&lt;/em&gt;` text |
| MarkdownInline.EscapedTagged | utils/markdown.ts:55 | `<tag>x</tag>` escapes to `&lt;tag&gt;x&lt;/tag&gt;` |
| MarkdownLists.MarkerEnd | utils/markdown.ts:60 | a list marker is `*`, `-` or digits then `.` |
| MarkdownLists.MatchListItem | utils/markdown.ts:60 | a hit is an item line: a line start, blanks, a marker, all the blanks after it (at least one) and the rest of the line, which becomes `<li>rest</li>` |
| MarkdownLists.ListItemFound | utils/markdown.ts:60 | every item line is matched, as a whole |
| MarkdownLists.MarkerFound | utils/markdown.ts:60 | a marker is found whole and does not start with a blank |
| MarkdownLists.DashItem | utils/markdown.ts:60 | the line `- text` becomes `<li>text</li>` |
| MarkdownLists.MatchItemGap | utils/markdown.ts:61 | a hit is `</li>`, all the blanks after it and `<li>`, and becomes `</li><li>` |
| MarkdownLists.ItemGapFound | utils/markdown.ts:61 | every such gap is matched |
| MarkdownLists.RunItem | utils/markdown.ts:65 | one item of a run: `<li>`, the first `</li>` after it on the same line, and all the blanks after that |
| MarkdownLists.RunItemFound | utils/markdown.ts:65 | every such item is found, up to the end of its blanks |
| MarkdownLists.RunEnd | utils/markdown.ts:65 | a run ends where no further item matches |
| MarkdownLists.MatchRun | utils/markdown.ts:65-74 | a run matches exactly where an item starts, spans the greedy chain of items, after which no item follows, and is replaced by the callback's result |
| MarkdownLists.RunIsNeverOrdered | utils/markdown.ts:66-71 | a run holding `<ol>` or `<ul>` is left as it is, otherwise it is wrapped in `<ul class=…>` and never in `<ol>` |
| MarkdownLists.WrapHitIsRunOrBulleted | utils/markdown.ts:65-74 | the wrap pass outputs the run itself or the run in a `<ul>` |
| MarkdownBreaks.NewlinesToBreaks | utils/markdown.ts:77 | no line feed is left |
| MarkdownBreaks.BlockOpenAt | utils/markdown.ts:78 | length 3 exactly for `<ul` and `<ol`, 4 exactly for `<pre` and `<div`, nothing otherwise |
| MarkdownBreaks.BlockCloseAt | utils/markdown.ts:79 | length 5 exactly for `</ul>` and `</ol>`, 6 exactly for `</pre>` and `</div>`, 8 exactly for `</table>`, nothing otherwise |
| MarkdownBreaks.MatchBreakBeforeBlock | utils/markdown.ts:78 | a hit is a `<br />`, all the blanks after it and a block tag start, and becomes the tag start |
| MarkdownBreaks.BreakBeforeBlockFound | utils/markdown.ts:78 | every such break is matched and dropped |
| MarkdownBreaks.MatchBreakAfterBlock | utils/markdown.ts:79 | a hit is a block closing tag, all the blanks after it and a `<br />`, and becomes the closing tag |
| MarkdownBreaks.BreakAfterBlockFound | utils/markdown.ts:79 | every such break is matched and dropped |
| MarkdownBreaks.MatchItemBreak | utils/markdown.ts:80 | `<li><br />` becomes `<li>`, and only there |
| MarkdownBreaks.CleanupKeepsNoLineFeed | utils/markdown.ts:78-80 | the three clean-ups bring in no line feed |
| MarkdownBreaks.OnlyBreakTags | utils/markdown.ts:77 | in text without `<`, every `<` after the line-feed pass opens a `<br />` |
| MarkdownBreaks.CleanupOfBreaksOnly | utils/markdown.ts:77-80 | on such text the clean-ups change nothing |
| EscapeUnicode.EscapeNonAsciiInStringLiteral | escape-unicode.mjs:13-39 | the loop's output is the literal's quote, the escaped body, and the quote again |
| EscapeUnicode.HexDigit | escape-unicode.mjs:28 | a lower-case hex digit of the given value |
| EscapeUnicode.ToHex | escape-unicode.mjs:28 | `toString(16)` gives a non-empty string of hex digits |
| EscapeUnicode.ToHexRoundTrip | escape-unicode.mjs:28 | the hex digits denote the number |
| EscapeUnicode.ToHexLength | escape-unicode.mjs:27-28 | a code unit has at most four hex digits |
| EscapeUnicode.PadStart | escape-unicode.mjs:28 | `padStart` puts zeros in front up to the width and keeps the digits |
| EscapeUnicode.PadStartValue | escape-unicode.mjs:28 | the padding does not change the value |
| EscapeUnicode.Hex4RoundTrip | escape-unicode.mjs:28 | exactly four lower-case hex digits that denote the unit |
| EscapeUnicode.EscapeUnitAscii | escape-unicode.mjs:28 | an escape is all ASCII |
| EscapeUnicode.EscapeBodyLength | escape-unicode.mjs:16-39 | the output length is the input length plus five per escaped unit |
| EscapeUnicode.AsciiBodyUnchanged | escape-unicode.mjs:34-36 | an all-ASCII body is copied unchanged |
| EscapeUnicode.NonAsciiOnlyAfterBackslash | escape-unicode.mjs:20-36 | a non-ASCII unit survives only right behind a copied backslash |
| EscapeUnicode.LiteralShape | escape-unicode.mjs:14-38 | the output keeps the input's quotes and rewrites only the body; an all-ASCII literal is returned unchanged |
| EscapeUnicode.EscapePreservesValue | escape-unicode.mjs:17-37 | the escaped body denotes the same JavaScript string value as the original |
| EscapeUnicode.Explore | escape-unicode.mjs:11 | the lazy loop of `stringRe` ends on a quote of the opening kind |
| EscapeUnicode.ExploreFindsQuote | escape-unicode.mjs:11 | the loop fails only when no quote of that kind follows |
| EscapeUnicode.ScanEnd | escape-unicode.mjs:11 | the escape-aware scan that takes `\\.` before any other unit ends just past a quote of the opening kind |
| EscapeUnicode.ExploreFollowsScan | escape-unicode.mjs:11 | when the escape-aware scan finds a closing quote, the regex ends there |
| EscapeUnicode.ExploreBacktracksToLast | escape-unicode.mjs:11 | when the escape-aware scan finds none, backtracking ends the literal at the last quote of the opening kind (in `"\"x` with nothing after, the literal is `"\"`, its backslash read as a plain unit) |
| EscapeUnicode.ExploreFirstQuote | escape-unicode.mjs:11 | with no backslash before it, the first quote of the opening kind closes the literal |
| EscapeUnicode.LiteralEndsAtScan | escape-unicode.mjs:11-42 | a literal whose escape-aware scan finds a closing quote is exactly the text up to that quote, escaped |
| EscapeUnicode.MatchLiteral | escape-unicode.mjs:11-42 | a literal matches at a quote and is replaced by its escaped form |
| EscapeUnicode.LiteralAt | escape-unicode.mjs:11 | a quote opens a literal exactly when another quote of its kind comes later |
| EscapeUnicode.AsciiFileUnchanged | escape-unicode.mjs:42 | an all-ASCII file is not changed by the rewrite |
| EscapeUnicode.LiteralKeepsValue | escape-unicode.mjs:42 | each rewritten literal keeps its quotes and its value |
| Library.ArticleIdInjective | App.tsx:243 | different files get different `name-size` ids, also when names hold dashes, because the size part has none |
| Library.NewArticle | App.tsx:249-259 | the new article has the file's id and name, the text, rating 0, no tags, no notes, no comments and no reminder |
| Library.SaveCandidate | App.tsx:240-259 | an article is built exactly when there is a file, a non-empty text and an id not yet in the library |
| Library.PrependAsWritten | App.tsx:260 | the update as written: the article in front of the library, which follows unchanged; ids stay unique only if the id is new |
| Library.PrependChecked | App.tsx:260 | the corrected update: the article goes in front only when its id is new in the library it is applied to |
| Library.PrependCheckedKeepsUnique | App.tsx:244-260 | the corrected update keeps library ids unique |
| Library.SaveRaceAsWritten | App.tsx:244-260 | two saves of one file that both pass the id test before either finishes leave two articles with one id |
| Library.SaveRaceChecked | App.tsx:244-260 | with the corrected update the second article with the same id is dropped |
| Library.SaveToLibrary | App.tsx:240-260 | at most one article is put in front, with a new id, rating 0 and empty tags; unique ids stay unique |
| Library.SaveExistingIsNoOp | App.tsx:244-246 | saving a file whose id is present changes nothing |
| Library.UpdateArticle | App.tsx:263-265 | exactly the entries with the article's id are replaced, length and order kept |
| Library.UpdateKeepsIds | App.tsx:263-265 | ids stay in place and unique, and an unknown id changes nothing |
| Library.UpdateChangesOne | App.tsx:263-265 | with unique ids, one position is replaced |
| Library.DeleteRemovesId | App.tsx:267-269 | no entry with the id is left, and every other entry stays |
| Library.DeleteKeepsUnique | App.tsx:267-269 | deleting keeps ids unique |
| Library.DeleteKeepsOrder | App.tsx:267-269 | deleting keeps the relative order |
| Library.FindById | App.tsx:291 | `find` returns the first entry with the id, and returns one exactly when one exists |
| Library.ShareToWorkspace | App.tsx:289-295 | nothing happens when the id is in the workspace or not in the library; otherwise the first library match goes in front |
| Library.ShareKeepsUnique | App.tsx:289-295 | workspace ids stay unique |
| Library.ClearReminder | App.tsx:129-131 | the copy has no reminder date and note, and nothing else changes |
| Library.ClearDue | App.tsx:121-134 | one reminder check keeps the length |
| Library.ClearDueExactly | App.tsx:121-134 | exactly the due articles lose their reminder, the others stay, and none is due afterwards |
| App.NextTheme | App.tsx:328-334 | the toggle always changes the theme |
| App.ThreeTogglesRestore | App.tsx:328-334 | three toggles restore the theme and two do not |
| App.DueAlerts | App.tsx:123-126 | the alerts are the reminder alerts of exactly the due articles, in library order |
| App.SendGuardExactly | App.tsx:191-196 | the two tests of the guard let a message through exactly when no answer is being generated and there is a text or the request is context-free |
| App.SettledState | App.tsx:214 | the final state is READY when the captured text is non-empty, else IDLE |
| App.AppModel.constructor | App.tsx:38-99 | the saved theme or SYSTEM, the saved lists, and the reset state |
| App.AppModel.ResetState | App.tsx:69-82 | no file, text or error, only the welcome message, IDLE, thinking mode off |
| App.AppModel.FileChange | App.tsx:164-173 | no file resets; a file sets PROCESSING_PDF, clears the error and shows the processing message |
| App.AppModel.FileProcessed | App.tsx:175-187 | success stores the text, sets READY and adds the success message; failure sets the error, ERROR, adds the error message and clears the file and text |
| App.AppModel.SendMessage | App.tsx:190-205 | the call is made exactly when the guard passes; then the error is cleared, the state is GENERATING, the user's message is added, and the context is the text unless the request is context-free |
| App.AppModel.MessageAnswered | App.tsx:205-215 | the bot's answer or the error message is added, and the state settles to READY or IDLE from the captured text |
| App.AppModel.BeginSave | App.tsx:240-259 | an article is given exactly when a file and non-empty text are present and the file's id is new; it is the new article of that file, text, data URL and time (no tags, rating 0, no notes, no comments), and nothing changes yet |
| App.AppModel.FinishSave | App.tsx:260 | as written: the article goes in front of the library as it is now, with no second id test; ids stay unique when the id is new, and only then |
| App.AppModel.FinishSaveChecked | App.tsx:260 | the corrected update: the library becomes the checked prepend, and ids stay unique |
| App.AppModel.UpdateLibraryArticle | App.tsx:263-265 | the library is updated and ids stay unique |
| App.AppModel.DeleteFromLibrary | App.tsx:267-269 | the id is gone and ids stay unique |
| App.AppModel.ShareToWorkspaceById | App.tsx:289-295 | the workspace is updated and its ids stay unique |
| App.AppModel.ThemeToggle | App.tsx:328-334 | the theme moves to the next one |
| App.AppModel.CheckReminders | App.tsx:121-134 | one alert per due article in library order, ids kept in place, and with unique ids exactly the due articles lose their reminder |
| LibraryPanel.Toggle | components/LibraryPanel.tsx:27-37 | only the id's membership flips |
| LibraryPanel.ToggleSelectionTwice | components/LibraryPanel.tsx:27-37 | toggling twice restores the selection |
| LibraryPanel.CompareSelection | components/LibraryPanel.tsx:39-42 | the compare fires exactly when at least two of the list's articles are selected, and hands on only selected ones |
| LibraryPanel.CompareKeepsOrder | components/LibraryPanel.tsx:40 | the compared articles are exactly the list's selected ones, in list order |
| LibraryPanel.ShowBanner | components/LibraryPanel.tsx:50-54 | the banner shows exactly when at least two ids are selected |
| LibraryPanel.StaleSelection | components/LibraryPanel.tsx:40-54 | a selected id that is missing from the list counts for the banner but not for the compare |
| LibraryPanel.SortedNewestProperties | components/LibraryPanel.tsx:47 | the display order is a permutation of the articles, newest first, stable for equal dates |
| LibraryPanel.SharedExactly | components/LibraryPanel.tsx:83 | a card is marked shared exactly when the workspace (the id set of line 48) holds its id |
| LibraryPanel.Panel.constructor | components/LibraryPanel.tsx:25 | the selection starts empty |
| LibraryPanel.Panel.SelectArticle | components/LibraryPanel.tsx:27-37 | the selection is toggled at the id |
| LibraryPanel.Panel.CompareClick | components/LibraryPanel.tsx:39-45 | the compared articles are the selection of the list; after a compare the selection is empty, and otherwise it is unchanged |
| ArticleCard.TrimAll | components/ArticleCard.tsx:60 | each piece is trimmed |
| ArticleCard.ParseTags | components/ArticleCard.tsx:60 | every parsed tag is non-empty, trimmed and free of commas |
| ArticleCard.ParseTagsAppend | components/ArticleCard.tsx:60 | the tags on either side of a comma are parsed separately and kept in order |
| ArticleCard.ParseTagsText | components/ArticleCard.tsx:60 | parsing the `", "`-joined text of a clean tag list (the field's start value, line 19) gives the list back |
| ArticleCard.SplitTagsText | components/ArticleCard.tsx:60 | splitting the joined text at commas gives the first tag, then each later tag with a blank in front |
| ArticleCard.Merge | components/ArticleCard.tsx:56-79 | the saved article has the card's notes, parsed tags and rating, then the reminder fields; every other field is the article's |
| ArticleCard.UneditedMergeIsIdentity | components/ArticleCard.tsx:18-63 | saving a clean card without edits gives the article back |
| ArticleCard.Card.constructor | components/ArticleCard.tsx:18-23 | the form starts from the article, with the tags joined by `", "` |
| ArticleCard.Card.ReceiveProps | components/LibraryPanel.tsx:76-78 | a render with the stored article (the card is keyed by id) replaces the prop and keeps every form field set at mount |
| ArticleCard.Card.SaveChanges | components/ArticleCard.tsx:56-65 | the current article prop merged with the form, without reminder changes, and the card does not change |
| ArticleCard.Card.ReminderSave | components/ArticleCard.tsx:73-81 | the current article prop merged with the form and its reminder fields, and the dialog closes |
| ArticleCard.Card.ReminderClear | components/ArticleCard.tsx:83-91 | the current article prop loses its reminder and nothing else, unsaved edits are not applied, and the reminder fields are emptied |
| ArticleCard.SaveAfterReminder | components/ArticleCard.tsx:56-81 | a save after a reminder save and the render of its result builds on that result, so the reminder is kept |
| SharedArticleCard.SubmitComment | components/SharedArticleCard.tsx:17-35 | rejected exactly when the trimmed comment or author is empty; otherwise one comment of the trimmed inputs is appended, and no other field changes |
| SharedArticleCard.SubmitTwice | components/SharedArticleCard.tsx:31-34 | two accepted submissions add two comments behind the old ones |
| SharedArticleCard.SortedCommentsProperties | components/SharedArticleCard.tsx:89 | the shown comments are a permutation of the stored ones, oldest first, stable for equal times |
| SharedArticleCard.ShowEmptyState | components/SharedArticleCard.tsx:103 | the empty state shows exactly when the list is missing or empty |
| SharedArticleCard.CommentForm.constructor | components/SharedArticleCard.tsx:14-15 | the author field starts from the saved name |
| SharedArticleCard.CommentForm.ReceiveProps | components/WorkspacePanel.tsx:28-30 | a render with the stored article (the card is keyed by id) replaces the prop and keeps the comment, author and saved author |
| SharedArticleCard.CommentForm.EditComment | components/SharedArticleCard.tsx:118 | typing sets the comment field and nothing else |
| SharedArticleCard.CommentForm.EditAuthor | components/SharedArticleCard.tsx:109 | typing sets the author field and nothing else |
| SharedArticleCard.SubmitTwiceRendered | components/SharedArticleCard.tsx:17-38 | two accepted comments with the render of the stored article in between: the second builds on the first, and both follow the old comments |
| SharedArticleCard.CommentForm.SubmitForm | components/SharedArticleCard.tsx:17-38 | the updated article is the submitted comment added to the current article prop; on success the comment field empties and the trimmed author is saved, and a rejection raises an alert and changes nothing |
| GeminiService.GenerateResponse | services/geminiService.ts:10-90 | PRO exactly when thinking is on and grounding off, with the 32768 budget under the same condition; with grounding, tools and no instruction, and the scholarly instruction in front of the prompt; without grounding, the scholarly instruction for a non-empty context and the writing one otherwise; the sources block only when usable sources remain; the mapped error text on failure |
| GeminiService.ContextTruncated | services/geminiService.ts:25-32 | nothing after the 30000th character of the context reaches the prompt |
| GeminiService.ShortContextWhole | services/geminiService.ts:25-32 | a short context is embedded whole between the fixed head and tail |
| GeminiService.ValidSources | services/geminiService.ts:62-64 | only chunks with a uri and a title remain |
| GeminiService.ValidSourcesMembers | services/geminiService.ts:62-64 | every chunk with a uri and a title gives a source, and every source comes from one |
| GeminiService.LastWith | services/geminiService.ts:66 | the last source with the uri |
| GeminiService.FirstAt | services/geminiService.ts:66 | the position of the first source with the uri |
| GeminiService.DedupMeetsSpec | services/geminiService.ts:66 | the `Map` round trip gives distinct uris, the same uris, each entry the last source with its uri, in order of first occurrence |
| GeminiService.UniqueSources | services/geminiService.ts:62-66 | the unique sources meet that specification |
| GeminiService.SourceLines | services/geminiService.ts:69-70 | line i is `i+1. [title](uri)` |
| GeminiService.SourcesMarkdownLines | services/geminiService.ts:69-71 | the block reads back as its lines when no title or uri holds a line feed |
| GeminiService.NoUsableSource | services/geminiService.ts:61-68 | chunks without a usable web source add no block |
| GeminiService.ErrorMessage | services/geminiService.ts:80-89 | the finish-reason text gives the safety message, `400 Bad Request` gives the tools message, another `Error` gives the prefixed message, and anything else gives the fixed text |
| GeminiService.OtherErrorKept | services/geminiService.ts:87 | another error's message is kept whole after the prefix |
| GeminiService.GraphResult | services/geminiService.ts:119-137 | graph data is accepted exactly when both `nodes` and `edges` are present; a syntax error, a shape error and other errors give their messages |
| GeminiService.EmptyGraphAccepted | services/geminiService.ts:122-124 | empty arrays pass the check and a missing one fails |
| GeminiService.ComparisonBlocks | services/geminiService.ts:143-149 | one block per article, numbered from 1 |
| GeminiService.ComparisonTruncated | services/geminiService.ts:146 | only the first 15000 characters of an article reach the prompt |
| GeminiService.ArticleTitlesOne | services/geminiService.ts:151 | one article gives its own title, numbered 1 |
| GeminiService.ArticleTitlesSnoc | services/geminiService.ts:151 | each further article adds `, ` and its title, numbered after those before it |
| GeminiService.ComparisonErrorInjective | services/geminiService.ts:173-179 | each failure gets its own text: a message is kept whole behind the prefix, and no message gives the fixed text |
| Login.Flip | components/Login.tsx:58 | the mode switch always changes the mode |
| Login.SubmitCheck | components/Login.tsx:26-44 | a call is made exactly when the passwords agree (or the mode is sign-in) and a token is held; the mismatch is reported before the missing token; sign-in mode signs in and register mode creates the user, with the typed email and password |
| Login.SignInIgnoresConfirmation | components/Login.tsx:28 | the confirmation field plays no part when signing in |
| Login.CaptchaErrorText | components/Login.tsx:141-143 | the prefix, then the widget error's message or, when it is missing or empty, the fixed text |
| Login.LoginForm.constructor | components/Login.tsx:10-17 | sign-in mode, empty fields, no error, not submitting, no token, key 0 |
| Login.LoginForm.Edit | components/Login.tsx:89-120 | typing sets the three fields and nothing else |
| Login.LoginForm.ResetCaptcha | components/Login.tsx:19-22 | the token is dropped and the key goes up by one |
| Login.LoginForm.Submit | components/Login.tsx:24-44 | the error is cleared; then either the failing check's message is shown and no call is made, or the form is submitting, the submit button is disabled and the check's call is made |
| Login.LoginForm.AuthSettled | components/Login.tsx:45-54 | a rejection shows its message and resets the captcha; submitting is off whatever the outcome |
| Login.LoginForm.ToggleMode | components/Login.tsx:57-61 | the other mode, no error, no token, key one higher |
| Login.LoginForm.CaptchaSuccess | components/Login.tsx:135-138 | the token is held and the error cleared |
| Login.LoginForm.TokenExpired | components/Login.tsx:139 | the token is dropped and the button disabled |
| Login.LoginForm.NetworkError | components/Login.tsx:140 | only the message changes, to the network text |
| Login.LoginForm.JavascriptError | components/Login.tsx:141-143 | only the message changes, to the widget error text |
| Login.ToggleModeTwice | components/Login.tsx:57-61 | two toggles restore the mode, raise the key by two and leave no token |
| Login.RejectedThenSubmit | components/Login.tsx:33-54 | right after a rejection, submitting again is refused, because the token was dropped |

## Specification functions

These functions carry no row of their own: the lemmas and methods named
after each state what they mean.

- `Library.DeleteArticle` (App.tsx:268): `Library.DeleteRemovesId`, `Library.DeleteKeepsUnique`, `Library.DeleteKeepsOrder`.
- `LibraryPanel.SortedNewest` (components/LibraryPanel.tsx:47): `LibraryPanel.SortedNewestProperties`.
- `LibraryPanel.SharedIds` (components/LibraryPanel.tsx:48): `LibraryPanel.SharedExactly`.
- `SharedArticleCard.SortedComments` (components/SharedArticleCard.tsx:89): `SharedArticleCard.SortedCommentsProperties`.
- `GeminiService.PromptBody` (services/geminiService.ts:25-32): `GeminiService.ContextTruncated`, `GeminiService.ShortContextWhole`.
- `GeminiService.Dedup` (services/geminiService.ts:66): `GeminiService.DedupMeetsSpec`.
- `GeminiService.ArticleTitles` (services/geminiService.ts:151): `GeminiService.ArticleTitlesOne`, `GeminiService.ArticleTitlesSnoc`.
- `GeminiService.ComparisonContext` (services/geminiService.ts:143-149): `GeminiService.ComparisonBlocks`, `GeminiService.ComparisonTruncated`.
- `Login.LoginForm.SubmitEnabled` (components/Login.tsx:150): `Login.LoginForm.TokenExpired`, `Login.RejectedThenSubmit`.
- `App.SendGuard` (App.tsx:191-196): `App.SendGuardExactly`.
- `App.ErrorText` (App.tsx:181, 209) and `Login.FailureText` (components/Login.tsx:46-49): the failure branches of `App.AppModel.FileProcessed`, `App.AppModel.MessageAnswered` and `Login.LoginForm.AuthSettled`.
- `GeminiService.ComparisonError` (services/geminiService.ts:173-179): `GeminiService.ComparisonErrorInjective`.
- `EscapeUnicode.EscapeBody` (escape-unicode.mjs:16-39): `EscapeUnicode.EscapeNonAsciiInStringLiteral`, `EscapeUnicode.EscapeBodyLength`, `EscapeUnicode.EscapePreservesValue`.
- `EscapeUnicode.EscapeFile` (escape-unicode.mjs:42): `EscapeUnicode.AsciiFileUnchanged`, `EscapeUnicode.LiteralKeepsValue`.
- The passes `FencePass`, `TablePass`, `LinkPass`, `BoldPass`, `ItalicPass`, `CodePass`, `ItemPass`, `ItemGapPass`, `WrapPass`, `BreakBeforeBlockPass`, `BreakAfterBlockPass` and `ItemBreakPass` (utils/markdown.ts:10-80) are the global replacement with one matcher each: their matchers' rows above, `Markdown.FormatMarkdown` and the lemmas about whole passes.

## Left out

- I/O and vendor SDKs are parameters or absent. The calls to the AI model, the PDF text extraction, the file reading, Firebase authentication and the captcha widget are outside the model. Their results enter as parameters: `Result` outcomes, reply records, parsed JSON.
- Browser side effects are absent: `localStorage` reads and writes, the theme's media query and DOM classes, `alert` and `confirm`. Saved values are constructor parameters. Alerts are returned as strings or as a flag.
- Reminders are not scheduled. The one-minute `setInterval` is not modelled; `App.AppModel.CheckReminders` is one run of the check at an integer time.
- The card's one-second debounce `setTimeout` is not modelled; saving is the explicit `SaveChanges`.
- `getMinDateTime` is not modelled (it depends on the time zone).
- Dates are integers. ISO date strings and `Date.now()` become integers. The date field of the reminder form becomes `Option<int>`, where the empty field is `None`; the empty string the source stores is falsy too, so the reminder check treats both alike. Comment ids and message ids are the decimal text of the time in milliseconds, plus the handler's suffix.
- Characters are code points. `substring(0, 30000)` in the chat prompt and `substring(0, 15000)` in the comparison count UTF-16 code units; the model counts characters of Dafny strings. The build script is modelled on UTF-16 code units.
- `handleLoadFromLibrary`, `handleGenerateGraph`, `handleCompareArticles`, `handleLogout`, `handleUpdateWorkspaceArticle` and `handleDeleteFromWorkspace` are not methods of the model. The last two apply to the workspace the same functions `Library.UpdateArticle` and `Library.DeleteArticle` that the library handlers use.
- The graph prompt text and the full comparison prompt text are not modelled. From the comparison, the article blocks, the titles list and the error texts are modelled. The graph's `substring(0, 25000)` is not modelled.
- Rendering is not modelled: the JSX, the graph layout and the presentation-only components.
- Sanitisation is not claimed. The converter escapes `<` and `>` only inside code, and its output is used as raw HTML.
- Two links on one line get an `<em>` spliced between their `_blank` attributes, because the italic pass scans the generated markup. This is not stated as a lemma. `MarkdownInline.ItalicSplice` and `MarkdownInline.SnakeCaseBecomesItalic` state the rescanning behind it.
- EscapeUnicode.EscapeNonAsciiInStringLiteral: requires a literal of at least one unit; the script only passes it matches of `stringRe`, which are at least two units long.
- EscapeUnicode.EscapePreservesValue: the reading of a literal body is simplified. `\uXXXX` is read as its unit, and every other backslash escape is one opaque piece.
- The `\u{…}` branch of the escaping loop is marked unreachable. `body[i]` is one UTF-16 unit, so its code point never exceeds 0xFFFF.
- App.AppModel.CheckReminders: the final library is stated only for libraries with unique ids. With a duplicated id, each update rewrites every entry with that id.
- Login.LoginForm.Submit: the browser's form validation is not modelled (`type="email"` and `required` on the e-mail field, `required` and `minLength={6}` on the password, `required` on the confirmation; components/Login.tsx:84-116). The browser would not call the handler on such input, but the model's Submit accepts any field values and reaches the handler's own checks.
- Concurrency beyond the save race is not modelled. Two awaits of different handlers interleave only as the pairs of methods allow, and the timing of React's batched state updates is not modelled.

## Findings

| source | as written | input that shows it | evidently intended | confidence | as-written member | corrected member |
|---|---|---|---|---|---|---|
| App.tsx:244-260 | the id test reads the library as it was when the save started, and the update after the `await` puts the article in front without testing again | two saves of `a.pdf` (size 1) into an empty library, the second started before the first finishes reading the file | a library never holds two articles with one id | not executed | Library.SaveRaceAsWritten | Library.PrependChecked |
