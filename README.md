# Live class notes: synchronisation, formatting and the note store

This project models the core of a live note-sharing application for classrooms. It has three parts.

- **Sync.** An owner edits a class's notes in a Monaco editor page. Students open a shared viewer page, which may allow editing. Each page autosaves after a debounce. Each page also polls the server and applies remote text only when a gate over focus, mode and a "recently saved" cool-down flag allows it.
  - `EditorSync` models the editor page as the class `EditorAgent`.
  - `ViewerSync` models the viewer page as the class `ViewerAgent`.
  - Each event is one method: a local edit, a focus change, the debounce timer firing (the save request leaves), the save response, the cool-down timer, a poll response, selecting or deleting a class.
  - Pending `setTimeout`s are `Option` deadline fields. A timer fires exactly at its deadline, and no other event is delivered while a timer is overdue.
  - Monaco reports a programmatic `setValue` to the change listener just like typing. So every change of the displayed text re-arms the save: a poll update, the "Loading..." placeholder and the failure message all do.
- **Formatting.** `Formatting` models the editor toolbar's string transforms: heading, list, code block, highlight, comment, text colour, the HTML-escaped copyable snippet, and the per-language editor settings. `Text` holds the string primitives they share: `trim`, `split`, `join`, newline counting and decimal numerals.
- **Note store.** `NoteServer` models the Flask back end. It has the `live_notes` and `users` tables as maps, and one method per route handler. Each handler checks session, ownership and arguments in the source's order and returns the HTTP status. Its contract gives the table afterwards: replaced, updated, deleted or untouched.

`SyncTypes` holds the values exchanged between the pages and the server: the stored JSON blob, a notes body, a fetch outcome and a save request.

Differences between the two pages that the contracts make visible:

- The editor compares remote text with the displayed text. The viewer compares the note's whole serialised content with the last content it saw, and records that content even when it withholds the update.
- The editor raises `recentlySaved` only after a successful save. The viewer raises it before the request leaves and lowers it at once when the save fails.
- The editor's successful save clears the pending reset before arming a new one. The viewer's does not: when saves overlap, the earlier reset stays armed, orphaned, and still lowers the flag (`orphanedResets`).

Modelling choices forced by the code:

- Python evaluates a `dict.get` default before the lookup. So `get('class_name', f'Class {id.split("-")[1]}')` raises for a classroom id without a dash even when the item has a name, and the handler answers 500. `DefaultClassName` returns None for such ids, and every handler that evaluates that default answers 500 in the model too.
- JavaScript prints `split('-')[1]` of a dash-less id as `undefined`. The viewer's class label does the same in the model (`SecondSegment`).

Times are integers: milliseconds in the browser, seconds on the server. Inputs stand in for the session user, the results of `fetch`, the password hash, the generated OTP and whether mail delivery succeeded.

## Model

| member | source | states |
|---|---|---|
| Text.Trim | frontend/static/js/editor.js:116 | The trimmed string is empty exactly when the input is all white space; otherwise it neither starts nor ends with white space, and it uses only the input's characters. |
| Text.TrimIsInfix | frontend/static/js/editor.js:116 | `trim()` removes white space at the two ends and nothing else: the input is the trimmed string with a run of white space before it and a run after it. |
| Text.Split | frontend/static/js/editor.js:111 | `split('\n')` yields at least one piece, no piece holds the separator, and joining the pieces with the separator gives the input back. |
| Text.SplitJoin | frontend/static/js/editor.js:129 | Splitting the join of separator-free pieces returns exactly those pieces, so `join` after a per-line rewrite is undone by `split`. |
| Text.SplitLength | frontend/static/js/editor.js:111 | `split('\n')` yields one more piece than the text has newlines. |
| Text.NatToStringValue | frontend/static/js/editor.js:119 | The numeral printed for `${i + 1}` denotes the number `i + 1`. |
| Text.SecondPiece | frontend/static/js/viewer.js:104 | `s.split(sep)[1]` exists exactly when `s` holds the separator, and it is then the second piece of the split. |
| Formatting.LeadingHashes | frontend/static/js/editor.js:81 | The greedy `#+` match: a run of '#' at the start of the line that is followed by a different character or the end. |
| Formatting.MarkedLineIsHeading | frontend/static/js/editor.js:73 | A line starting with the marker of level n >= 1 is a heading of exactly level n whose text is what follows the marker. |
| Formatting.HeadingOnPlainLine | frontend/static/js/editor.js:94-103 | On a line whose trimmed form does not start with '#', heading inserts n '#' and a space at column 1 and keeps the whole line after them. |
| Formatting.HeadingOnHeading | frontend/static/js/editor.js:79-92 | On a line matching `^(#+)\s`, exactly the match is replaced by the new marker; the result has level n and the same heading text. |
| Formatting.HeadingOnUnmatched | frontend/static/js/editor.js:79-93 | A line whose trimmed form starts with '#' but does not match `^(#+)\s` is left unchanged. |
| Formatting.HeadingIdempotent | frontend/static/js/editor.js:71-105 | Applying the same heading level twice gives the same line as applying it once. |
| Formatting.LeadingDigits | frontend/static/js/editor.js:123 | The greedy `\d+` match at the start of a trimmed line: a run of digits followed by a non-digit or the end. |
| Formatting.ApplyList | frontend/static/js/editor.js:107-135 | The source's in-place loop over `lines`, with its reassigned `prefix`, computes exactly FormatList, the line-by-line rewrite. |
| Formatting.RewriteLine | frontend/static/js/editor.js:115-127 | One pass of the loop body rewrites line i exactly as ListLine does, and keeps the carried prefix equal to the list's initial prefix whenever line i+1 will read it unchanged. |
| Formatting.ListSplits | frontend/static/js/editor.js:111-129 | Splitting the list result gives one rewritten line per selected line, each rewritten independently (no prefix contains a newline). |
| Formatting.ListKeepsLineCount | frontend/static/js/editor.js:111-129 | The list operation keeps the number of lines of the selection. |
| Formatting.ListRewritesLines | frontend/static/js/editor.js:115-127 | Line i is kept as it is when it is blank or its trimmed form starts with "* " or `\d+\.\s`; otherwise it becomes the prefix for position i followed by the trimmed line. |
| Formatting.NumberedPrefix | frontend/static/js/editor.js:112-120 | In a numbered list, line i gets the prefix "(i+1). ", numbering by position in the selection. |
| Formatting.NumberedListCountsBlankLines | frontend/static/js/editor.js:115-120 | Blank lines count towards the numbering: "a", "", "b" becomes "1. a", "", "3. b". |
| Formatting.RewrittenLineIsMarked | frontend/static/js/editor.js:119-124 | A rewritten line is its own trimmed form and carries a list marker. |
| Formatting.ListLineIdempotent | frontend/static/js/editor.js:116-125 | Rewriting a line a second time at the same position leaves it as the first rewrite made it. |
| Formatting.FormatListIdempotent | frontend/static/js/editor.js:111-129 | Applying list of the same kind twice gives the same text as applying it once. |
| Formatting.CodeBlockShape | frontend/static/js/editor.js:137-149 | The code block holds the selection intact after the fence line (language or "plaintext") and has exactly two lines more than the selection. |
| Formatting.HighlightShape | frontend/static/js/editor.js:151-162 | Highlight wraps the selection intact between "==" markers and keeps the number of lines. |
| Formatting.CommentBlockShape | frontend/static/js/editor.js:164-175 | Comment wraps the selection intact between "<!-- " and " -->" and keeps the number of lines. |
| Formatting.TextColorShape | frontend/static/js/editor.js:177-188 | Text colour wraps the selection intact in the span and, for a colour without newlines, keeps the number of lines. |
| Formatting.EscapeHtmlCons | frontend/static/js/editor.js:1123 | The chain `&`, then `<`, then `>` escapes each character independently: '&' as "&amp;", '<' as "&lt;", '>' as "&gt;", any other character as itself. |
| Formatting.EscapeHtmlHasNoBrackets | frontend/static/js/editor.js:1123 | The escaped selection contains no '<' and no '>'. |
| Formatting.UnescapeEscapeHtml | frontend/static/js/editor.js:1123 | Reading the three entities back gives the original selection. |
| Formatting.CopyableCodeBlockRoundTrip | frontend/static/js/editor.js:1111-1131 | Inside the snippet's `<code>` element there is no '<' or '>', and unescaping it yields the selection. |
| Formatting.GetLanguageSettings | frontend/static/js/editor.js:304-336 | Every language indents with spaces, auto-indents "full" and formats on type; the tab size is 2 for JavaScript and 4 for every other language, known or not. |
| EditorSync.Touch | frontend/static/js/editor.js:730-734 | Stamping `last_updated` changes only the current class's entry, and only when it is in the map; the keys stay the same. |
| EditorSync.SelectedText | frontend/static/js/editor.js:613-665 | Only a failed fetch looks at the previous text, and it keeps that text unless it was the "Loading..." placeholder. A parsed blob shows its text and unparsable content shows raw. An error status or empty content clears the editor. The placeholder stays on display only when the server's own content is the placeholder. |
| EditorSync.SelectedLanguage | frontend/static/js/editor.js:628-632 | The language changes only to one that a parsed blob names. A blob that names a language always sets it, and a language once set is never cleared. |
| EditorSync.EditorAgent.constructor | frontend/static/js/editor.js:1-4 | At initialisation no class is current, the editor is read-only and empty, and no save, cool-down or poll is pending. |
| EditorSync.EditorAgent.SetValue | frontend/static/js/editor.js:288-297 | Every content change cancels the pending save and arms exactly one, 1000 ms later. |
| EditorSync.EditorAgent.LocalEdit | frontend/static/js/editor.js:288-297 | Typing in an enabled editor shows the new text and re-arms the single save for 1000 ms later. |
| EditorSync.EditorAgent.SetFocus | frontend/static/js/editor.js:709 | Records the focus that the poll gate reads. |
| EditorSync.EditorAgent.SaveTimerFires | frontend/static/js/editor.js:750-787 | The save fires only 1000 ms after the last change; without a current class it sends nothing, otherwise it posts the displayed text, language and format options; the cool-down flag is not touched. |
| EditorSync.EditorAgent.SaveCompleted | frontend/static/js/editor.js:789-818 | Success raises `recentlySaved`, replaces any earlier reset by a single one 1000 ms later and stamps the class entry; failure leaves the flag, its timer and the map unchanged. |
| EditorSync.EditorAgent.RecentlySavedExpires | frontend/static/js/editor.js:808-810 | The reset fires 1000 ms after the last successful save and lowers the flag. |
| EditorSync.EditorAgent.CheckForUpdates | frontend/static/js/editor.js:686-743 | Remote text is applied exactly when a class is current, the response carries a parsed blob, its text differs from the displayed text, the editor lacks focus and `recentlySaved` is false; an applied update sets the blob's language and re-arms the save; in every other case the text, language, pending save and map are unchanged. |
| EditorSync.EditorAgent.SelectClass | frontend/static/js/editor.js:592-670 | The class becomes current. An unknown class changes nothing else. A known class enables the editor and shows SelectedText. Unless the fetch failed, the class entry is stamped as accessed and exactly one 2000 ms poll is installed. |
| EditorSync.EditorAgent.OpenClass | frontend/static/js/editor.js:609-653 | For a class in the map, the editor is enabled, shows the loaded text, and, after a successful fetch, stamps the entry and installs one poll. |
| EditorSync.EditorAgent.ShowLoaded | frontend/static/js/editor.js:618-665 | The displayed text becomes SelectedText of the content held before "Loading..." was shown, and the save is re-armed. |
| EditorSync.EditorAgent.ConfirmDeleteClass | frontend/static/js/editor.js:500-536 | A successful delete removes the entry; deleting the current class clears the editor, makes it read-only and leaves no class current; a failed delete changes nothing. |
| EditorSync.EditorAgent.ClearEditor | frontend/static/js/editor.js:517-520 | No class is current, the editor is empty and read-only, and clearing it has armed the 1000 ms save. |
| EditorSync.SelectedAgent | frontend/static/js/editor.js:592-670 | In the trace that selects a class whose note holds "a", the editor shows "a", is enabled, and has the save armed for 1000 ms after the selection. |
| EditorSync.SavedAgent | frontend/static/js/editor.js:750-818 | In the trace of an edit, the save firing 1000 ms later and its success at 1200, the page is in the cool-down with its reset due at 2200 and no save pending. |
| EditorSync.OwnSaveShieldsDisplay | frontend/static/js/editor.js:800-810 | For any valid page, a poll made after its own save succeeds and no later than the reset that save arms is withheld, whatever the response holds: text and language stay as displayed. |
| EditorSync.AppliedAfterCoolDown | frontend/static/js/editor.js:709 | In the trace of SavedAgent, another client's text is withheld by a poll at 1500 and applied by the first poll after the reset at 2200. |
| EditorSync.DeletedClassStopsSync | frontend/static/js/editor.js:517-520 | For any valid page, once the current class is deleted, the save armed by clearing the editor posts nothing and a later poll changes nothing; the editor is empty and read-only. |
| ViewerSync.LoadedDisplay | frontend/static/js/viewer.js:106-140 | Empty content always shows "No notes available". A parsed blob is shown exactly when `(!focused or !isEditMode) and !recentlySaved`. Unparsable content is shown raw exactly when the viewer is not focused in edit mode, ignoring the flag. |
| ViewerSync.SecondSegment | frontend/static/js/viewer.js:104 | The second dash-separated segment of the id, or "undefined" when the id has no dash. |
| ViewerSync.ClassLabel | frontend/static/js/viewer.js:103-104 | The class-name label is never blank. It is the note's name exactly when that name is non-empty, and otherwise "Class " followed by the id's second segment. |
| ViewerSync.ViewerAgent.constructor | frontend/static/js/viewer.js:25-77 | The page starts with "Loading...", plain text, no content seen, no save state, and exactly one poll, every 1000 ms in edit mode and every 2000 ms in view mode. |
| ViewerSync.ViewerAgent.StartPolling | frontend/static/js/viewer.js:337-352 | Any earlier interval is cleared, so exactly one poll is installed: every 1000 ms in edit mode, every 2000 ms in view mode. |
| ViewerSync.ViewerAgent.Unload | frontend/static/js/viewer.js:461-465 | Leaving the page removes the poll. |
| ViewerSync.ViewerAgent.SetValue | frontend/static/js/viewer.js:227-242 | In edit mode every content change cancels the pending save and arms one 500 ms later; in view mode no save is armed. |
| ViewerSync.ViewerAgent.LocalEdit | frontend/static/js/viewer.js:236-241 | Typing in edit mode shows the new text and re-arms the single save for 500 ms later. |
| ViewerSync.ViewerAgent.SetFocus | frontend/static/js/viewer.js:112 | Records the focus that the poll gate reads. |
| ViewerSync.ViewerAgent.LoadNotes | frontend/static/js/viewer.js:79-158 | A failed fetch shows the failure message and keeps `lastContent`. Content equal to `lastContent` changes nothing. New content is recorded even when withheld, and the labels are written. LoadedDisplay decides the text. Only an applied blob sets the language, and the cursor is restored and a toast shown only in edit mode. |
| ViewerSync.ViewerAgent.AcceptBody | frontend/static/js/viewer.js:100-146 | A body with new content is recorded as `lastContent`, the class-name label is written, the display follows LoadedDisplay and the last-updated label changes only when the body carries a time. |
| ViewerSync.ViewerAgent.ShowBody | frontend/static/js/viewer.js:106-140 | The display becomes LoadedDisplay's choice, and the save is armed in edit mode whenever the display was written. |
| ViewerSync.ViewerAgent.SaveTimerFires | frontend/static/js/viewer.js:245-284 | A save happens only in edit mode, 500 ms after the last change. `recentlySaved` is raised and the reset its handle refers to is cancelled before the request with the displayed text and language leaves; orphaned resets stay armed. |
| ViewerSync.ViewerAgent.SaveCompleted | frontend/static/js/viewer.js:286-325 | Success arms a reset 1000 ms later, stamps the last-updated label and leaves the flag as it is; a reset the handle still referred to is orphaned, not cleared. Failure lowers `recentlySaved` at once. |
| ViewerSync.ViewerAgent.ArmReset | frontend/static/js/viewer.js:308-310 | Assigning a new reset to the handle adds one reset due 1000 ms later and moves the reset the handle referred to, if still armed, to the orphaned ones. |
| ViewerSync.ViewerAgent.RecentlySavedExpires | frontend/static/js/viewer.js:308-310 | The reset the handle refers to lowers the flag. |
| ViewerSync.ViewerAgent.OrphanedResetFires | frontend/static/js/viewer.js:308-310 | An orphaned reset also lowers the flag when it fires, even while a later save's reset is armed or a later save is in flight. |
| ViewerSync.WithheldChangeStaysWithheld | frontend/static/js/viewer.js:100-112 | For any valid viewer, a second poll returning the same content as the first applies nothing and leaves the text as the first poll left it, even after focus is lost; so a change the first poll withheld stays withheld. |
| ViewerSync.EditingViewer | frontend/static/js/viewer.js:227-242 | In the trace of an edit-mode viewer that loads a note and is typed into while focused, the typed text is shown and the save is armed 500 ms later. |
| ViewerSync.OverlappingSaves | frontend/static/js/viewer.js:271-273 | In the trace of EditingViewer with two overlapping saves that succeed at 1130 and 1230, the second success leaves the first one's reset (due at 2130) orphaned beside its own (due at 2230). |
| ViewerSync.OrphanedResetOpensGate | frontend/static/js/viewer.js:308-310 | In the trace of OverlappingSaves, the orphaned reset lowers the flag at 2130, and an unfocused poll at 2150 applies another client's text while the later reset is still pending. |
| ViewerSync.FailedPollInEditModeIsSaved | frontend/static/js/viewer.js:154-157 | For any valid edit-mode viewer, a failed poll shows the failure message, and the autosave posts that message as the note's text 500 ms later. |
| NoteServer.DefaultClassName | backend/app.py:483 | `f'Class {id.split("-")[1]}'` exists exactly when the id has a dash, and is "Class " followed by the second segment. |
| NoteServer.SavedClassName | backend/app.py:481-483 | The stored name is the request's non-empty name, else the existing item's name, else the default; it is missing (500) only when the default is evaluated and the id has no dash. |
| NoteServer.Insert | backend/app.py:532 | Inserting into a list sorted newest first keeps it sorted and adds exactly the one item. |
| NoteServer.NoteServer.GetNotes | backend/app.py:404-450 | `view=true` reads an existing note without checks, with `view_only` the negation of `edit`. Otherwise 401 without a session user and 403 for another user's note. A missing note reads as empty content. 500 exactly when an allowed reply needs the default name of a dash-less id. |
| NoteServer.NoteServer.SaveNotes | backend/app.py:452-505 | Outside share-edit mode: 401 without a session user, 403 when another user owns the item. 500 when the default name of a dash-less id is needed. Every rejection leaves the table unchanged. Success replaces the whole item by owner, content, class name and time, dropping every other attribute. |
| NoteServer.NoteServer.GetClasses | backend/app.py:507-538 | 401 without a session user. Otherwise the list holds exactly the user's items whose content is not null, each once, sorted by last update, newest first. |
| NoteServer.NoteServer.UpdateClass | backend/app.py:578-610 | Checks in order: 401 without a session user, 400 for an empty name, 404 for a missing item, 403 for a non-owner. A rejection changes nothing; success changes only that item's class name. |
| NoteServer.NoteServer.DeleteClass | backend/app.py:612-631 | 401 without a session user and 403 for a non-owner, leaving the table unchanged; otherwise the item is gone, including when it never existed. |
| NoteServer.NoteServer.UpdateNotes | backend/app.py:633-657 | Without session checks: 400 without a classroom id; otherwise the item is replaced by one with content, language (default "plaintext") and time, and no owner or name. |
| NoteServer.NoteServer.Signup | backend/app.py:702-747 | 400 for a missing field or a registered email, leaving the users unchanged; otherwise an unverified record with the OTP expiring 600 s later is stored, and the status is 500 when mail delivery failed, 200 otherwise. |
| NoteServer.NoteServer.Verify | backend/app.py:749-788 | Checks in order: missing fields, unknown user, expired OTP (before the code is compared), wrong code. Only a current matching code verifies the account, changing nothing else; every other outcome leaves the users unchanged. |
| NoteServer.VerifyOutcome.Status | backend/app.py:756-784 | Only verification answers 200 and only an unknown user answers 404; missing fields, an expired OTP and a wrong OTP answer 400. |
| NoteServer.FilterListed | backend/app.py:531 | Keeps exactly the items whose content is present and not null, and keeps ids distinct. |
| NoteServer.SortByRecency | backend/app.py:532 | The sort returns the same items, as a multiset, newest first. |
| NoteServer.DistinctIdsKept | backend/app.py:528-532 | Reordering a list with distinct classroom ids keeps them distinct. |
| NoteServer.ShareEditKeepsOwner | backend/app.py:488-490 | For any valid store and existing note with a dash in its id, a save through a share-edit link, with or without a session, succeeds and keeps the owner, who then reads the saved content in the editor. |
| NoteServer.OwnSaveReadsBack | backend/app.py:466-500 | For any valid store, a save outside share-edit mode that returns 200 stores the session user as the owner; that user's editor read of the note is then never 401 or 403, is 200 exactly when the id has a dash, and then returns the saved content. |
| NoteServer.ShareEditClaimsOwnerless | backend/app.py:466-500 | For any valid store and a note without an owner (or no note), a share-edit save succeeds exactly when a class name is given or the id has a dash, changes nothing otherwise, and stores the session user as owner, or "shared_editor" without a session; a signed-in saver then reads the saved content. |
| NoteServer.UpdateNotesLocksOutOwner | backend/app.py:645-652 | For any valid store, after `/api/update_notes` writes an ownerless item, any signed-in user, the former owner included, gets 403 both reading and saving it. |
| NoteServer.DeleteIsRepeatable | backend/app.py:621-628 | For any valid store, a user who may delete a class can delete it twice: both calls succeed and the table ends without that id, as after one delete. |

## Left out

- Presentation: the DOM, Monaco rendering, cursor positions, toasts (modelled only as a flag), modals, QR codes, PDF export, themes, fullscreen and status labels such as "Saving...".
- Real `fetch`, DynamoDB, SMTP, the Flask session, cookies and CORS: responses are abstract values, the tables are maps, the session user, password hash, OTP and mail result are parameters.
- `JSON.parse`/`JSON.stringify`: a note's content is kept as a value with a parse outcome. Comparing serialised content is comparing content values. A blob whose `text` is not a string is not modelled.
- The server's `lru_cache` on reads and its staleness after updates and deletes: reads go straight to the table.
- ISO-8601 date handling: all times, including `last_updated` used as a sort key, are integers.
- Real concurrency: timers fire exactly at their deadline, a poll is one instant, and the interval's cadence between polls is not modelled. Responses to requests made before a class switch are not attributed to a previous class. `selectClass` is one instant too, although it awaits `fetch` and `response.json()` after showing "Loading...": during that wait the 1000 ms save armed by the placeholder could post "Loading..." as the note's text, and a poll or typing could interleave.
- Unicode white space: `trim()` and `\s` are modelled on ASCII white space only.
- `getLanguageSettings` on keys inherited from `Object.prototype` (such as "constructor"), which JavaScript would return instead of the base settings.
- Request bodies that are not JSON objects: the handlers that read a body (save_notes and update_class once past their session check, update_notes, signup, verify) answer 500.
- resend-otp, login, check-session, the page routes and the debug endpoints; `loadClassList`, including the reload confirmDeleteClass awaits after a delete, which replaces classesMap with the server's list; `createNewClass`, `saveClassName` and the language selector handler of the editor page.
- The format-option checkboxes: the editor's save takes the option map as a parameter, and `selectClass` does not restore the checkboxes.
- NoteServer.SortByRecency: modelled on a sequence, not as Python's in-place `list.sort`; stability (the order among items with the same time) is not stated.
- EditorSync.EditorAgent.SetValue and ViewerSync.ViewerAgent.SetValue: assume that Monaco fires the change event on every `setValue`, including one that sets the text already shown.
- NoteServer.NoteServer.UpdateNotes: a request whose `language` is JSON null stores null in the source; the model has no null language and treats it as missing, storing "plaintext".
- EditorSync.EditorAgent.SaveTimerFires and EditorSync.EditorAgent.CheckForUpdates: a current class id of "" counts as selected in the model, while JavaScript treats it as none; class ids are never empty in practice.
- EditorSync.EditorAgent.CheckForUpdates: the class entry is stamped with the server's `last_updated` or, without one, with the browser's clock; the model does not relate the two clocks.
