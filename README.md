# Sticky-note new-tab page, modelled in Dafny

The extension replaces Chrome's new tab with a Markdown note editor over a
rotating wallpaper (`newtab.js`). This project models the page's logic:

- **Notes** (`notes.dfy`). The page keeps a `notes` object that maps note ids to
  `{ content, cursor }`, plus the id of the active note. The model covers:
  - `loadNote`, which switches to a note and creates it empty when it is new;
  - the editor's `input` handler, which stores the text and caret into the
    active note and saves;
  - the search filter of `renderList`, a case-lowered substring match over
    the note ids in `Object.keys` order.

  `NoteStore` is a class whose fields the handlers update. Every
  `chrome.storage.local.set` is recorded in a ghost log of snapshots.
- **Wallpaper scheduler** (`wallpaper.dfy`). It holds the wallpaper index, the
  mode (`"slideshow"` or `"static"`) and the slideshow's interval handle. The
  model covers `startSlideshow`, `stopSlideshow`, the interval tick, the
  thumbnail and slideshow-button handlers, and the wallpaper half of the
  stored-state callback. The browser's live timers are a field of `Scheduler`.
  This makes "at most one slideshow timer" an invariant every handler keeps.
  "Only in slideshow mode" is kept by every handler except the stored-state
  callback as written (see "## Findings").
- **Slash commands** (`slashcommands.dfy`). On Enter, the text from the start
  of the caret's line up to the caret is trimmed. If it starts with `/`, the
  line break is suppressed. If the text is `/todo`, `/date`, `/heading` or
  `/code`, it is replaced by that command's expansion (`replaceLine`).
- **Stored-state callback** (`newtab.dfy`). It restores notes, the active note
  (today's daily note `Daily/YYYY-MM-DD` by default) and the wallpaper state.
  `OnStateLoaded` follows the code as written. A static mode there leaves a
  slideshow that started before the callback running (see "## Findings").
  `OnStateLoadedCorrected` also stops it.
- **Support modules.** `jsstring.dfy` holds the JavaScript string built-ins
  used: `slice`, `trim`, `startsWith`, `toLowerCase`, `includes` and a
  one-character `lastIndexOf`. `jsobject.dfy` holds objects as
  insertion-ordered dictionaries and `null`/`undefined` as `Option`.
  `textarea.dfy` holds the `<textarea>` with its value and selection.

The model keeps these JavaScript details:

- **`||` versus `??`.** An empty stored active id falls back to today's note.
  An empty stored wallpaper mode is kept.
- **Lookup by `null`.** `notes[null]` looks up the key `"null"`.
- **`%` on negative numbers.** `%` takes the sign of the dividend, so a
  negative stored index stays negative for a tick or two.
- **`lastIndexOf` at offset 0.** `lastIndexOf` clamps a negative start to 0.
- **Truthiness of the timer handle.** `stopSlideshow` checks the handle with
  `if (slideshowInterval)`.
- **Caret clamping.** `setSelectionRange` clamps its offsets, and assigning
  a different `value` puts the caret at the end.

Every line whose trimmed text before the caret starts with `/` suppresses the
line break, whether or not the command is known (newtab.js:281-283). The
command switch (newtab.js:285-298) has no default case, so an unknown command
is swallowed: the line break is suppressed and the text stays as it is
(`UnknownCommandExample`).

## Model

| member | source | states |
|---|---|---|
| `Notes.TodayId` | newtab.js:74-75 | the daily id is `Daily/` followed by the first ten characters (the date) of the ISO clock reading |
| `Notes.CaretFor` | newtab.js:105-107 | the caret `loadNote` restores is the stored cursor when it lies within the text, the end of the text when none is stored or the stored one lies past the end, and never past the end |
| `Notes.Switched` | newtab.js:96-100 | after switching, the note exists. An existing note and the key order are untouched. A new note is empty and listed last. Other notes are unchanged. Carets stay within their texts |
| `Notes.SwitchIdempotent` | newtab.js:96-100 | switching to the same note twice is switching once, and the switched-to note is the stored one or the empty note |
| `Notes.Edited` | newtab.js:184-186 | editing changes only the active note's text and caret. Key order and key set are unchanged. Other notes keep their values |
| `Notes.RestoredActiveId` | newtab.js:155 | a non-empty stored id is kept. A missing or empty one falls back to today's id |
| `Notes.RestoredNotes` | newtab.js:154-159 | every stored note survives with its value. The active note exists. No other note is invented. An active id that is already stored leaves the stored notes exactly as they are. An active id that is not stored gets the empty note, listed last. With nothing stored there is only the empty active note |
| `Notes.FilterKeys` | newtab.js:84-87 | an id is listed exactly when it is one of the keys and its lower-cased text includes the filter. Listed ids keep the key order (a subsequence). No id is listed twice |
| `Notes.Search` | newtab.js:81-94 | `renderList(filter)` lists exactly the notes whose lower-cased text includes the filter, in `Object.keys` order, each once |
| `Notes.OnSearch` | newtab.js:195-198 | the search box lists exactly the notes whose lower-cased text includes the lower-cased query, in key order, each once |
| `Notes.KeyOf` | newtab.js:184 | the property key of an id is the id itself, and `"null"` when no id is set |
| `Notes.Matches` | newtab.js:86 | a note matches a filter exactly when the filter occurs at some offset of the note's lower-cased text |
| `Notes.SearchIgnoresQueryCase` | newtab.js:196-197 | the search gives the same list for a query and its lower-cased form |
| `Notes.SearchEmptyListsAll` | newtab.js:81-87 | an empty filter lists every note, in key order |
| `Notes.NoteStore.constructor` | newtab.js:71-72 | the page starts with no notes, no active note and nothing saved |
| `Notes.NoteStore.SaveNotes` | newtab.js:77-79 | a save appends the current notes and active id to the storage log |
| `Notes.NoteStore.LoadNote` | newtab.js:96-111 | `id` becomes active and the notes become `Switched(notes, id)`. The editor shows the note's text with the caret at `CaretFor`. The state is saved |
| `Notes.NoteStore.OnInput` | newtab.js:183-193 | when the active id names a note, that note takes the editor's text and caret and the store is saved. Otherwise the handler throws and nothing changes. After the state has loaded it always succeeds. Carets stay within their texts |
| `Notes.NoteStore.Restore` | newtab.js:154-165 | the restored active id and notes are the ones `RestoredActiveId` and `RestoredNotes` give. The active note is loaded into the editor and saved |
| `JsString.Slice` | newtab.js:260-263 | `slice(a, b)` is the span from `a` to `b`, and empty when `a` is not below `b` |
| `JsString.TrimStart` | newtab.js:279 | the leading white space is dropped: the result is a suffix, everything before it is white space, and it does not start with white space |
| `JsString.TrimEnd` | newtab.js:279 | the trailing white space is dropped: the result is a prefix, everything after it is white space, and it does not end with white space |
| `JsString.Trim` | newtab.js:279 | `trim()` gives a text no longer than the original that neither starts nor ends with white space |
| `JsString.TrimIsSpan` | newtab.js:279 | the trimmed text is a span of the original with only white space before and after it, so exactly the leading and trailing white space is removed |
| `JsString.ToLower` | newtab.js:86 | `toLowerCase()` keeps the length and maps each character by itself: an ASCII capital to its lower-case letter, any other character to itself |
| `JsString.Includes` | newtab.js:86 | `includes` is false for a search string longer than the text and true when the text starts with it |
| `JsString.TrimmedStartsWith` | newtab.js:277-281 | a trimmed text starts with a non-space character `c` exactly when `c` is its first character other than white space |
| `JsString.IncludesIffOccurs` | newtab.js:86 | `includes` is true exactly when the search string occurs at some offset |
| `JsString.ToLowerIdempotent` | newtab.js:197 | lower-casing twice is lower-casing once |
| `JsString.LastIndexOf` | newtab.js:256 | `lastIndexOf` finds the last matching offset at or before the clamped start, and -1 when there is none |
| `JsObject.EmptyTable` | newtab.js:71 | `{}` has no keys and no entries |
| `JsObject.Put` | newtab.js:100 | assigning a property stores the value. An existing key keeps its place in the key order. A new key is enumerated last |
| `TextArea.Editor.SetValue` | newtab.js:102 | assigning a value replaces the text and puts the caret at its end (for a different value; the model also does so for the same one) |
| `TextArea.Editor.SetSelectionRange` | newtab.js:265-268 | both offsets are clamped to the text, and the start is at most the end |
| `Wallpaper.NextIndex` | newtab.js:44 | the next index is congruent to index + 1 modulo 3 and lies strictly between -3 and 3. It is in range whenever the index is at least -1, and from a valid index it advances cyclically |
| `Wallpaper.TicksCycle` | newtab.js:43-47 | from a valid index, three ticks show all three wallpapers and return to the start |
| `Wallpaper.TicksReachRange` | newtab.js:44 | from any stored index, three ticks reach a valid index |
| `Wallpaper.Scheduler.AtMostOneTimer` | newtab.js:33 | the scheduler's invariant allows at most one live timer, the one `slideshowInterval` holds |
| `Wallpaper.Scheduler.constructor` | newtab.js:31-33 | the page starts at wallpaper 0 in slideshow mode with no interval handle and no live timer |
| `Wallpaper.Scheduler.SetInterval` | newtab.js:43 | `setInterval` arms one new timer under a fresh handle and returns that handle |
| `Wallpaper.Scheduler.ClearInterval` | newtab.js:52 | `clearInterval(h)` disarms timer `h` and no other |
| `Wallpaper.Scheduler.SaveWallpaperState` | newtab.js:57-59 | a save appends the index and mode to the storage log |
| `Wallpaper.Scheduler.StopSlideshow` | newtab.js:50-55 | afterwards no timer is live and no handle is held |
| `Wallpaper.Scheduler.StartSlideshow` | newtab.js:39-48 | any old timer is cleared. Exactly one new timer, under a fresh handle, is live and held. The current wallpaper is shown |
| `Wallpaper.Scheduler.Tick` | newtab.js:43-47 | a tick advances the index by `NextIndex`, shows it and saves it. From an index of at least -1 the index ends in range |
| `Wallpaper.Scheduler.SelectThumbnail` | newtab.js:231-238 | a thumbnail click selects that wallpaper in static mode, stops the slideshow, shows the wallpaper and saves |
| `Wallpaper.Scheduler.SlideshowClicked` | newtab.js:243-247 | the slideshow button switches to slideshow mode with exactly one fresh timer, shows the current wallpaper and saves |
| `Wallpaper.Scheduler.ResumeAsWritten` | newtab.js:161-171 | the restored index defaults to 0 and the mode to slideshow. Slideshow mode starts the slideshow. Any other mode only shows the wallpaper and leaves a running timer alone |
| `Wallpaper.Scheduler.Resume` | newtab.js:161-171 | as `ResumeAsWritten`, but any other mode also stops the slideshow. Afterwards a timer runs exactly in slideshow mode |
| `Wallpaper.RunEvents` | newtab.js:231-247 | any run of ticks, thumbnail clicks, slideshow-button clicks and stored-state callbacks, in any order and from any valid state, keeps at most one live timer, the held one. Starting with no timer outside slideshow mode, this stays so when no callback restores another mode. An index in range stays in range when every callback restores one in range |
| `Wallpaper.ResumeRace` | newtab.js:167-171 | a slideshow click before the stored state arrives, followed by a restored static mode, leaves one live timer in static mode |
| `Wallpaper.ResumeNoRace` | newtab.js:167-171 | with the corrected callback, the same events leave no timer |
| `SlashCommands.LineStart` | newtab.js:274-275 | the line start is 0 or follows a line break. It lies at or before a positive caret, and no line break lies between it and the caret. At caret 0 it is 0, or 1 when the text opens with a line break |
| `SlashCommands.CurrentLine` | newtab.js:277-279 | the inspected line holds no line break |
| `SlashCommands.LineStartPastCaret` | newtab.js:274-275 | with the caret at offset 0 and a text that opens with a line break, the computed line start is 1, past the caret |
| `SlashCommands.IsSlashLine` | newtab.js:281 | `startsWith("/")` holds exactly when the line is non-empty and its first character is `/` |
| `SlashCommands.SlashLineSpansText` | newtab.js:274-281 | a slash line always spans at least one character before the caret |
| `SlashCommands.SlashLineIff` | newtab.js:277-281 | the inspected line is a slash line exactly when the first character other than white space, between the line start and the caret, is `/` |
| `SlashCommands.Expansion` | newtab.js:285-298 | `/date` expands to the date string passed in |
| `SlashCommands.KnownCommands` | newtab.js:285-298 | the switch knows exactly `/todo`, `/date`, `/heading` and `/code` |
| `SlashCommands.Splice` | newtab.js:260-263 | the new text is the text before the line start, then the inserted text, then the text from the caret on |
| `SlashCommands.ReplaceLine` | newtab.js:254-269 | the caret's line up to the caret is replaced by the text, and the caret lands right after the inserted text |
| `SlashCommands.OnKeyDown` | newtab.js:271-299 | the line break is suppressed exactly on Enter at a slash line. A known command replaces the line by its expansion with the caret after it. Anything else leaves text and caret unchanged |
| `SlashCommands.SplicedLineStart` | newtab.js:254-269 | after a replacement, the caret's line starts after the last line break of the inserted text, or where the replaced span began when the inserted text has no line break |
| `SlashCommands.SplicedCurrentLine` | newtab.js:274-279 | after a replacement, the inspected line is the trimmed last line of the inserted text |
| `SlashCommands.ExpansionEndsPlain` | newtab.js:285-298 | every expansion is non-empty and its last line is not a slash line (for `/date`, when the date's last line is not one) |
| `SlashCommands.ExpansionIsFinal` | newtab.js:254-281 | after a replacement whose last line is not a slash line, the next Enter is not intercepted |
| `SlashCommands.EnterTwice` | newtab.js:271-299 | when a first Enter expands a command, a second Enter is not intercepted |
| `SlashCommands.TodoExample` | newtab.js:286-287 | `/todo` then Enter turns the line into `- [ ] `, with the caret at offset 6 |
| `SlashCommands.UnknownCommandExample` | newtab.js:281-298 | `/unknown` then Enter suppresses the line break and leaves the text as it is |
| `NewTab.OnStateLoaded` | newtab.js:151-177 | the stored-state callback restores the notes and active note and loads it into the editor, and `renderList()` lists every note. The wallpaper index and mode are restored. Slideshow mode starts exactly one fresh timer. Any other mode leaves the interval handle and the live timers as they were. When no slideshow ran before, a timer runs exactly in slideshow mode |
| `NewTab.OnStateLoadedCorrected` | newtab.js:151-177 | as `OnStateLoaded`, but a mode other than slideshow also stops a running slideshow, so afterwards a timer runs exactly in slideshow mode, whatever ran before |

## Left out

- **Vault mirror.** The Obsidian vault mirror (`connectVault`, `writeToVault`, the `await` in the `input` handler) is not modelled. It is file-system I/O through a browser picker.
- **DOM.** DOM rendering is not modelled: list items, `innerHTML`, thumbnails, `updateActiveThumb`, `applyWallpaper`'s style and image preloading. The wallpaper shown is a field, `shown`, and the listed notes are a sequence of ids.
- **Markdown export.** The export button's `Blob` download is I/O. It is not modelled.
- **Storage.** `chrome.storage.local.set` is a ghost log of snapshots. `get` is the `StoredState` passed to `NewTab.OnStateLoaded`. Stored values of the wrong JavaScript type are not modelled: a stored note without `content`, say, or a non-numeric index.
- **Clock.** The clock (`new Date()`) and the locale's date string are parameters.
- **Timers.** The interval's 15-second period is not modelled. Ticks, clicks and the storage callback are events in an order the caller chooses.
- **Deferred caret.** `requestAnimationFrame` deferral of the caret in `loadNote` is not modelled. The caret is set at once.
- **Startup guards.** The `!editor || !list` start-up guard is not modelled. The model is the page after it passed. `hasWallpaperUI` is taken to be true.
- **Key order.** `Object.keys` is modelled as insertion order. JavaScript's rule that integer-like keys come first in ascending order is not modelled.
- **Character handling.** White space for `trim` and case for `toLowerCase` are ASCII only.
- **Text outside the Basic Multilingual Plane.** A Dafny `char` is a Unicode scalar value, so a surrogate code unit has no counterpart in the model. The model's offsets (`selectionStart`, `cursor`, `lastIndexOf`, `slice`, `LineStart`, `CaretsInText`) equal JavaScript's UTF-16 offsets only for text without surrogate pairs. A note holding an emoji, say, is not modelled.
- TextArea.Editor.SetValue: moves the caret to the end even when the value assigned equals the one shown, where a browser keeps the selection. Every modelled call is followed by a caret placement or assigns a different text.
- SlashCommands.EnterTwice: requires the date string's last line not to be a slash line for every command, not only `/date`. It relies on the same condition as `ExpansionEndsPlain`.
- SlashCommands.ExpansionIsFinal: assumes the caret sits past its line start rather than that the line is a slash line. `SlashLineSpansText` supplies this assumption for slash lines.

## Findings

| source | as written | input that shows it | evidently intended | confidence | as-written member | corrected member |
|---|---|---|---|---|---|---|
| newtab.js:167-171 | when the stored mode is not `"slideshow"`, the stored-state callback only shows the wallpaper and does not stop a slideshow already running | click the slideshow button before `chrome.storage.local.get` answers, with `"static"` stored as the mode | like a thumbnail click, a static mode stops the slideshow, so no timer runs outside slideshow mode | low, not executed | `Wallpaper.ResumeRace` | `NewTab.OnStateLoadedCorrected` |
