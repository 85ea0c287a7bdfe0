# English teaching platform: search, search bar and file viewer

This project models, in Dafny, the parts of the platform's React front end
whose behaviour can be stated precisely:

- **Catalogue search** (`Catalogue`, `Teachers`, `Lessons`). The teacher
  directory and the lesson list each hold a constant list of records. Each
  shows either the whole list (empty search term) or, in list order, the
  records whose lower-cased name or subject (teachers), or title or level
  (lessons), contains the lower-cased term. The rule is written once, as
  `Catalogue.Filter`, and used by both pages. It is proved sound, complete
  (with multiplicities), order-preserving, idempotent and case-insensitive.
  The empty-term shortcut is proved to agree with the general filter, and
  the "no results" message is proved to appear exactly when nothing matches.
- **The search bar** (`SearchBar`). A class holding the typed text and the
  history of values reported to the page through `onSearch`. Every handler
  leaves the page searching for exactly what the box shows. Clearing the box
  brings the whole catalogue back (`Teachers.ClearShowsAllTeachers`,
  `Lessons.ClearShowsAllLessons`).
- **The file viewer/editor** (`FileContent`). The page's seven state
  variables form a value `ViewState`. Each handler is a function of the
  state (`Handle`), followed by the effect that copies `fileContent` into
  `editedContent` whenever `fileContent` changed (`SyncEffect`, `Step`).
  The class `FileContentView` has the same fields, which its handler
  methods update in place. Each handler method is proved to produce
  `Step(old state, event)`; `SyncEffectRun` produces `SyncEffect`, the
  constructor `Mounted()`, and download, copy and the badge colour only
  read the state. The
  asynchronous file read is two events: the upload handler starts it
  (`Upload`), and the browser later delivers `ReadLoaded` or `ReadFailed`.
  The main invariant is that outside edit mode the editor buffer equals the
  file's text. It holds on mounting and is kept by every event the page
  offers. The file-type badge colour lookup and the extension rule
  (`split('.').pop()`) are modelled as pure functions.
- **Text helpers** (`Text`): ASCII `toLowerCase`, `includes` (a scanning
  function proved equal to "occurs at some position"), and `split`/`join`
  on a separator, proved to be inverses.

The search fields are `name`/`subject` (teachers) and `title`/`level`
(lessons). Idempotence of the search is proved for every term, the empty
term included.

## Model

| member | source | states |
|---|---|---|
| Text.Lower | src/pages/Teachers.jsx:45-46 | `toLowerCase` keeps the length, turns each ASCII capital into its own lower-case letter, and leaves every other character unchanged |
| Text.Includes | src/pages/Teachers.jsx:45-46 | `includes` holds only when the term is no longer than the text, and always for the empty term |
| Text.LowerFacts | src/pages/Teachers.jsx:45-46 | `toLowerCase` keeps the length, leaves no upper-case ASCII letter, is idempotent, and maps only "" to "" |
| Text.IncludesIsContains | src/pages/Teachers.jsx:45-46 | `includes` is true exactly when the term occurs in the text at some position |
| Text.IncludesEmpty | src/pages/Lesson.jsx:36-41 | the empty string is included in every string |
| Text.Split | src/pages/FileContent.jsx:63 | `split` always yields at least one piece |
| Text.JoinSplit | src/pages/FileContent.jsx:63 | joining the pieces of a split with the separator gives the original string back |
| Text.SplitPiecesAreSeparatorFree | src/pages/FileContent.jsx:63 | no piece of a split contains the separator |
| Text.SplitJoin | src/pages/FileContent.jsx:63 | splitting separator-free pieces joined by the separator gives the pieces back |
| Text.SinglePieceIffSeparatorFree | src/pages/FileContent.jsx:63 | a string splits into one piece exactly when it has no separator |
| Text.Extension | src/pages/FileContent.jsx:63 | `split('.').pop()` yields a piece without a dot |
| Text.ExtensionIsLastDotFreeSuffix | src/pages/FileContent.jsx:63 | `name.split('.').pop()` is the longest dot-free suffix of the name: it ends the name, has no dot, and is the whole name or follows a dot |
| Text.ExtensionIsWholeNameIffNoDot | src/pages/FileContent.jsx:63 | the extension is the whole name exactly when the name has no dot |
| Catalogue.FieldMatches | src/pages/Teachers.jsx:45 | `field.toLowerCase().includes(term.toLowerCase())` holds exactly when the lower-cased term occurs in the lower-cased field |
| Catalogue.Matches | src/pages/Teachers.jsx:44-46 | the filter callback holds exactly when the lower-cased term occurs in the lower-cased first or second field |
| Catalogue.KeepMatching | src/pages/Teachers.jsx:43-47 | the kept records are no more than the list's, each one from the list and matching the term |
| Catalogue.Filter | src/pages/Teachers.jsx:41-48 | the shown records are no more than the list's and all from the list; for a non-empty term each one matches it |
| Catalogue.MatchesIsSubstring | src/pages/Teachers.jsx:43-47 | a record matches exactly when the lower-cased term occurs in the lower-cased first or second field; the empty term matches every record |
| Catalogue.ShortcutAgrees | src/pages/Lesson.jsx:36-41 | the empty-term shortcut returns what the general filter returns |
| Catalogue.KeepMatchingCounts | src/pages/Teachers.jsx:43-47 | each record occurs in the result as often as in the list if it matches, and not at all otherwise |
| Catalogue.KeepMatchingIsSubsequence | src/pages/Teachers.jsx:43 | the filter's result is a subsequence of the list |
| Catalogue.SubsequenceIsShorter | src/pages/Teachers.jsx:43 | a subsequence is no longer than the sequence it comes from |
| Catalogue.FilterSound | src/pages/Teachers.jsx:41-48 | every shown record is in the list and has the lower-cased term in a lower-cased field |
| Catalogue.FilterComplete | src/pages/Teachers.jsx:41-48 | every record of the list with the lower-cased term in a lower-cased field is shown |
| Catalogue.FilterKeepsOrder | src/pages/Teachers.jsx:41-48 | the shown records keep list order and are no more than the list |
| Catalogue.KeepMatchingIdempotent | src/pages/Lesson.jsx:37-41 | filtering a filtered list again by the same term changes nothing |
| Catalogue.FilterIdempotent | src/pages/Lesson.jsx:35-42 | searching the search result again by the same term gives the same list |
| Catalogue.KeepMatchingSameLower | src/pages/Lesson.jsx:39-40 | the filter depends on the term only through its lower-cased form |
| Catalogue.FilterIgnoresCase | src/pages/Teachers.jsx:45-46 | terms with the same lower-cased form give the same result |
| Catalogue.FilterEmptyIff | src/pages/Teachers.jsx:41-48 | the result is empty exactly when no record of the list matches |
| Catalogue.KeepMatchingNone | src/pages/Teachers.jsx:43-47 | when no record matches, the filter keeps nothing |
| Catalogue.KeepMatchingOnlyOne | src/pages/Teachers.jsx:43-47 | when exactly one record matches, the filter keeps that record alone |
| Teachers.FilteredTeachers | src/pages/Teachers.jsx:41-48 | at most the three teachers are shown, each one of them |
| Teachers.NoResultsShown | src/pages/Teachers.jsx:63 | the "no teacher found" message never appears for the empty term |
| Teachers.FilteredTeachersSpec | src/pages/Teachers.jsx:41-48 | the empty term shows `allTeachers` unchanged; otherwise exactly the teachers matching by name or subject are shown, in order; re-filtering changes nothing |
| Teachers.TeacherSearchIgnoresCase | src/pages/Teachers.jsx:45-46 | terms that lower-case alike show the same teachers |
| Teachers.NoTeacherResultsIff | src/pages/Teachers.jsx:63-66 | the "no teacher found" message appears exactly when the term is non-empty and matches no teacher's name or subject |
| Teachers.NoLetterC | src/pages/Teachers.jsx:45 | a text without the letter c, in either case, does not include "chen" once lower-cased |
| Teachers.MichaelMatchesChen | src/pages/Teachers.jsx:7-35 | "CHEN" lower-cased occurs in Michael Chen's name |
| Teachers.WithoutCNoChen | src/pages/Teachers.jsx:7-35 | a teacher whose name and subject hold no letter c does not match "CHEN" |
| Teachers.ChenMatchesOnlyMichael | src/pages/Teachers.jsx:7-35 | among the three teachers only Michael Chen matches "CHEN" |
| Teachers.SearchingChenFindsMichael | src/pages/Teachers.jsx:41-48 | searching "CHEN" shows exactly Michael Chen |
| Teachers.ClearShowsAllTeachers | src/pages/Teachers.jsx:56-59 | after the search bar is cleared the page shows all teachers and no "no results" message |
| Lessons.FilteredLessons | src/pages/Lesson.jsx:35-42 | at most the listed lessons are shown, each one of them |
| Lessons.NoResultsShown | src/pages/Lesson.jsx:57 | the "no lesson found" message never appears for the empty term |
| Lessons.FilteredLessonsSpec | src/pages/Lesson.jsx:35-42 | the empty term shows `allLessons` unchanged and agrees with the general filter; otherwise exactly the lessons matching by title or level are shown, in order; re-filtering changes nothing |
| Lessons.LessonSearchIgnoresCase | src/pages/Lesson.jsx:39-40 | terms that lower-case alike show the same lessons |
| Lessons.NoLessonResultsIff | src/pages/Lesson.jsx:57-60 | the "no lesson found" message appears exactly when the term is non-empty and matches no lesson's title or level |
| Lessons.NoGao | src/pages/Lesson.jsx:39-40 | a text without 高 does not include "高級" |
| Lessons.AdvancedMatchesOnlyThird | src/pages/Lesson.jsx:7-42 | among the three lessons only the advanced one matches "高級" |
| Lessons.SearchingAdvancedLevel | src/pages/Lesson.jsx:7-42 | searching the level "高級" shows exactly the advanced lesson |
| Lessons.ClearShowsAllLessons | src/pages/Lesson.jsx:50-53 | after the search bar is cleared the page shows all lessons and no "no results" message |
| SearchBar.SearchBar.constructor | src/components/SearchBar.jsx:5 | the box starts empty, nothing is reported yet, and the page term equals the box |
| SearchBar.SearchBar.Change | src/components/SearchBar.jsx:24-27 | typing sets the box to the value and reports exactly that value |
| SearchBar.SearchBar.Submit | src/components/SearchBar.jsx:7-10 | submitting reports the current text and leaves it unchanged |
| SearchBar.SearchBar.Clear | src/components/SearchBar.jsx:12-15 | clearing empties the box, reports "", and removes the clear button (shown only for non-empty text, :31-40) |
| SearchBar.SearchBar.ClearOffered | src/components/SearchBar.jsx:31-40 | the clear button is shown exactly while the page is searching for a non-empty term |
| FileContent.LoadExample | src/pages/FileContent.jsx:19-46 | the example text is non-empty and the editor buffer equals it; edit, loading and dialog flags are untouched |
| FileContent.Mounted | src/pages/FileContent.jsx:9-46 | the mounted page has text, is not editing, loading or asking to clear, and its buffer matches the text |
| FileContent.SyncEffect | src/pages/FileContent.jsx:48-50 | the effect keeps the text; when the text changed the buffer becomes the text, otherwise nothing changes |
| FileContent.FileTypeOf | src/pages/FileContent.jsx:63 | the type is the MIME type when there is one, otherwise a dot-free piece no longer than the name |
| FileContent.Handle | src/pages/FileContent.jsx:52-121 | a handler that changes the text also sets the buffer to it; only loading, saving or clearing change the text; only uploading or clearing change the name or type |
| FileContent.Step | src/pages/FileContent.jsx:48-121 | an offered event from a synced state leaves the state synced |
| FileContent.Offered | src/pages/FileContent.jsx:160-303 | edit, save, cancel and clear are offered only when there is text; typing only in edit mode |
| FileContent.ExportedContent | src/pages/FileContent.jsx:82 | from a synced state the exported text is the editor buffer; outside edit mode it is the file's text |
| FileContent.DownloadOffered | src/pages/FileContent.jsx:174-217 | the download button is shown exactly when the clear button is, and then editing or saving is offered too |
| FileContent.CopyOffered | src/pages/FileContent.jsx:174-193 | the copy button is shown only beside download and edit, and then copies the file's text |
| FileContent.DownloadName | src/pages/FileContent.jsx:87 | the download name is the file's name when it has one and `file.txt` otherwise |
| FileContent.MountedShowsExample | src/pages/FileContent.jsx:19-50 | the mounted page shows the sample `example.md` of type `markdown`, outside edit mode, with the invariant |
| FileContent.SyncEffectIsRedundant | src/pages/FileContent.jsx:48-50 | the effect on `fileContent` never changes anything: every handler that changes the text also sets the editor buffer to it |
| FileContent.StepKeepsSynced | src/pages/FileContent.jsx:98-121 | every offered event keeps "outside edit mode, `editedContent == fileContent`" |
| FileContent.RunKeepsSynced | src/pages/FileContent.jsx:42-50 | the invariant holds after any sequence of offered events |
| FileContent.ReachableIsSynced | src/pages/FileContent.jsx:42-50 | from the mounted page the invariant holds after any sequence of offered events |
| FileContent.UploadSizeLimit | src/pages/FileContent.jsx:54-59 | a file of exactly 5 MiB is accepted; a larger one, or no file, leaves the state unchanged |
| FileContent.AcceptedUpload | src/pages/FileContent.jsx:61-63 | an accepted upload starts loading and sets the name, and sets the type to the MIME type or else to the text after the last dot; text, editor and dialog are untouched |
| FileContent.ReadOutcomes | src/pages/FileContent.jsx:66-75 | a successful read puts the text in viewer and editor and stops loading; a failed read only stops loading |
| FileContent.CancelDiscardsEdit | src/pages/FileContent.jsx:117-121 | edit, type, cancel returns to exactly the state before editing |
| FileContent.SaveCommitsEdit | src/pages/FileContent.jsx:111-115 | edit, type, save makes the typed text the file's text and changes nothing else |
| FileContent.SaveAndCancel | src/pages/FileContent.jsx:111-121 | save sets the text to the buffer, cancel sets the buffer to the text, both leave edit mode, nothing else changes |
| FileContent.ClearRestoresBlank | src/pages/FileContent.jsx:98-108 | clear returns every field to its initial value except a loading flag still set by a pending read |
| FileContent.ExportIsEditorBuffer | src/pages/FileContent.jsx:82 | download exports the editor buffer in every state with the invariant; copy, offered only outside edit mode, exports the saved text |
| FileContent.EmptyPageHidesFileActions | src/pages/FileContent.jsx:160-230 | with no text none of edit, save, cancel, clear, download or copy is offered; upload is |
| FileContent.EmptyLoadDuringEditHidesExits | src/pages/FileContent.jsx:174-210 | an empty file loaded during an edit leaves edit mode on with no save, cancel or clear button |
| FileContent.TypeTable | src/pages/FileContent.jsx:133-140 | exactly md, js, jsx, py, java and txt have own entries: md primary, js and jsx warning, py secondary, java the error colour, txt gray600 |
| FileContent.TypeMapGet | src/pages/FileContent.jsx:133-141 | indexing the object literal yields a colour exactly for the six own keys, and nothing exactly for keys that are neither own nor `constructor`/`__proto__` |
| FileContent.FileTypeColorAsWritten | src/pages/FileContent.jsx:141 | the lookup reaches an inherited member exactly when the lower-cased type is `constructor` or `__proto__` |
| FileContent.ConstructorFileType | src/pages/FileContent.jsx:63 | a file `notes.constructor` without MIME type gets the type `constructor` |
| FileContent.InheritedKeyDefeatsFallback | src/pages/FileContent.jsx:132-141 | as written, the types `constructor` and `__proto__` yield a member of Object.prototype, not a colour |
| FileContent.FileTypeColor | src/pages/FileContent.jsx:132-141 | the badge colour is one of the theme's five colours, and gray600 for every type whose lower-cased form is not in the table |
| FileContent.FileTypeColorAgreesWithWritten | src/pages/FileContent.jsx:141 | the intended lookup agrees with the written one exactly for types that are not inherited member names |
| FileContent.FileTypeColorIgnoresCase | src/pages/FileContent.jsx:141 | types that lower-case alike get the same colour |
| FileContent.FileTypeColorTable | src/pages/FileContent.jsx:132-141 | md, js, jsx, py, java and txt get their colours whatever the case of the type |
| FileContent.FileTypeColorFallbacks | src/pages/FileContent.jsx:141 | `markdown` and every MIME type (which holds a slash) get gray600 |
| FileContent.FileContentView.constructor | src/pages/FileContent.jsx:9-46 | the component mounts in the state `Mounted()`, with the invariant |
| FileContent.FileContentView.SyncEffectRun | src/pages/FileContent.jsx:48-50 | the effect copies the text into the buffer when the text changed since its last run |
| FileContent.FileContentView.HandleFileUpload | src/pages/FileContent.jsx:52-78 | the new state is `Step(old, Upload(file))`; an oversized file raises the size error |
| FileContent.FileContentView.OnReadLoad | src/pages/FileContent.jsx:66-71 | the new state is `Step(old, ReadLoaded)`, with a success notice naming the file |
| FileContent.FileContentView.OnReadError | src/pages/FileContent.jsx:72-75 | the new state is `Step(old, ReadFailed)`, with an error notice |
| FileContent.FileContentView.StartEditing | src/pages/FileContent.jsx:180 | the new state is `Step(old, StartEdit)` |
| FileContent.FileContentView.EditText | src/pages/FileContent.jsx:268-273 | typing in the editor, rendered only in edit mode after loading, sets the buffer and keeps the invariant |
| FileContent.FileContentView.HandleSave | src/pages/FileContent.jsx:111-115 | the new state is `Step(old, Save)` |
| FileContent.FileContentView.HandleCancelEdit | src/pages/FileContent.jsx:117-121 | the new state is `Step(old, CancelEdit)` |
| FileContent.FileContentView.RequestClear | src/pages/FileContent.jsx:219-228 | the clear button opens the confirmation dialog and changes nothing else |
| FileContent.FileContentView.DismissClear | src/pages/FileContent.jsx:294-303 | the dialog's cancel closes it and changes nothing else |
| FileContent.FileContentView.HandleClear | src/pages/FileContent.jsx:98-109 | the new state is `Step(old, Clear)` |
| FileContent.FileContentView.HandleDownload | src/pages/FileContent.jsx:80-96 | the downloaded text is the editor buffer, under the file's name or `file.txt` |
| FileContent.FileContentView.HandleCopy | src/pages/FileContent.jsx:123-130 | the copied text is the editor buffer; the notice reports the clipboard's outcome |
| FileContent.FileContentView.BadgeColour | src/pages/FileContent.jsx:242-247 | the badge colour is the lookup of the current type, one of the theme's colours |

## Findings

| source | as written | input that shows it | evidently intended | confidence | as-written member | corrected member |
|---|---|---|---|---|---|---|
| src/pages/FileContent.jsx:141 | `typeMap[type.toLowerCase()] \|\| gray600` indexes a plain object literal, so the inherited keys `constructor` and `__proto__` are found, and both values are truthy | upload `notes.constructor` with an empty MIME type: the type is `constructor` and the badge colour is Object's constructor function | gray600 for every type outside the table | medium (not executed) | FileContent.InheritedKeyDefeatsFallback | FileContent.FileTypeColor |

`FileContent.FileTypeColorAsWritten` models the lookup as written.
`FileContent.FileTypeColor` is the corrected lookup, and the component uses
it.

## Left out

- The course and teacher detail pages (TeacherDetails.jsx, CourseDetails.jsx): backend queries guarded by an `isMounted` flag.
- `formatFileSize`: it uses floating-point `Math.log`, `Math.pow` and rounding.
- Browser I/O in the file page. FileReader, Blob, object URLs, the anchor click and the clipboard appear only through their effect on state. The two callbacks are separate events. The success or failure of download and copy is a boolean parameter.
- Several reads in flight. Each completion is an independent event, so completions may arrive in any order. The model does not tie a completion to the upload that started it.
- Resetting the file input's DOM value in `handleClear`. This is DOM state, not component state.
- The first render's effect ordering. On mount, the `fileContent` effect briefly queues an empty buffer behind the mount effect. The model starts from the settled state after mounting.
- The sample text is abbreviated to its first lines. Only its non-emptiness matters.
- Notice texts. Each notice is an enumerated message with a kind (success, error, info), not its Chinese text. The toast display and timers, and the toasts from the contact and enroll buttons, are left out.
- Presentation: avatars, colours of cards, tooltips, the spinner, the confirm dialog's layout, routing and the theme table.
- `toLowerCase` lowers only ASCII letters. Other characters, including the Chinese text of the catalogues, are left unchanged.
- Teacher ratings are whole tenths (4.9 is 49), not floats.
- Teachers.ClearShowsAllTeachers and Lessons.ClearShowsAllLessons model the page's term as the search bar's last report. The page component's own `useState` is not a separate object.
- FileContent.StepKeepsSynced is stated only for events the page offers. Typing into the editor outside edit mode would break the invariant, and the editor is not rendered then.
