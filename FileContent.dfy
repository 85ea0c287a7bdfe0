/**
 * The file viewer and editor page. It shows one text file, lets the user
 * upload another (at most 5 MiB), edit the text, save or cancel the edit,
 * clear the page after a confirmation, and download or copy the text.
 *
 * The page's state is modelled twice: as the value `ViewState` with the
 * function `Handle`, one match arm per handler (the specification), and as
 * the class `FileContentView`, whose fields the handlers update in place and
 * whose methods are proved to follow the specification.
 */
module FileContent {
  import opened Wrappers
  import opened Text

  /** Uploads larger than this many bytes are refused. */
  const MaxUploadBytes: nat := 5 * 1024 * 1024

  /** The chosen file as the browser describes it: name, MIME type (possibly
      empty) and size in bytes. */
  datatype FileInfo = FileInfo(name: string, mimeType: string, size: nat)

  /** The seven state variables of the page. */
  datatype ViewState = ViewState(
    fileContent: string,
    fileName: string,
    fileType: string,
    editedContent: string,
    isEditing: bool,
    isLoading: bool,
    showClearDialog: bool)

  /** The notifications the handlers raise. */
  datatype ToastKind = Success | Error | Info
  datatype Message =
    | TooLarge | Loaded(name: string) | ReadError | Saved | EditCancelled | Cleared
    | Downloaded | DownloadError | Copied | CopyFailed
  datatype Toast = Toast(kind: ToastKind, message: Message)

  /** The page's invariant: outside edit mode the editor buffer holds the file's text. */
  predicate Synced(v: ViewState) {
    !v.isEditing ==> v.editedContent == v.fileContent
  }

  /** The initial values of the state hooks. */
  const Blank: ViewState := ViewState("", "", "", "", false, false, false)

  /** The sample text the page opens with (its first lines; only its
      non-emptiness matters to the model). */
  const ExampleContent: string := "# 檔案內容範例\n\n這是一個檔案內容顯示頁面。\n"

  /** The mount effect: load the sample file. */
  function LoadExample(v: ViewState): (w: ViewState)
    ensures w.fileContent != "" && w.editedContent == w.fileContent
    ensures w.isEditing == v.isEditing && w.isLoading == v.isLoading && w.showClearDialog == v.showClearDialog
  {
    v.(fileContent := ExampleContent, fileName := "example.md", fileType := "markdown",
       editedContent := ExampleContent)
  }

  /** The effect that depends on `fileContent`: it runs after a render in
      which `fileContent` differs from its value at the previous run, and
      copies it into the editor buffer. */
  function SyncEffect(previousContent: string, v: ViewState): (w: ViewState)
    ensures w.fileContent == v.fileContent
    ensures w.fileContent != previousContent ==> w.editedContent == w.fileContent
    ensures w.fileContent == previousContent ==> w == v
    ensures w.(editedContent := v.editedContent) == v
  {
    if v.fileContent != previousContent then v.(editedContent := v.fileContent) else v
  }

  /** The page once mounted: the sample file, the effects settled. */
  function Mounted(): (v: ViewState)
    ensures Synced(v) && v.fileContent != "" && !v.isEditing && !v.isLoading && !v.showClearDialog
  {
    SyncEffect(Blank.fileContent, LoadExample(Blank))
  }

  /** `file.type || file.name.split('.').pop()` */
  function FileTypeOf(file: FileInfo): (fileType: string)
    ensures file.mimeType != "" ==> fileType == file.mimeType
    ensures file.mimeType == "" ==> '.' !in fileType && |fileType| <= |file.name|
  {
    ExtensionIsLastDotFreeSuffix(file.name);
    if file.mimeType != "" then file.mimeType else Extension(file.name)
  }

  /** The events the page reacts to: user actions and the two outcomes of the
      asynchronous file read started by an upload. */
  datatype Event =
    | Upload(chosen: Option<FileInfo>)
    | ReadLoaded(source: FileInfo, text: string)
    | ReadFailed
    | StartEdit
    | TypeText(text: string)
    | Save
    | CancelEdit
    | OpenClearDialog
    | CloseClearDialog
    | Clear

  /** The state updates a handler makes. */
  function Handle(v: ViewState, e: Event): (w: ViewState)
    ensures w.fileContent != v.fileContent ==> w.editedContent == w.fileContent
    ensures w.fileContent != v.fileContent ==> e.ReadLoaded? || e.Save? || e.Clear?
    ensures w.fileName != v.fileName || w.fileType != v.fileType ==> e.Upload? || e.Clear?
  {
    match e
    case Upload(None) => v
    case Upload(Some(f)) =>
      if f.size > MaxUploadBytes then v
      else v.(isLoading := true, fileName := f.name, fileType := FileTypeOf(f))
    case ReadLoaded(_, text) => v.(fileContent := text, editedContent := text, isLoading := false)
    case ReadFailed => v.(isLoading := false)
    case StartEdit => v.(isEditing := true)
    case TypeText(text) => v.(editedContent := text)
    case Save => v.(fileContent := v.editedContent, isEditing := false)
    case CancelEdit => v.(editedContent := v.fileContent, isEditing := false)
    case OpenClearDialog => v.(showClearDialog := true)
    case CloseClearDialog => v.(showClearDialog := false)
    case Clear =>
      v.(fileContent := "", fileName := "", fileType := "", editedContent := "",
         isEditing := false, showClearDialog := false)
  }

  /** One event: the handler's updates, then the effect if `fileContent` changed. */
  function Step(v: ViewState, e: Event): (w: ViewState)
    ensures Synced(v) && Offered(v, e) ==> Synced(w)
  {
    SyncEffect(v.fileContent, Handle(v, e))
  }

  /** A sequence of events, oldest first. */
  function Run(v: ViewState, events: seq<Event>): ViewState
    decreases |events|
  {
    if events == [] then v else Run(Step(v, events[0]), events[1..])
  }

  /** Which events the rendered page makes available in a state. The upload
      input is always rendered; read outcomes arrive whenever the browser
      delivers them; the other controls depend on the state. */
  predicate Offered(v: ViewState, e: Event)
    ensures Offered(v, e) && (e.StartEdit? || e.Save? || e.CancelEdit? || e.OpenClearDialog?) ==> v.fileContent != ""
    ensures Offered(v, e) && e.TypeText? ==> v.isEditing
  {
    match e
    case Upload(_) => true
    case ReadLoaded(_, _) => true
    case ReadFailed => true
    case StartEdit => v.fileContent != "" && !v.isEditing
    case TypeText(_) => v.isEditing && !v.isLoading
    case Save => v.fileContent != "" && v.isEditing
    case CancelEdit => v.fileContent != "" && v.isEditing
    case OpenClearDialog => v.fileContent != ""
    case CloseClearDialog => v.showClearDialog
    case Clear => v.showClearDialog
  }

  /** The download button is shown whenever there is text. */
  predicate DownloadOffered(v: ViewState)
    ensures DownloadOffered(v) <==> Offered(v, OpenClearDialog)
    ensures DownloadOffered(v) ==> Offered(v, StartEdit) || Offered(v, Save)
  {
    v.fileContent != ""
  }

  /** The copy button is shown only outside edit mode. */
  predicate CopyOffered(v: ViewState)
    ensures CopyOffered(v) ==> DownloadOffered(v) && Offered(v, StartEdit)
    ensures CopyOffered(v) ==> ExportedContent(v) == v.fileContent
  {
    v.fileContent != "" && !v.isEditing
  }

  /** The text that download and copy hand to the browser. */
  function ExportedContent(v: ViewState): (content: string)
    ensures Synced(v) ==> content == v.editedContent
    ensures !v.isEditing ==> content == v.fileContent
  {
    if v.isEditing then v.editedContent else v.fileContent
  }

  /** The name the download is saved under. */
  function DownloadName(v: ViewState): (name: string)
    ensures name != ""
    ensures v.fileName != "" ==> name == v.fileName
    ensures v.fileName == "" ==> name == "file.txt"
  {
    if v.fileName != "" then v.fileName else "file.txt"
  }

  // ---------------------------------------------------------------------------
  // Properties of the specification

  /** The page opens on the sample file, outside edit mode, with the invariant. */
  lemma MountedShowsExample()
    ensures Mounted() == ViewState(ExampleContent, "example.md", "markdown", ExampleContent, false, false, false)
    ensures Synced(Mounted())
  {
  }

  /** The effect never overwrites the editor buffer: every handler that changes
      `fileContent` has already put the same text into `editedContent`. */
  lemma SyncEffectIsRedundant(v: ViewState, e: Event)
    ensures Step(v, e) == Handle(v, e)
  {
  }

  /** Every event the page offers keeps the invariant. (Typing is offered
      only in edit mode; typing outside it would break the invariant.) */
  lemma StepKeepsSynced(v: ViewState, e: Event)
    requires Synced(v) && Offered(v, e)
    ensures Synced(Step(v, e))
  {
  }

  /** Each event of the sequence is offered in the state it arrives in. */
  ghost predicate AllOffered(v: ViewState, events: seq<Event>)
    decreases |events|
  {
    events == [] || (Offered(v, events[0]) && AllOffered(Step(v, events[0]), events[1..]))
  }

  /** The invariant holds after any sequence of offered events. */
  lemma {:induction false} RunKeepsSynced(v: ViewState, events: seq<Event>)
    requires Synced(v) && AllOffered(v, events)
    ensures Synced(Run(v, events))
    decreases |events|
  {
    if events != [] {
      StepKeepsSynced(v, events[0]);
      RunKeepsSynced(Step(v, events[0]), events[1..]);
    }
  }

  /** From the mounted page, whatever happens, outside edit mode the buffer
      holds the file's text. */
  lemma ReachableIsSynced(events: seq<Event>)
    requires AllOffered(Mounted(), events)
    ensures Synced(Run(Mounted(), events))
  {
    RunKeepsSynced(Mounted(), events);
  }

  /** The 5 MiB limit: a file of exactly 5 MiB is accepted, one byte more is
      refused and leaves the whole state unchanged; choosing no file changes
      nothing either. */
  lemma UploadSizeLimit(v: ViewState, name: string, mimeType: string, size: nat)
    ensures MaxUploadBytes == 5242880
    ensures Step(v, Upload(Some(FileInfo(name, mimeType, 5242880)))).isLoading
    ensures size > 5242880 ==> Step(v, Upload(Some(FileInfo(name, mimeType, size)))) == v
    ensures Step(v, Upload(None)) == v
  {
  }

  /** An accepted upload starts loading and records the file's name and type;
      without a MIME type the type is the text after the name's last dot (the
      whole name when it has none). The text, the editor and the dialog are
      untouched until the read completes. */
  lemma AcceptedUpload(v: ViewState, f: FileInfo)
    requires f.size <= MaxUploadBytes
    ensures var w := Step(v, Upload(Some(f)));
      && w.isLoading && w.fileName == f.name
      && (f.mimeType != "" ==> w.fileType == f.mimeType)
      && (f.mimeType == "" ==>
            && '.' !in w.fileType
            && |w.fileType| <= |f.name| && f.name[|f.name| - |w.fileType|..] == w.fileType
            && (|w.fileType| < |f.name| ==> f.name[|f.name| - |w.fileType| - 1] == '.'))
      && w.fileContent == v.fileContent && w.editedContent == v.editedContent
      && w.isEditing == v.isEditing && w.showClearDialog == v.showClearDialog
  {
    ExtensionIsLastDotFreeSuffix(f.name);
  }

  /** A successful read shows the text in both the viewer and the editor and
      stops loading; a failed read only stops loading. Edit mode is kept, so a
      read that completes during an edit replaces the edit. */
  lemma ReadOutcomes(v: ViewState, f: FileInfo, text: string)
    ensures Step(v, ReadLoaded(f, text)) == v.(fileContent := text, editedContent := text, isLoading := false)
    ensures Step(v, ReadFailed) == v.(isLoading := false)
  {
  }

  /** Editing then cancelling returns to exactly the state before the edit. */
  lemma CancelDiscardsEdit(v: ViewState, typed: string)
    requires Synced(v) && !v.isEditing
    ensures Run(v, [StartEdit, TypeText(typed), CancelEdit]) == v
  {
    var editing := Step(v, StartEdit);
    var typedIn := Step(editing, TypeText(typed));
    assert [StartEdit, TypeText(typed), CancelEdit][1..] == [TypeText(typed), CancelEdit];
    assert [TypeText(typed), CancelEdit][1..] == [CancelEdit];
    assert Run(typedIn, [CancelEdit]) == Step(typedIn, CancelEdit);
  }

  /** Editing then saving makes the typed text the file's text and leaves
      everything else as before the edit. */
  lemma SaveCommitsEdit(v: ViewState, typed: string)
    requires Synced(v) && !v.isEditing
    ensures Run(v, [StartEdit, TypeText(typed), Save]) == v.(fileContent := typed, editedContent := typed)
  {
    var editing := Step(v, StartEdit);
    var typedIn := Step(editing, TypeText(typed));
    assert [StartEdit, TypeText(typed), Save][1..] == [TypeText(typed), Save];
    assert [TypeText(typed), Save][1..] == [Save];
    assert Run(typedIn, [Save]) == Step(typedIn, Save);
  }

  /** Save and cancel both leave edit mode; save keeps the buffer, cancel keeps
      the file's text; nothing else changes. */
  lemma SaveAndCancel(v: ViewState)
    ensures Step(v, Save) == v.(fileContent := v.editedContent, isEditing := false)
    ensures Step(v, CancelEdit) == v.(editedContent := v.fileContent, isEditing := false)
    ensures Synced(Step(v, Save)) && Synced(Step(v, CancelEdit))
  {
  }

  /** Clearing returns the page to its blank initial values, except that a
      read still in progress keeps the page loading. */
  lemma ClearRestoresBlank(v: ViewState)
    ensures Step(v, Clear) == Blank.(isLoading := v.isLoading)
  {
  }

  /** Download exports the editor buffer in every state satisfying the
      invariant, and copy, offered only outside edit mode, exports the saved text. */
  lemma ExportIsEditorBuffer(v: ViewState)
    ensures Synced(v) ==> ExportedContent(v) == v.editedContent
    ensures CopyOffered(v) ==> ExportedContent(v) == v.fileContent
  {
  }

  /** With no text, none of edit, save, cancel, clear, download or copy is
      offered; upload is. */
  lemma EmptyPageHidesFileActions(v: ViewState)
    requires v.fileContent == ""
    ensures !Offered(v, StartEdit) && !Offered(v, Save) && !Offered(v, CancelEdit)
    ensures !Offered(v, OpenClearDialog) && !DownloadOffered(v) && !CopyOffered(v)
    ensures forall f :: Offered(v, Upload(f))
  {
  }

  /** Loading an empty file during an edit leaves the page in edit mode with
      the save and cancel buttons gone: only typing or another upload remain. */
  lemma EmptyLoadDuringEditHidesExits(v: ViewState, f: FileInfo)
    requires v.isEditing
    ensures var w := Step(v, ReadLoaded(f, ""));
      && w.isEditing && !Offered(w, Save) && !Offered(w, CancelEdit) && !Offered(w, OpenClearDialog)
      && Offered(w, TypeText("x"))
  {
  }

  // ---------------------------------------------------------------------------
  // The colour of the file-type badge

  const Primary: string := "#6366F1"
  const Warning: string := "#F59E0B"
  const Secondary: string := "#8B5CF6"
  const Danger: string := "#EF4444"
  const Gray600: string := "#4B5563"

  /** The own entries of the type-to-colour table. */
  function TypeTable(key: string): (entry: Option<string>)
    ensures entry.Some? <==> key in {"md", "js", "jsx", "py", "java", "txt"}
    ensures key == "md" ==> entry == Some(Primary)
    ensures key == "js" || key == "jsx" ==> entry == Some(Warning)
    ensures key == "py" ==> entry == Some(Secondary)
    ensures key == "java" ==> entry == Some(Danger)
    ensures key == "txt" ==> entry == Some(Gray600)
  {
    if key == "md" then Some(Primary)
    else if key == "js" || key == "jsx" then Some(Warning)
    else if key == "py" then Some(Secondary)
    else if key == "java" then Some(Danger)
    else if key == "txt" then Some(Gray600)
    else None
  }

  /** What indexing a plain object literal yields: an own entry, or a member
      inherited from Object.prototype (only `constructor` and `__proto__` have
      all-lower-case names, and both are truthy). */
  datatype PropertyValue = Colour(colour: string) | InheritedMember(member: string)

  function TypeMapGet(key: string): (value: Option<PropertyValue>)
    ensures value.Some? && value.value.Colour? <==> TypeTable(key).Some?
    ensures value.None? <==> key !in {"md", "js", "jsx", "py", "java", "txt", "constructor", "__proto__"}
  {
    match TypeTable(key)
    case Some(c) => Some(Colour(c))
    case None =>
      if key == "constructor" || key == "__proto__" then Some(InheritedMember(key)) else None
  }

  /** The lookup as written: `typeMap[type.toLowerCase()] || gray600`. Colours
      and inherited members are all truthy, so the fallback only covers
      missing keys. */
  function FileTypeColorAsWritten(fileType: string): (value: PropertyValue)
    ensures value.InheritedMember? <==> Lower(fileType) == "constructor" || Lower(fileType) == "__proto__"
  {
    match TypeMapGet(Lower(fileType))
    case Some(p) => p
    case None => Colour(Gray600)
  }

  /** A file named `notes.constructor` with no MIME type gets the type `constructor`. */
  lemma ConstructorFileType()
    ensures FileTypeOf(FileInfo("notes.constructor", "", 10)) == "constructor"
  {
    var name := "notes.constructor";
    ExtensionIsLastDotFreeSuffix(name);
    var ext := Extension(name);
    assert |ext| >= 11;
    assert ext == name[6..];
  }

  /** For the types `constructor` and `__proto__` the written lookup returns
      a member of Object.prototype instead of a colour. */
  lemma InheritedKeyDefeatsFallback()
    ensures FileTypeColorAsWritten("constructor") == InheritedMember("constructor")
    ensures FileTypeColorAsWritten("__proto__") == InheritedMember("__proto__")
  {
    LowerOfLowercase("constructor");
    LowerOfLowercase("__proto__");
  }

  /** The lookup as intended: the table's own entries, gray600 for every other type. */
  function FileTypeColor(fileType: string): (colour: string)
    ensures colour in {Primary, Warning, Secondary, Danger, Gray600}
    ensures Lower(fileType) !in {"md", "js", "jsx", "py", "java", "txt"} ==> colour == Gray600
  {
    match TypeTable(Lower(fileType))
    case Some(c) => c
    case None => Gray600
  }

  /** The intended lookup agrees with the written one exactly on the types
      whose lower-cased form is not an inherited member name. */
  lemma FileTypeColorAgreesWithWritten(fileType: string)
    ensures FileTypeColorAsWritten(fileType) == Colour(FileTypeColor(fileType))
        <==> Lower(fileType) != "constructor" && Lower(fileType) != "__proto__"
  {
  }

  /** The lookup ignores case. */
  lemma FileTypeColorIgnoresCase(type1: string, type2: string)
    requires Lower(type1) == Lower(type2)
    ensures FileTypeColor(type1) == FileTypeColor(type2)
  {
  }

  /** The table at work: every own entry, reached whatever the case of the type. */
  lemma FileTypeColorTable()
    ensures FileTypeColor("MD") == Primary && FileTypeColor("Jsx") == Warning
    ensures FileTypeColor("py") == Secondary && FileTypeColor("JAVA") == Danger
    ensures FileTypeColor("js") == Warning && FileTypeColor("Txt") == Gray600
  {
    assert Lower("MD") == "md";
    assert Lower("Jsx") == "jsx";
    assert Lower("JAVA") == "java";
    assert Lower("Txt") == "txt";
    LowerOfLowercase("py");
    LowerOfLowercase("js");
  }

  /** The fallback at work: `markdown` (the sample file's type) is not `md`,
      and a MIME type, which holds a slash, never matches an entry. */
  lemma FileTypeColorFallbacks(fileType: string)
    ensures FileTypeColor("markdown") == Gray600
    ensures '/' in fileType ==> FileTypeColor(fileType) == Gray600
  {
    LowerOfLowercase("markdown");
    if '/' in fileType {
      var i :| 0 <= i < |fileType| && fileType[i] == '/';
      assert Lower(fileType)[i] == '/';
    }
  }

  // ---------------------------------------------------------------------------
  // The component

  class FileContentView {
    var fileContent: string
    var fileName: string
    var fileType: string
    var editedContent: string
    var isEditing: bool
    var isLoading: bool
    var showClearDialog: bool

    /** The fields as one value. */
    function State(): ViewState
      reads this
    {
      ViewState(fileContent, fileName, fileType, editedContent, isEditing, isLoading, showClearDialog)
    }

    ghost predicate Valid()
      reads this
    {
      Synced(State())
    }

    /** Mounting: the hooks' initial values, then the mount effect. */
    constructor ()
      ensures State() == Mounted() && Valid()
    {
      fileContent, fileName, fileType, editedContent := "", "", "", "";
      isEditing, isLoading, showClearDialog := false, false, false;
      new;
      var previous := fileContent;
      fileContent := ExampleContent;
      fileName := "example.md";
      fileType := "markdown";
      editedContent := ExampleContent;
      SyncEffectRun(previous);
    }

    /** The effect on `fileContent`, given its value at the previous run. */
    method SyncEffectRun(previousContent: string)
      modifies this
      ensures State() == SyncEffect(previousContent, old(State()))
    {
      if fileContent != previousContent {
        editedContent := fileContent;
      }
    }

    /** Choosing a file: refuse it above 5 MiB, otherwise start loading it. */
    method HandleFileUpload(file: Option<FileInfo>) returns (toast: Option<Toast>)
      requires Valid()
      modifies this
      ensures State() == Step(old(State()), Upload(file)) && Valid()
      ensures toast == if file.Some? && file.value.size > MaxUploadBytes
                       then Some(Toast(Error, TooLarge)) else None
    {
      toast := None;
      var previous := fileContent;
      if file.Some? {
        var f := file.value;
        if f.size > 5 * 1024 * 1024 {
          toast := Some(Toast(Error, TooLarge));
          return;
        }
        isLoading := true;
        fileName := f.name;
        fileType := if f.mimeType != "" then f.mimeType else Extension(f.name);
      }
      SyncEffectRun(previous);
    }

    /** The reader's load callback. */
    method OnReadLoad(file: FileInfo, text: string) returns (toast: Toast)
      requires Valid()
      modifies this
      ensures State() == Step(old(State()), ReadLoaded(file, text)) && Valid()
      ensures toast == Toast(Success, Loaded(file.name))
    {
      var previous := fileContent;
      fileContent := text;
      editedContent := text;
      isLoading := false;
      toast := Toast(Success, Loaded(file.name));
      SyncEffectRun(previous);
    }

    /** The reader's error callback. */
    method OnReadError() returns (toast: Toast)
      requires Valid()
      modifies this
      ensures State() == Step(old(State()), ReadFailed) && Valid()
      ensures toast == Toast(Error, ReadError)
    {
      isLoading := false;
      toast := Toast(Error, ReadError);
    }

    /** The edit button. */
    method StartEditing()
      requires Valid()
      modifies this
      ensures State() == Step(old(State()), StartEdit) && Valid()
    {
      isEditing := true;
    }

    /** Typing in the editor, which is rendered only in edit mode once loading is over. */
    method EditText(text: string)
      requires Valid() && isEditing && !isLoading
      modifies this
      ensures State() == Step(old(State()), TypeText(text)) && Valid()
    {
      editedContent := text;
    }

    method HandleSave() returns (toast: Toast)
      requires Valid()
      modifies this
      ensures State() == Step(old(State()), Save) && Valid()
      ensures toast == Toast(Success, Saved)
    {
      var previous := fileContent;
      fileContent := editedContent;
      isEditing := false;
      toast := Toast(Success, Saved);
      SyncEffectRun(previous);
    }

    method HandleCancelEdit() returns (toast: Toast)
      requires Valid()
      modifies this
      ensures State() == Step(old(State()), CancelEdit) && Valid()
      ensures toast == Toast(Info, EditCancelled)
    {
      editedContent := fileContent;
      isEditing := false;
      toast := Toast(Info, EditCancelled);
    }

    /** The clear button opens the confirmation dialog. */
    method RequestClear()
      requires Valid()
      modifies this
      ensures State() == Step(old(State()), OpenClearDialog) && Valid()
    {
      showClearDialog := true;
    }

    /** The dialog's cancel button. */
    method DismissClear()
      requires Valid()
      modifies this
      ensures State() == Step(old(State()), CloseClearDialog) && Valid()
    {
      showClearDialog := false;
    }

    /** The dialog's confirm button. */
    method HandleClear() returns (toast: Toast)
      requires Valid()
      modifies this
      ensures State() == Step(old(State()), Clear) && Valid()
      ensures toast == Toast(Info, Cleared)
    {
      var previous := fileContent;
      fileContent := "";
      fileName := "";
      fileType := "";
      editedContent := "";
      isEditing := false;
      toast := Toast(Info, Cleared);
      showClearDialog := false;
      SyncEffectRun(previous);
    }

    /** Download: the buffer in edit mode, the file's text otherwise, under the
      file's name or `file.txt`; `browserOk` stands for the browser accepting
      the blob and the link click. */
    method HandleDownload(browserOk: bool) returns (content: string, name: string, toast: Toast)
      requires Valid()
      ensures content == ExportedContent(State()) && content == editedContent
      ensures name == DownloadName(State()) && name != ""
      ensures toast == if browserOk then Toast(Success, Downloaded) else Toast(Error, DownloadError)
    {
      content := if isEditing then editedContent else fileContent;
      name := if fileName != "" then fileName else "file.txt";
      toast := if browserOk then Toast(Success, Downloaded) else Toast(Error, DownloadError);
    }

    /** Copy: the same text selection; `clipboardOk` stands for the clipboard
      accepting the write. */
    method HandleCopy(clipboardOk: bool) returns (content: string, toast: Toast)
      requires Valid()
      ensures content == ExportedContent(State()) && content == editedContent
      ensures toast == if clipboardOk then Toast(Success, Copied) else Toast(Error, CopyFailed)
    {
      content := if isEditing then editedContent else fileContent;
      toast := if clipboardOk then Toast(Success, Copied) else Toast(Error, CopyFailed);
    }

    /** The badge colour for the current file type. */
    method BadgeColour() returns (colour: string)
      ensures colour == FileTypeColor(fileType)
      ensures colour in {Primary, Warning, Secondary, Danger, Gray600}
    {
      colour := FileTypeColor(fileType);
    }
  }
}
