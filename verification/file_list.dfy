/** The viewer's list of stored Markdown files and the selected file
    (the `files` and `selectedFile` state of src/App.tsx and the transitions
    that change them: restoring, dropping a batch, selecting and deleting).

Every transition is a pure function from the current state to the next one.
Reading a dropped file's text is browser I/O: a dropped file arrives here
together with the text already read from it. */
module FileList {
  import Chunker

  datatype Option<T> = None | Some(value: T)

  /** A stored document: its file name, its text and the text's chunks. */
  datatype FileContent = FileContent(name: string, content: string, chunks: seq<string>)

  /** A file handed over by the drop zone, with the text read from it. */
  datatype DroppedFile = DroppedFile(name: string, text: string)

  /** The stored files in list order, the selected file name, and the error
      message on screen. */
  datatype State = State(files: seq<FileContent>, selected: Option<string>, error: Option<string>)

  /** The message shown when a dropped batch holds a non-Markdown file. */
  const NotMarkdownMessage: string := "Only markdown files (.md) are supported"

  /** `name.endsWith('.md')`, case-sensitive. */
  predicate IsMarkdownName(name: string) {
    |name| >= 3 && name[|name| - 3..] == ".md"
  }

  /** Some stored file carries `name`. */
  ghost predicate Listed(files: seq<FileContent>, name: string) {
    exists i :: 0 <= i < |files| && files[i].name == name
  }

  /** Every stored file's chunks are the chunker's output for its text. */
  ghost predicate WellChunked(files: seq<FileContent>) {
    forall i :: 0 <= i < |files| ==> files[i].chunks == Chunker.SplitIntoChunks(files[i].content)
  }

  /** The state the viewer keeps: the selection, if any, names a stored file,
      and every stored file is chunked as the chunker would chunk it. */
  ghost predicate Valid(st: State) {
    && (st.selected.Some? ==> Listed(st.files, st.selected.value))
    && WellChunked(st.files)
  }

  /** `a` is `b` with some elements left out, the rest in their order. */
  ghost predicate IsSubsequence<T>(a: seq<T>, b: seq<T>)
    decreases |b|
  {
    if |a| == 0 then true
    else if |b| == 0 then false
    else if a[0] == b[0] then IsSubsequence(a[1..], b[1..])
    else IsSubsequence(a, b[1..])
  }

  /** How many stored files carry `name`. */
  function CountNamed(files: seq<FileContent>, name: string): nat {
    if |files| == 0 then 0
    else (if files[0].name == name then 1 else 0) + CountNamed(files[1..], name)
  }

  // ---------------------------------------------------------------------------
  // Start-up
  // ---------------------------------------------------------------------------

  /** The state after loading a saved file list: that list, the first file
      selected (none when the list is empty), no error. */
  function Restore(saved: seq<FileContent>): (st: State)
    ensures st.files == saved && st.error == None
    ensures st.selected.Some? <==> |saved| > 0
    ensures st.selected.Some? ==> st.selected.value == saved[0].name
    ensures st.selected.Some? ==> Listed(st.files, st.selected.value)
  {
    State(saved, if |saved| > 0 then Some(saved[0].name) else None, None)
  }

  // ---------------------------------------------------------------------------
  // Dropping a batch of files
  // ---------------------------------------------------------------------------

  /** Every file of the batch has a Markdown name. */
  function AllMarkdown(batch: seq<DroppedFile>): (ok: bool)
    ensures ok <==> forall i :: 0 <= i < |batch| ==> IsMarkdownName(batch[i].name)
  {
    |batch| == 0 || (IsMarkdownName(batch[0].name) && AllMarkdown(batch[1..]))
  }

  /** The stored record made from a dropped file. */
  function Intake(f: DroppedFile): (r: FileContent)
    ensures r.name == f.name && r.content == f.text
    ensures Chunker.Concat(r.chunks) == f.text
  {
    FileContent(f.name, f.text, Chunker.SplitIntoChunks(f.text))
  }

  /** Dropping a batch: the files the drop zone's `accept` filter let
      through. A batch with any name not ending in ".md" (case-sensitive) is
      rejected as a whole, leaving the files and the selection as they were;
      otherwise its records are appended in batch order and the first of them
      is selected. */
  function Drop(st: State, batch: seq<DroppedFile>): (r: State)
    ensures (exists i :: 0 <= i < |batch| && !IsMarkdownName(batch[i].name)) ==>
              && r.files == st.files
              && r.selected == st.selected
              && r.error == Some(NotMarkdownMessage)
    ensures (forall i :: 0 <= i < |batch| ==> IsMarkdownName(batch[i].name)) ==>
              && r.error == None
              && |r.files| == |st.files| + |batch|
              && r.files[..|st.files|] == st.files
              && (forall i :: 0 <= i < |batch| ==>
                    && r.files[|st.files| + i].name == batch[i].name
                    && r.files[|st.files| + i].content == batch[i].text
                    && r.files[|st.files| + i].chunks == Chunker.SplitIntoChunks(batch[i].text))
              && (|batch| > 0 ==> r.selected == Some(batch[0].name))
              && (|batch| == 0 ==> r.selected == st.selected)
  {
    if AllMarkdown(batch) then
      var added := seq(|batch|, i requires 0 <= i < |batch| => Intake(batch[i]));
      State(st.files + added, if |added| > 0 then Some(added[0].name) else st.selected, None)
    else
      st.(error := Some(NotMarkdownMessage))
  }

  // ---------------------------------------------------------------------------
  // Selecting, looking up and deleting
  // ---------------------------------------------------------------------------

  /** Clicking a file in the list selects its name. */
  function Select(st: State, name: string): (r: State)
    ensures r.files == st.files && r.error == st.error
    ensures r.selected == Some(name)
  {
    st.(selected := Some(name))
  }

  /** The position of the first stored file carrying `name`, if any. */
  function FindNamed(files: seq<FileContent>, name: string): (r: Option<nat>)
    ensures r.None? <==> !Listed(files, name)
    ensures r.Some? ==> r.value < |files| && files[r.value].name == name
    ensures r.Some? ==> forall j :: 0 <= j < r.value ==> files[j].name != name
  {
    if |files| == 0 then
      None
    else if files[0].name == name then
      Some(0)
    else
      match FindNamed(files[1..], name)
      case None =>
        assert forall j :: 1 <= j < |files| ==> files[j] == files[1..][j - 1];
        None
      case Some(k) =>
        assert files[k + 1] == files[1..][k];
        Some(k + 1)
  }

  /** The file shown in the viewer: the first stored file whose name is the
      selected name, or none when nothing is selected or nothing matches. */
  function SelectedFile(st: State): (r: Option<FileContent>)
    ensures r.None? <==> st.selected.None? || !Listed(st.files, st.selected.value)
    ensures r.Some? ==> st.selected == Some(r.value.name)
    ensures r.Some? ==> exists i :: 0 <= i < |st.files| && st.files[i] == r.value
                                    && forall j :: 0 <= j < i ==> st.files[j].name != r.value.name
  {
    match st.selected
    case None => None
    case Some(name) =>
      match FindNamed(st.files, name)
      case None => None
      case Some(i) => Some(st.files[i])
  }

  /** The files without those carrying `name`, the others in their order. */
  function RemoveNamed(files: seq<FileContent>, name: string): (r: seq<FileContent>)
    ensures forall f :: f in r <==> f in files && f.name != name
    ensures IsSubsequence(r, files)
    ensures |r| + CountNamed(files, name) == |files|
  {
    if |files| == 0 then
      []
    else
      var rest := RemoveNamed(files[1..], name);
      if files[0].name == name then
        rest
      else
        assert ([files[0]] + rest)[1..] == rest;
        [files[0]] + rest
  }

  /** Deleting a file name removes every stored file of that name; if that
      name was selected, the first remaining file becomes selected (or none),
      otherwise the selection stays. */
  function Delete(st: State, name: string): (r: State)
    ensures r.files == RemoveNamed(st.files, name)
    ensures !Listed(r.files, name)
    ensures st.selected == Some(name) ==>
              && (r.selected.Some? <==> |r.files| > 0)
              && (r.selected.Some? ==> r.selected.value == r.files[0].name)
    ensures st.selected != Some(name) ==> r.selected == st.selected
    ensures r.error == st.error
  {
    var remaining := RemoveNamed(st.files, name);
    var selected :=
      if st.selected == Some(name) then
        if |remaining| > 0 then Some(remaining[0].name) else None
      else
        st.selected;
    State(remaining, selected, st.error)
  }
}
