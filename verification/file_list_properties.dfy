/** Properties of the file-list transitions: the state invariant they keep,
    how they undo or repeat each other, and the shown file. */
module FileListProperties {
  import Chunker
  import ChunkerProperties
  import opened FileList

  /** Dropping a batch keeps the selection pointing at a stored file and
      every stored file chunked by the chunker. */
  lemma DropKeepsValid(st: State, batch: seq<DroppedFile>)
    requires Valid(st)
    ensures Valid(Drop(st, batch))
  {
    var r := Drop(st, batch);
    if AllMarkdown(batch) {
      forall i | 0 <= i < |r.files|
        ensures r.files[i].chunks == Chunker.SplitIntoChunks(r.files[i].content)
      {
        if i < |st.files| {
          assert r.files[i] == r.files[..|st.files|][i];
        }
      }
      if |batch| > 0 {
        assert r.files[|st.files| + 0].name == batch[0].name;
      } else if st.selected.Some? {
        var i :| 0 <= i < |st.files| && st.files[i].name == st.selected.value;
        assert r.files[i] == r.files[..|st.files|][i];
      }
    }
  }

  /** Selecting a stored file's name keeps the state valid. */
  lemma SelectKeepsValid(st: State, name: string)
    requires Valid(st)
    requires Listed(st.files, name)
    ensures Valid(Select(st, name))
  {
  }

  /** Deleting a name keeps the state valid: a selection that was not deleted
      still names a stored file, and a repaired one names the first file. */
  lemma DeleteKeepsValid(st: State, name: string)
    requires Valid(st)
    ensures Valid(Delete(st, name))
  {
    var r := Delete(st, name);
    forall i | 0 <= i < |r.files|
      ensures r.files[i].chunks == Chunker.SplitIntoChunks(r.files[i].content)
    {
      assert r.files[i] in st.files;
    }
    if st.selected.Some? && st.selected.value != name {
      var i :| 0 <= i < |st.files| && st.files[i].name == st.selected.value;
      assert st.files[i] in r.files;
    }
  }

  /** In a valid state with a selection, the viewer shows a stored file of
      that name, and its chunks put together give back its text. */
  lemma SelectionIsShown(st: State)
    requires Valid(st)
    requires st.selected.Some?
    ensures SelectedFile(st).Some?
    ensures SelectedFile(st).value.name == st.selected.value
    ensures Chunker.Concat(SelectedFile(st).value.chunks) == SelectedFile(st).value.content
  {
    var f := SelectedFile(st).value;
    var i :| 0 <= i < |st.files| && st.files[i] == f;
  }

  /** Dropping a file whose name is already stored appends a second record,
      but the viewer keeps showing the earlier record of that name. */
  lemma DroppingAgainShowsEarlierRecord(st: State, d: DroppedFile, i: nat)
    requires IsMarkdownName(d.name)
    requires i < |st.files| && st.files[i].name == d.name
    requires forall j :: 0 <= j < i ==> st.files[j].name != d.name
    ensures |Drop(st, [d]).files| == |st.files| + 1
    ensures SelectedFile(Drop(st, [d])) == Some(st.files[i])
  {
    var r := Drop(st, [d]);
    assert r.files[..|st.files|] == st.files;
    assert forall j :: 0 <= j <= i ==> r.files[j] == r.files[..|st.files|][j];
    var k := FindNamed(r.files, d.name);
    assert r.files[i].name == d.name;
    assert k.Some? && k.value == i;
  }

  lemma {:induction false} RemoveUnlisted(files: seq<FileContent>, name: string)
    requires !Listed(files, name)
    ensures RemoveNamed(files, name) == files
  {
    if |files| > 0 {
      assert files[0].name != name;
      assert forall j :: 0 <= j < |files[1..]| ==> files[1..][j] == files[j + 1];
      RemoveUnlisted(files[1..], name);
    }
  }

  /** Deleting the name of a file just dropped into a list that did not hold
      that name gives back the list from before the drop. */
  lemma DeleteUndoesDrop(st: State, d: DroppedFile)
    requires IsMarkdownName(d.name)
    requires !Listed(st.files, d.name)
    ensures Delete(Drop(st, [d]), d.name).files == st.files
  {
    var r := Drop(st, [d]);
    assert r.files == st.files + [Intake(d)] by {
      assert r.files[..|st.files|] == st.files;
    }
    RemoveAppend(st.files, Intake(d), d.name);
    RemoveUnlisted(st.files, d.name);
  }

  lemma {:induction false} RemoveAppend(files: seq<FileContent>, f: FileContent, name: string)
    requires f.name == name
    ensures RemoveNamed(files + [f], name) == RemoveNamed(files, name)
  {
    if |files| == 0 {
      assert files + [f] == [f];
      assert [f][1..] == [];
    } else {
      assert (files + [f])[1..] == files[1..] + [f];
      RemoveAppend(files[1..], f, name);
    }
  }

  /** Deleting the same name twice is the same as deleting it once. */
  lemma DeleteIdempotent(st: State, name: string)
    ensures Delete(Delete(st, name), name) == Delete(st, name)
  {
    var r := Delete(st, name);
    RemoveUnlisted(r.files, name);
    if r.selected.Some? && st.selected == Some(name) {
      assert r.files[0].name != name;
    }
  }

  /** Dropping "notes.md" holding "A\n\nB" into an empty viewer stores one
      record whose single chunk is the whole text and selects it; deleting
      "notes.md" afterwards empties the list and clears the selection. */
  lemma NotesScenario()
    ensures var st := Drop(Restore([]), [DroppedFile("notes.md", "A\n\nB")]);
            && st.files == [FileContent("notes.md", "A\n\nB", ["A\n\nB"])]
            && st.selected == Some("notes.md")
            && Delete(st, "notes.md").files == []
            && Delete(st, "notes.md").selected == None
  {
    var d := DroppedFile("notes.md", "A\n\nB");
    assert IsMarkdownName(d.name) by {
      assert d.name[|d.name| - 3..] == ".md";
    }
    ChunkerProperties.ShortTextIsOneChunk(d.text, Chunker.ChunkSize);
    var st := Drop(Restore([]), [d]);
    assert st.files == [FileContent("notes.md", "A\n\nB", ["A\n\nB"])];
    assert st.files[0].name == "notes.md";
  }
}
