/** The selection logic of the scanned-files list: which files are shown,
    and the set of selected paths that the handlers replace. */
module FilesList {
  import opened Wrappers
  import opened Seqs

  /** The fields of a frontend file record that the list logic reads. */
  datatype FileView = FileView(filePath: string, duplicate: bool)

  function IsDuplicate(f: FileView): bool { f.duplicate }

  /** `filesToDisplay`: the duplicate-flagged files when only duplicates are
      shown, all files otherwise. */
  function FilesToDisplay(files: seq<FileView>, showDuplicatesOnly: bool): (r: seq<FileView>)
    ensures forall f :: f in r <==> f in files && (showDuplicatesOnly ==> f.duplicate)
  {
    if showDuplicatesOnly then Filter(files, IsDuplicate) else files
  }

  /** The displayed files keep the order of the scan result, and without the
      flag nothing is hidden. */
  lemma FilesToDisplayIsSubSeq(files: seq<FileView>, showDuplicatesOnly: bool)
    ensures SubSeq(FilesToDisplay(files, showDuplicatesOnly), files)
    ensures !showDuplicatesOnly ==> FilesToDisplay(files, showDuplicatesOnly) == files
  {
    if showDuplicatesOnly {
      FilterIsSubSeq(files, IsDuplicate);
    } else {
      SubSeqReflexive(files);
    }
  }

  /** `files.map(f => f.filePath)`. */
  function Paths(files: seq<FileView>): (r: seq<string>)
    ensures |r| == |files|
    ensures forall i :: 0 <= i < |files| ==> r[i] == files[i].filePath
  {
    seq(|files|, i requires 0 <= i < |files| => files[i].filePath)
  }

  function NotEqual(p: string): string -> bool { (x: string) => x != p }

  /** The set after `delete(p)`: the other elements, in their order. */
  function Without(s: seq<string>, p: string): (r: seq<string>)
    ensures forall x :: x in r <==> x in s && x != p
  {
    Filter(s, NotEqual(p))
  }

  /** The selection after `handleFileSelect(p)` on a copy of the set `s`. */
  function Toggled(s: seq<string>, p: string): (r: seq<string>)
    ensures p in r <==> p !in s
    ensures forall x :: x != p ==> (x in r <==> x in s)
  {
    if p in s then Without(s, p) else s + [p]
  }

  /** A toggle keeps the selection free of repeats. */
  lemma ToggledKeepsNoRepeats(s: seq<string>, p: string)
    requires NoRepeats(s)
    ensures NoRepeats(Toggled(s, p))
  {
    if p in s {
      FilterNoRepeats(s, NotEqual(p));
    }
  }

  /** Toggling the same path twice restores the selected set; the order is
      restored too unless `p` was selected, in which case it moves to the
      end of the insertion order. */
  lemma ToggleTwice(s: seq<string>, p: string)
    requires NoRepeats(s)
    ensures forall x :: x in Toggled(Toggled(s, p), p) <==> x in s
    ensures p !in s ==> Toggled(Toggled(s, p), p) == s
    ensures p in s ==> Toggled(Toggled(s, p), p) == Without(s, p) + [p]
  {
    if p !in s {
      assert p in s + [p];
      FilterAppend(s, [p], NotEqual(p));
      FilterKeepsAll(s, NotEqual(p));
      assert Filter([p], NotEqual(p)) == [];
    }
  }

  /** The component's state: the selected paths and the duplicates-only flag. */
  class Selection {
    /** `selectedFiles`, a `Set` kept as its insertion-ordered contents. */
    var selected: seq<string>
    var showDuplicatesOnly: bool

    ghost predicate Valid()
      reads this
    {
      NoRepeats(selected)
    }

    /** The initial state: nothing selected, all files shown. */
    constructor()
      ensures Valid()
      ensures selected == [] && !showDuplicatesOnly
    {
      selected := [];
      showDuplicatesOnly := false;
    }

    /** `handleFileSelect`: toggle one path. */
    method HandleFileSelect(filePath: string)
      requires Valid()
      modifies this`selected
      ensures Valid()
      ensures selected == Toggled(old(selected), filePath)
    {
      var newSelected := selected;
      if filePath in newSelected {
        newSelected := Without(newSelected, filePath);
      } else {
        newSelected := newSelected + [filePath];
      }
      ToggledKeepsNoRepeats(selected, filePath);
      selected := newSelected;
    }

    /** `handleSelectAllDuplicates`: the selection becomes exactly the paths
        of the duplicate-flagged files; the old selection is dropped. */
    method HandleSelectAllDuplicates(files: seq<FileView>)
      modifies this`selected
      ensures Valid()
      ensures forall p :: p in selected <==>
        exists i :: 0 <= i < |files| && files[i].duplicate && files[i].filePath == p
    {
      var duplicateFiles := Filter(files, IsDuplicate);
      var duplicatePaths := Paths(duplicateFiles);
      selected := Dedup(duplicatePaths);
      forall p ensures p in selected <==>
        exists i :: 0 <= i < |files| && files[i].duplicate && files[i].filePath == p
      {
        if p in selected {
          var k :| 0 <= k < |duplicatePaths| && duplicatePaths[k] == p;
          assert duplicateFiles[k] in files;
        }
        if exists i :: 0 <= i < |files| && files[i].duplicate && files[i].filePath == p {
          var i :| 0 <= i < |files| && files[i].duplicate && files[i].filePath == p;
          assert files[i] in duplicateFiles;
          var k :| 0 <= k < |duplicateFiles| && duplicateFiles[k] == files[i];
          assert duplicatePaths[k] == p;
        }
      }
    }

    /** "Clear Selection". */
    method ClearSelection()
      modifies this`selected
      ensures Valid()
      ensures selected == []
    {
      selected := [];
    }

    /** The header checkbox: checked selects exactly the displayed paths,
        unchecked selects nothing. */
    method HeaderCheckbox(checked: bool, files: seq<FileView>)
      modifies this`selected
      ensures Valid()
      ensures forall p :: p in selected <==> (checked &&
        exists i :: 0 <= i < |files| && files[i].filePath == p && (showDuplicatesOnly ==> files[i].duplicate))
    {
      if checked {
        var shown := FilesToDisplay(files, showDuplicatesOnly);
        var paths := Paths(shown);
        selected := Dedup(paths);
        forall p ensures p in selected <==>
          exists i :: 0 <= i < |files| && files[i].filePath == p && (showDuplicatesOnly ==> files[i].duplicate)
        {
          if p in selected {
            var k :| 0 <= k < |paths| && paths[k] == p;
            assert shown[k] in files;
          }
          if exists i :: 0 <= i < |files| && files[i].filePath == p && (showDuplicatesOnly ==> files[i].duplicate) {
            var i :| 0 <= i < |files| && files[i].filePath == p && (showDuplicatesOnly ==> files[i].duplicate);
            assert files[i] in shown;
            var k :| 0 <= k < |shown| && shown[k] == files[i];
            assert paths[k] == p;
          }
        }
      } else {
        selected := [];
      }
    }

    /** `handleDeleteSelected`: with a non-empty selection, hand exactly the
        selected paths to the delete callback once and clear the selection;
        with an empty one, do nothing. */
    method HandleDeleteSelected() returns (deleted: Option<seq<string>>)
      requires Valid()
      modifies this`selected
      ensures Valid()
      ensures old(selected) == [] ==> deleted == None && selected == old(selected)
      ensures old(selected) != [] ==> deleted == Some(old(selected)) && selected == []
    {
      if |selected| > 0 {
        deleted := Some(selected);
        selected := [];
      } else {
        deleted := None;
      }
    }

    /** The "Show duplicates only" checkbox. */
    method SetShowDuplicatesOnly(checked: bool)
      modifies this`showDuplicatesOnly
      ensures showDuplicatesOnly == checked
    {
      showDuplicatesOnly := checked;
    }
  }
}
