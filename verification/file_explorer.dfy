/**
 * The two pure pieces of the sidebar's file node, `FileNode` in
 * `src/application/sidebar/FileExplorer.tsx`: the rename validator
 * `isNameValid` and the `isFileActive` test against the two panes' editors.
 */
module FileExplorer {
  import opened Wrappers
  import opened Strings

  /** An entry of the explorer tree as `FileNode` sees it. */
  datatype ExplorerEntry = ExplorerEntry(name: string, path: string, isFolder: bool)

  /** The names of all entries listed beside a file, the file itself included. */
  function ExistingFileNames(siblings: seq<ExplorerEntry>): (names: seq<string>)
    ensures |names| == |siblings|
    ensures forall i :: 0 <= i < |siblings| ==> names[i] == siblings[i].name
  {
    seq(|siblings|, i requires 0 <= i < |siblings| => siblings[i].name)
  }

  /** `isNameValid`: reject a dotfile name, a name with a `/`, and a name already taken. */
  function IsNameValid(existingFileNames: seq<string>, name: string): bool {
    if StartsWith(name, ".") then false
    else if '/' in name then false
    else name !in existingFileNames
  }

  /** The validator accepts a name exactly when it is not hidden, has no separator, and is free. */
  lemma NameValidIff(existingFileNames: seq<string>, name: string)
    ensures IsNameValid(existingFileNames, name)
        <==> (name == [] || name[0] != '.') && (forall i :: 0 <= i < |name| ==> name[i] != '/') && name !in existingFileNames
  {
    if name != [] && name[0] == '.' {
      assert name[..1] == ".";
    }
    if '/' in name {
      var i :| 0 <= i < |name| && name[i] == '/';
    }
  }

  /** Adding names to the existing list never turns a rejected name into an accepted one. */
  lemma ValidatorMonotone(fewer: seq<string>, more: seq<string>, name: string)
    requires forall n :: n in fewer ==> n in more
    ensures IsNameValid(more, name) ==> IsNameValid(fewer, name)
  {
  }

  /** Submitting a file's current name unchanged is rejected, since its own name is among its siblings'. */
  lemma CurrentNameRejected(siblings: seq<ExplorerEntry>, i: nat)
    requires i < |siblings|
    ensures !IsNameValid(ExistingFileNames(siblings), siblings[i].name)
  {
    assert ExistingFileNames(siblings)[i] == siblings[i].name;
  }

  /** The ids of the panes' active editors, for the panes that have one, in pane order. */
  function ActiveIds(activeEditorIds: seq<Option<string>>, parseEditorId: string -> string): (ids: seq<string>)
    ensures forall x :: x in ids <==> exists j :: 0 <= j < |activeEditorIds| && activeEditorIds[j].Some? && parseEditorId(activeEditorIds[j].value) == x
  {
    if activeEditorIds == [] then []
    else
      var rest := ActiveIds(activeEditorIds[1..], parseEditorId);
      assert forall j :: 1 <= j < |activeEditorIds| ==> activeEditorIds[j] == activeEditorIds[1..][j - 1];
      match activeEditorIds[0]
      case None => rest
      case Some(editorId) => [parseEditorId(editorId)] + rest
  }

  /**
   * `isFileActive`: the file is active when its path is the id part of the
   * LEFT or the RIGHT pane's active editor. `parseEditorId` is given as a
   * function from an editor id to the id it names.
   */
  function IsFileActive(leftPaneActiveEditorId: Option<string>, rightPaneActiveEditorId: Option<string>, filePath: string, parseEditorId: string -> string): bool {
    filePath in ActiveIds([leftPaneActiveEditorId, rightPaneActiveEditorId], parseEditorId)
  }

  lemma IsFileActiveIff(left: Option<string>, right: Option<string>, filePath: string, parseEditorId: string -> string)
    ensures IsFileActive(left, right, filePath, parseEditorId)
        <==> (left.Some? && parseEditorId(left.value) == filePath) || (right.Some? && parseEditorId(right.value) == filePath)
  {
    var panes := [left, right];
    assert panes[0] == left && panes[1] == right;
  }
}
