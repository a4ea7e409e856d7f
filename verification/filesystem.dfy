/**
 * The project path layer of `src/io/filesystem.ts`: translation between
 * project-relative paths ("ref-studio paths", always starting with the host
 * separator) and host system paths, the uploads/exports helpers, conversion of
 * a raw directory listing into a `FileEntry` tree, dispatch of a file to an
 * editor content kind, the rename guard and the Markdown export file name.
 *
 * The host separator `sep` ('/' or '\') is a parameter of the pure functions.
 */
module Filesystem {
  import opened Wrappers
  import opened Strings

  const UploadsDir := "uploads"
  const ExportsDir := "exports"

  // ---------------------------------------------------------------------------
  // Path translation
  // ---------------------------------------------------------------------------

  /** `a` without its trailing separator, if it has one. */
  function DropTrailingSep(a: string, sep: char): string {
    if a != "" && a[|a| - 1] == sep then a[..|a| - 1] else a
  }

  /** `b` without its leading separator, if it has one. */
  function DropLeadingSep(b: string, sep: char): string {
    if b != "" && b[0] == sep then b[1..] else b
  }

  /**
   * The host's path `join` of two parts: exactly one separator at the seam,
   * an empty part contributes nothing.
   */
  function HostJoin(a: string, b: string, sep: char): (r: string)
    ensures a == "" ==> r == b
    ensures a != "" && b == "" ==> r == a
  {
    if a == "" then b
    else if b == "" then a
    else if a[|a| - 1] == sep && b[0] == sep then a + b[1..]
    else if a[|a| - 1] == sep || b[0] == sep then a + b
    else a + [sep] + b
  }

  /** Two non-empty parts, each without its separator at the seam, are joined by exactly one separator. */
  lemma HostJoinSeam(a: string, b: string, sep: char)
    requires a != "" && b != ""
    ensures HostJoin(a, b, sep) == DropTrailingSep(a, sep) + [sep] + DropLeadingSep(b, sep)
  {
    assert a[|a| - 1] == sep ==> a == a[..|a| - 1] + [sep];
    assert b[0] == sep ==> b == [sep] + b[1..];
  }

  /** A host directory path that `HostJoin` extends with exactly one separator. */
  predicate IsBaseDir(base: string, sep: char) {
    base == "" || base[|base| - 1] != sep
  }

  /** `getSystemPath` for the project rooted at `base`: a project-relative path is appended to the base. */
  function SystemPath(base: string, rsPath: string, sep: char): (r: string)
    ensures IsBaseDir(base, sep) && (rsPath == "" || rsPath[0] == sep) ==> r == base + rsPath
  {
    HostJoin(base, rsPath, sep)
  }

  /** A segment that the host's path normalisation keeps as it is. */
  predicate PlainSegment(s: string) {
    s != "" && s != "." && s != ".."
  }

  /** A path that normalisation leaves unchanged: empty, or a separator followed by plain segments. */
  predicate NormalPath(p: string, sep: char) {
    p == "" || (p[0] == sep && forall s :: s in Split(p[1..], sep) ==> PlainSegment(s))
  }

  /** The characters that are special in a JavaScript regular expression, apart from '.'. */
  const RegexMetacharacters := "\\^$*+?()[]{}|"

  /**
   * A base directory that the pattern `^base` matches only as itself at the
   * start of `base + rest`: it holds no metacharacter except '.', which
   * matches any one character and so in particular itself.
   */
  predicate RegexLiteral(base: string) {
    forall i :: 0 <= i < |base| ==> base[i] !in RegexMetacharacters
  }

  /** `getRefStudioPath` for the project rooted at `base`: the base is removed when it is a literal prefix. */
  function StripBase(base: string, absolutePath: string): (r: string)
    ensures StartsWith(absolutePath, base) ==> base + r == absolutePath
    ensures !StartsWith(absolutePath, base) ==> r == absolutePath
  {
    if StartsWith(absolutePath, base) then absolutePath[|base|..] else absolutePath
  }

  /**
   * A project-relative path (or the empty root path) survives the trip to a
   * system path and back, when normalisation and the pattern leave both parts
   * as they are.
   */
  lemma SystemPathRoundTrip(base: string, rsPath: string, sep: char)
    requires IsBaseDir(base, sep) && NormalPath(base, sep) && RegexLiteral(base)
    requires NormalPath(rsPath, sep)
    ensures StripBase(base, SystemPath(base, rsPath, sep)) == rsPath
  {
    assert base != "" && rsPath != "" ==> SystemPath(base, rsPath, sep) == base + rsPath;
    assert StartsWith(base + rsPath, base) by {
      assert (base + rsPath)[..|base|] == base;
    }
  }

  /** A bare name (no leading separator) comes back with a separator in front. */
  lemma BareNameGainsSeparator(base: string, name: string, sep: char)
    requires base != "" && IsBaseDir(base, sep) && NormalPath(base, sep) && RegexLiteral(base)
    requires name != "" && name[0] != sep && NormalPath([sep] + name, sep)
    ensures StripBase(base, SystemPath(base, name, sep)) == [sep] + name
  {
    assert SystemPath(base, name, sep) == base + ([sep] + name);
    assert StartsWith(base + ([sep] + name), base) by {
      assert (base + ([sep] + name))[..|base|] == base;
    }
  }

  /** `makeRefStudioPath`: the name behind a leading separator. */
  function MakeRefStudioPath(fileName: string, sep: char): (r: string)
    ensures r != "" && r[0] == sep && r[1..] == fileName
  {
    [sep] + fileName
  }

  /** A name placed at the project root has the segments of the name after the root's empty one. */
  lemma RefStudioPathSegments(fileName: string, sep: char)
    ensures Split(MakeRefStudioPath(fileName, sep), sep) == [""] + Split(fileName, sep)
  {
    SplitAppend("", sep, fileName);
    assert "" + [sep] + fileName == MakeRefStudioPath(fileName, sep);
  }

  /** `splitRefStudioPath`: the separator-free segments that join back to the path. */
  function SplitRefStudioPath(filePath: string, sep: char): (parts: seq<string>)
    ensures |parts| >= 1 && Join(parts, sep) == filePath
    ensures forall i :: 0 <= i < |parts| ==> sep !in parts[i]
  {
    JoinSplit(filePath, sep);
    Split(filePath, sep)
  }

  /** `getParentFolder`: split, drop the last segment, join again. */
  function GetParentFolder(filePath: string, sep: char): (r: string)
    ensures sep !in filePath ==> r == ""
    ensures sep in filePath ==> filePath == r + [sep] + LastSegment(filePath, sep)
  {
    JoinInitSplit(filePath, sep);
    var parts := Split(filePath, sep);
    Join(parts[..|parts| - 1], sep)
  }

  /** The parent of `p + sep + n` is `p` for every name `n` without a separator. */
  lemma ParentOfChild(p: string, n: string, sep: char)
    requires sep !in n
    ensures GetParentFolder(p + [sep] + n, sep) == p
  {
    SplitAppendDropLast(p, sep, n);
  }

  /** A top-level path has the root `""` as parent and as first segment. */
  lemma TopLevelPath(n: string, sep: char)
    requires sep !in n
    ensures GetParentFolder(MakeRefStudioPath(n, sep), sep) == ""
    ensures SplitRefStudioPath(MakeRefStudioPath(n, sep), sep) == ["", n]
  {
    assert MakeRefStudioPath(n, sep) == "" + [sep] + n;
    ParentOfChild("", n, sep);
    SplitAppend("", sep, n);
    SplitNoSeparator(n, sep);
  }

  // ---------------------------------------------------------------------------
  // Uploads and exports
  // ---------------------------------------------------------------------------

  /** A folder made with `makeRefStudioPath` from a separator-free name sits at the root under that name. */
  lemma TopLevelFolder(n: string, sep: char)
    ensures sep !in n ==>
      GetParentFolder(MakeRefStudioPath(n, sep), sep) == "" && LastSegment(MakeRefStudioPath(n, sep), sep) == n
  {
    if sep !in n {
      TopLevelPath(n, sep);
      LastSegmentOfChild("", n, sep);
      assert MakeRefStudioPath(n, sep) == "" + [sep] + n;
    }
  }

  /** `getUploadsDir`: the top-level "uploads" folder. */
  function GetUploadsDir(sep: char): string {
    MakeRefStudioPath(UploadsDir, sep)
  }

  /** `getExportsDir`: the top-level "exports" folder. */
  function GetExportsDir(sep: char): string {
    MakeRefStudioPath(ExportsDir, sep)
  }

  /** The uploads and exports folders sit at the root under their own names. */
  lemma DataFoldersAtRoot(sep: char)
    requires sep !in UploadsDir && sep !in ExportsDir
    ensures GetParentFolder(GetUploadsDir(sep), sep) == "" && LastSegment(GetUploadsDir(sep), sep) == UploadsDir
    ensures GetParentFolder(GetExportsDir(sep), sep) == "" && LastSegment(GetExportsDir(sep), sep) == ExportsDir
  {
    TopLevelFolder(UploadsDir, sep);
    TopLevelFolder(ExportsDir, sep);
  }

  /** A path that starts with a separator and a separator-free `n` has `n` at the head of its first folder. */
  lemma FirstFolder(p: string, n: string, sep: char)
    ensures StartsWith(p, [sep] + n) && sep !in n ==>
      var parts := Split(p, sep); |parts| >= 2 && parts[0] == "" && StartsWith(parts[1], n)
  {
    if StartsWith(p, [sep] + n) && sep !in n {
      var rest := p[|n| + 1..];
      assert p == "" + [sep] + (n + rest);
      SplitAppend("", sep, n + rest);
      SplitFirstPart(n, rest, sep);
      assert Split(p, sep)[1] == n + Split(rest, sep)[0];
    }
  }

  /**
   * `isInUploadsDir`: a plain string-prefix test. A path it accepts has its
   * first folder below the root starting with "uploads".
   */
  predicate IsInUploadsDir(relativePath: string, sep: char)
    ensures IsInUploadsDir(relativePath, sep) && sep !in UploadsDir ==>
      var parts := Split(relativePath, sep); |parts| >= 2 && parts[0] == "" && StartsWith(parts[1], UploadsDir)
  {
    FirstFolder(relativePath, UploadsDir, sep);
    StartsWith(relativePath, [sep] + UploadsDir)
  }

  /** `makeUploadPath`: the file sits directly under the uploads folder. */
  function MakeUploadPath(filename: string, sep: char): (r: string)
    ensures IsInUploadsDir(r, sep)
    ensures r == [sep] + UploadsDir + [sep] + filename
  {
    var r := GetUploadsDir(sep) + [sep] + filename;
    assert r[..|[sep] + UploadsDir|] == [sep] + UploadsDir;
    r
  }

  /** The parent folder of an uploaded file is the uploads folder. */
  lemma UploadParent(filename: string, sep: char)
    requires sep !in filename
    ensures GetParentFolder(MakeUploadPath(filename, sep), sep) == GetUploadsDir(sep)
  {
    ParentOfChild(GetUploadsDir(sep), filename, sep);
  }

  /** Being a string prefix, the uploads test also accepts a sibling folder whose name extends "uploads". */
  lemma UploadsTestIsStringPrefix(sep: char, rest: string)
    ensures IsInUploadsDir([sep] + "uploads-old" + rest, sep)
  {
    assert ([sep] + "uploads-old" + rest)[..8] == [sep] + UploadsDir;
  }

  // ---------------------------------------------------------------------------
  // File entries
  // ---------------------------------------------------------------------------

  /** An entry of the host's recursive directory listing; a folder carries a children list. */
  datatype TauriFileEntry = TauriFileEntry(path: string, name: Option<string>, children: Children)

  /** The optional `children` field of a listing entry. */
  datatype Children = NoChildren | Children(entries: seq<TauriFileEntry>)

  datatype FileEntry =
    | FolderEntry(name: string, path: string, isDotfile: bool, children: seq<FileEntry>)
    | FileFileEntry(name: string, path: string, isDotfile: bool, fileExtension: string)
  {
    predicate IsFolder() { FolderEntry? }
    predicate IsFile() { !IsFolder() }
  }

  /** The lower-cased text after the last '.', or "" for a name without '.'. */
  function FileExtension(name: string): (ext: string)
    ensures '.' !in name ==> ext == ""
  {
    SplitSeveralParts(name, '.');
    var nameParts := Split(name, '.');
    if |nameParts| > 1 then Lower(nameParts[|nameParts| - 1]) else ""
  }

  /** A name with a dot is its text before the last dot, the dot, and a dot-free rest, which lower-cased is the extension. */
  lemma ExtensionOfDottedName(name: string)
    requires '.' in name
    ensures name == BeforeLastDot(name) + "." + LastSegment(name, '.')
    ensures '.' !in LastSegment(name, '.') && FileExtension(name) == Lower(LastSegment(name, '.'))
  {
    SplitSeveralParts(name, '.');
    JoinInitSplit(name, '.');
  }

  /** The extension is the lower-cased text after the last dot, even when the text before it is empty. */
  lemma {:induction false} ExtensionAfterLastDot(stem: string, ext: string)
    requires '.' !in ext
    ensures FileExtension(stem + "." + ext) == Lower(ext)
  {
    SplitAppend(stem, '.', ext);
    SplitNoSeparator(ext, '.');
  }

  lemma DotfileExtension()
    ensures FileExtension(".bashrc") == "bashrc"
    ensures StartsWith(".bashrc", ".")
  {
    var ext := "bashrc";
    ExtensionAfterLastDot("", ext);
    assert "" + "." + ext == ".bashrc";
    LowerWithoutCapitals(ext);
  }

  /** `convertTauriFileEntryToFileEntry` for the project rooted at `base`. */
  function ConvertTauriFileEntry(base: string, entry: TauriFileEntry): FileEntry
    decreases entry
  {
    var name := entry.name.GetOr("");
    var isDotfile := StartsWith(name, ".");
    var refStudioPath := StripBase(base, entry.path);
    match entry.children
    case Children(cs) =>
      FolderEntry(name, refStudioPath, isDotfile,
                  seq(|cs|, i requires 0 <= i < |cs| => assert cs[i] in cs; ConvertTauriFileEntry(base, cs[i])))
    case NoChildren =>
      FileFileEntry(name, refStudioPath, isDotfile, FileExtension(name))
  }

  /**
   * One node of a tree in pre-order: its path, its name, whether it is a
   * folder, and how many children it has. With the child counts a pre-order
   * list fixes the tree's shape: each node's children are the next subtrees.
   */
  datatype OutlineItem = OutlineItem(path: string, name: string, isFolder: bool, childCount: nat)

  function Flatten<T>(xss: seq<seq<T>>): seq<T> {
    if xss == [] then [] else xss[0] + Flatten(xss[1..])
  }

  /** The converted tree in pre-order. */
  function Outline(f: FileEntry): seq<OutlineItem>
    decreases f
  {
    [OutlineItem(f.path, f.name, f.IsFolder(), if f.FolderEntry? then |f.children| else 0)]
    + if f.FolderEntry? then
        Flatten(seq(|f.children|, i requires 0 <= i < |f.children| => Outline(f.children[i])))
      else []
  }

  /** The raw listing in pre-order, with the host's paths and names as given. */
  function RawOutline(e: TauriFileEntry): seq<OutlineItem>
    decreases e
  {
    [OutlineItem(e.path, e.name.GetOr(""), e.children.Children?, if e.children.Children? then |e.children.entries| else 0)]
    + match e.children
      case Children(cs) => Flatten(seq(|cs|, i requires 0 <= i < |cs| => assert cs[i] in cs; RawOutline(cs[i])))
      case NoChildren => []
  }

  /** Every path of an outline made project-relative. */
  function Relativize(base: string, items: seq<OutlineItem>): (r: seq<OutlineItem>)
    ensures |r| == |items|
  {
    seq(|items|, i requires 0 <= i < |items| => items[i].(path := StripBase(base, items[i].path)))
  }

  lemma {:induction false} RelativizeAppend(base: string, a: seq<OutlineItem>, b: seq<OutlineItem>)
    ensures Relativize(base, a + b) == Relativize(base, a) + Relativize(base, b)
  {
  }

  lemma {:induction false} RelativizeFlatten(base: string, xss: seq<seq<OutlineItem>>)
    ensures Relativize(base, Flatten(xss))
         == Flatten(seq(|xss|, i requires 0 <= i < |xss| => Relativize(base, xss[i])))
  {
    if xss != [] {
      RelativizeFlatten(base, xss[1..]);
      RelativizeAppend(base, xss[0], Flatten(xss[1..]));
      var ys := seq(|xss|, i requires 0 <= i < |xss| => Relativize(base, xss[i]));
      assert ys[1..] == seq(|xss[1..]|, i requires 0 <= i < |xss[1..]| => Relativize(base, xss[1..][i]));
    }
  }

  /**
   * Conversion keeps the tree: the same entries in the same pre-order, each
   * tagged as a folder exactly when the host gave it a children list, each
   * folder with as many children as the host listed, each
   * named as the host named it (or ""), each at the project-relative form of
   * its host path.
   */
  lemma {:induction false} ConvertKeepsOutline(base: string, entry: TauriFileEntry)
    ensures Outline(ConvertTauriFileEntry(base, entry)) == Relativize(base, RawOutline(entry))
    decreases entry
  {
    match entry.children
    case NoChildren =>
    case Children(cs) =>
      forall i | 0 <= i < |cs|
        ensures Outline(ConvertTauriFileEntry(base, cs[i])) == Relativize(base, RawOutline(cs[i]))
      {
        assert cs[i] in cs;
        ConvertKeepsOutline(base, cs[i]);
      }
      FolderKeepsOutline(base, entry);
  }

  /** A folder keeps its outline when each of its children does. */
  lemma FolderKeepsOutline(base: string, entry: TauriFileEntry)
    requires entry.children.Children?
    requires forall i :: 0 <= i < |entry.children.entries| ==>
      Outline(ConvertTauriFileEntry(base, entry.children.entries[i])) == Relativize(base, RawOutline(entry.children.entries[i]))
    ensures Outline(ConvertTauriFileEntry(base, entry)) == Relativize(base, RawOutline(entry))
  {
    var cs := entry.children.entries;
    var f := ConvertTauriFileEntry(base, entry);
    var raw := seq(|cs|, i requires 0 <= i < |cs| => RawOutline(cs[i]));
    var conv := seq(|f.children|, i requires 0 <= i < |f.children| => Outline(f.children[i]));
    assert conv == seq(|raw|, i requires 0 <= i < |raw| => Relativize(base, raw[i]));
    RelativizeFlatten(base, raw);
    RelativizeAppend(base, [OutlineItem(entry.path, entry.name.GetOr(""), true, |cs|)], Flatten(raw));
  }

  /** Every converted node has exactly one of the two tags, and a file's extension and dotfile flag come from its name. */
  lemma ConvertedNode(base: string, entry: TauriFileEntry)
    ensures var f := ConvertTauriFileEntry(base, entry);
      && (f.IsFile() <==> !f.IsFolder())
      && (f.IsFolder() <==> entry.children.Children?)
      && (f.isDotfile <==> StartsWith(f.name, "."))
      && (f.FileFileEntry? ==> f.fileExtension == FileExtension(f.name))
  {
  }

  // ---------------------------------------------------------------------------
  // Reading a file into editor content
  // ---------------------------------------------------------------------------

  /** A JSON value as `JSON.parse` produces it. */
  datatype Json =
    | JNull
    | JBool(b: bool)
    | JNumber(n: real)
    | JString(s: string)
    | JArray(items: seq<Json>)
    | JObject(members: seq<(string, Json)>)

  datatype EditorContent =
    | JsonContent(textContent: string)
    | PdfContent(binaryContent: seq<bv8>)
    | RefStudioContent(jsonContent: Json)
    | TextContent(textContent: string)

  /** What `readFileContent` returns, and whether it raised the "Invalid content" notification. */
  datatype ContentRead = ContentRead(content: EditorContent, notifiedError: bool)

  /**
   * `readFileContent`: `text` and `bytes` are what the host returns when the
   * file at the entry's system path is read as text or as binary; `parse` is
   * `JSON.parse`, `None` where it throws.
   */
  function ReadFileContent(file: FileEntry, text: string, bytes: seq<bv8>, parse: string -> Option<Json>): (r: ContentRead)
    requires file.FileFileEntry?
    ensures r.content.JsonContent? <==> file.fileExtension == "json"
    ensures r.content.PdfContent? <==> file.fileExtension == "pdf"
    ensures r.content.RefStudioContent? <==> file.fileExtension in {"refstudio", ""}
    ensures r.content.TextContent? <==> file.fileExtension !in {"json", "pdf", "refstudio", ""}
    ensures r.content.PdfContent? ==> r.content.binaryContent == bytes
    ensures r.content.JsonContent? || r.content.TextContent? ==> r.content.textContent == text
    ensures r.content.RefStudioContent? ==>
      r.content.jsonContent == (if parse(text).Some? then parse(text).value else JArray([]))
    ensures r.notifiedError <==> r.content.RefStudioContent? && parse(text).None?
  {
    match file.fileExtension
    case "json" => ContentRead(JsonContent(text), false)
    case "pdf" => ContentRead(PdfContent(bytes), false)
    case "refstudio" => ReadRefStudio(text, parse)
    case "" => ReadRefStudio(text, parse)
    case _ => ContentRead(TextContent(text), false)
  }

  function ReadRefStudio(text: string, parse: string -> Option<Json>): ContentRead {
    match parse(text)
    case Some(doc) => ContentRead(RefStudioContent(doc), false)
    case None => ContentRead(RefStudioContent(JArray([])), true)
  }

  // ---------------------------------------------------------------------------
  // Rename
  // ---------------------------------------------------------------------------

  datatype RenameResult = RenameFailed | Renamed(newPath: string)

  /** The system path `renameFile` moves a file to: `newName` in the folder of the old system path. */
  function RenameTarget(base: string, relativePath: string, newName: string, sep: char): string {
    HostJoin(GetParentFolder(SystemPath(base, relativePath, sep), sep), newName, sep)
  }

  /** A rename stays in the file's folder: `/dir/old` renamed to `new` becomes `/dir/new`. */
  lemma RenameStaysInFolder(base: string, parent: string, oldName: string, newName: string, sep: char)
    requires base != "" && IsBaseDir(base, sep) && NormalPath(base, sep) && RegexLiteral(base)
    requires NormalPath(parent, sep) && (parent == "" || parent[|parent| - 1] != sep)
    requires sep !in oldName
    requires newName != "" && newName[0] != sep && NormalPath([sep] + newName, sep)
    ensures StripBase(base, RenameTarget(base, parent + [sep] + oldName, newName, sep)) == parent + [sep] + newName
  {
    RenameTargetInSystemFolder(base, parent, oldName, newName, sep);
    var rest := parent + [sep] + newName;
    assert StartsWith(base + rest, base) by {
      assert (base + rest)[..|base|] == base;
    }
  }

  /** The system path of the renamed file: base, parent folder, separator, new name. */
  lemma RenameTargetInSystemFolder(base: string, parent: string, oldName: string, newName: string, sep: char)
    requires base != "" && IsBaseDir(base, sep)
    requires parent == "" || (parent[0] == sep && parent[|parent| - 1] != sep)
    requires sep !in oldName
    requires newName != "" && newName[0] != sep
    ensures RenameTarget(base, parent + [sep] + oldName, newName, sep) == base + (parent + [sep] + newName)
  {
    var dir := base + parent;
    SystemPathOfChild(base, parent, oldName, sep);
    ParentOfChild(dir, oldName, sep);
    assert dir[|dir| - 1] != sep;
    JoinAtSeam(dir, newName, sep);
  }

  /** The system path of `parent/name` is the base, the parent, the separator and the name. */
  lemma SystemPathOfChild(base: string, parent: string, name: string, sep: char)
    requires IsBaseDir(base, sep)
    requires parent == "" || parent[0] == sep
    ensures SystemPath(base, parent + [sep] + name, sep) == (base + parent) + [sep] + name
  {
    var rel := parent + [sep] + name;
    assert rel[0] == sep;
    assert base + rel == (base + parent) + [sep] + name;
  }

  /** Two parts without a separator at the seam are joined by one. */
  lemma JoinAtSeam(a: string, b: string, sep: char)
    requires a != "" && a[|a| - 1] != sep && b != "" && b[0] != sep
    ensures HostJoin(a, b, sep) == a + [sep] + b
  {
    HostJoinSeam(a, b, sep);
  }

  // ---------------------------------------------------------------------------
  // Markdown export
  // ---------------------------------------------------------------------------

  /** The last segment of a path (`split(sep).pop()`). */
  function LastSegment(p: string, sep: char): string {
    var parts := Split(p, sep);
    parts[|parts| - 1]
  }

  /** Everything before the last '.' of a name (`split('.')`, `pop()`, `join('.')`). */
  function BeforeLastDot(name: string): string {
    var parts := Split(name, '.');
    Join(parts[..|parts| - 1], '.')
  }

  lemma LastSegmentOfChild(dir: string, name: string, sep: char)
    requires sep !in name
    ensures LastSegment(dir + [sep] + name, sep) == name
    ensures LastSegment(name, sep) == name
  {
    SplitAppend(dir, sep, name);
    SplitNoSeparator(name, sep);
  }

  /** A path that ends with the separator has an empty last segment, so nothing is exported. */
  lemma TrailingSeparatorLastSegment(dir: string, sep: char)
    ensures LastSegment(dir + [sep], sep) == ""
  {
    SplitAppend(dir, sep, "");
    assert dir + [sep] + "" == dir + [sep];
  }

  /** The last extension is the one that is dropped: `a.b.refstudio` becomes `a.b`. */
  lemma BeforeLastDotOf(stem: string, ext: string)
    requires '.' !in ext
    ensures BeforeLastDot(stem + "." + ext) == stem
  {
    SplitAppendDropLast(stem, '.', ext);
  }

  /**
   * The Markdown file name `saveAsMarkdown` proposes for `exportedFilePath`:
   * none when the last segment is empty, the last extension replaced by ".md"
   * when the name has a dot, ".md" appended otherwise.
   */
  method MarkdownFileName(exportedFilePath: string, sep: char) returns (r: Option<string>)
    ensures r.None? <==> LastSegment(exportedFilePath, sep) == ""
    ensures r.Some? && '.' in LastSegment(exportedFilePath, sep) ==>
      r.value == BeforeLastDot(LastSegment(exportedFilePath, sep)) + ".md"
    ensures r.Some? && '.' !in LastSegment(exportedFilePath, sep) ==>
      r.value == LastSegment(exportedFilePath, sep) + ".md"
  {
    var splittedPath := Split(exportedFilePath, sep);
    var fileName := splittedPath[|splittedPath| - 1];
    splittedPath := splittedPath[..|splittedPath| - 1];
    if fileName == "" {
      return None;
    }
    if '.' in fileName {
      var splittedFileName := Split(fileName, '.');
      splittedFileName := splittedFileName[..|splittedFileName| - 1];
      r := Some(Join(splittedFileName, '.') + ".md");
    } else {
      r := Some(fileName + ".md");
    }
  }

  /** The save dialog's default path as the source computes it: the system exports path joined to the base once more. */
  function ExportDefaultPathAsWritten(base: string, markdownFileName: string, sep: char): string {
    var systemExportsDir := SystemPath(base, GetExportsDir(sep), sep);
    var markdownFilePath := Join([systemExportsDir, markdownFileName], sep);
    SystemPath(base, markdownFilePath, sep)
  }

  /** The save dialog's default path as intended: the file in the project's exports folder. */
  function ExportDefaultPath(base: string, markdownFileName: string, sep: char): string {
    Join([SystemPath(base, GetExportsDir(sep), sep), markdownFileName], sep)
  }

  /** As written, the base directory appears twice in the default path of an open project. */
  lemma ExportDefaultPathRepeatsBase(base: string, markdownFileName: string, sep: char)
    requires base != "" && base[0] == sep && base[|base| - 1] != sep
    ensures ExportDefaultPathAsWritten(base, markdownFileName, sep)
         == base + base + [sep] + ExportsDir + [sep] + markdownFileName
  {
    assert SystemPath(base, GetExportsDir(sep), sep) == base + [sep] + ExportsDir;
    var p := base + [sep] + ExportsDir + [sep] + markdownFileName;
    assert Join([base + [sep] + ExportsDir, markdownFileName], sep) == p;
    assert p[0] == sep;
  }

  lemma ExportDefaultPathCounterexample()
    ensures ExportDefaultPathAsWritten("/p", "a.md", '/') == "/p/p/exports/a.md"
    ensures ExportDefaultPath("/p", "a.md", '/') == "/p/exports/a.md"
  {
    AsWrittenPathUnderP();
    IntendedPathUnderP();
  }

  /** The as-written default path for base `/p` and `a.md`. */
  lemma AsWrittenPathUnderP()
    ensures ExportDefaultPathAsWritten("/p", "a.md", '/') == "/p/p/exports/a.md"
  {
    ExportDefaultPathRepeatsBase("/p", "a.md", '/');
  }

  /** The intended default path for base `/p` and `a.md`. */
  lemma IntendedPathUnderP()
    ensures ExportDefaultPath("/p", "a.md", '/') == "/p/exports/a.md"
  {
    ExportDefaultPathLayout("/p", "a.md", '/');
  }

  /** The corrected default path: base, the exports folder, the file name. */
  lemma ExportDefaultPathLayout(base: string, markdownFileName: string, sep: char)
    requires IsBaseDir(base, sep)
    ensures ExportDefaultPath(base, markdownFileName, sep) == base + [sep] + ExportsDir + [sep] + markdownFileName
  {
    var sys := SystemPath(base, GetExportsDir(sep), sep);
    assert sys == base + [sep] + ExportsDir;
    assert Join([sys, markdownFileName], sep) == sys + [sep] + markdownFileName;
  }

  /** The corrected default path lies in the project's exports folder. */
  lemma ExportDefaultPathInExportsDir(base: string, markdownFileName: string, sep: char)
    requires IsBaseDir(base, sep)
    ensures StripBase(base, ExportDefaultPath(base, markdownFileName, sep))
         == GetExportsDir(sep) + [sep] + markdownFileName
  {
    var exportsRel := GetExportsDir(sep);
    var sys := SystemPath(base, exportsRel, sep);
    assert sys == base + exportsRel;
    assert Join([sys, markdownFileName], sep) == sys + [sep] + markdownFileName;
    assert ExportDefaultPath(base, markdownFileName, sep) == base + (exportsRel + [sep] + markdownFileName);
    assert StartsWith(base + (exportsRel + [sep] + markdownFileName), base) by {
      assert (base + (exportsRel + [sep] + markdownFileName))[..|base|] == base;
    }
  }

  /** The chosen file's name without its last extension, or the whole name when it has no dot. */
  function StemOf(name: string): string {
    var parts := Split(name, '.');
    if |parts| > 1 then Join(parts[..|parts| - 1], '.') else name
  }

  /**
   * Where the second half of `saveAsMarkdown` writes the bibliography for the
   * Markdown file the dialog returned: beside it, named after its stem with
   * the bibliography's extension; none when the chosen path has no last segment.
   */
  function BibliographyPath(filePath: string, bibliographyExtension: string, sep: char): (r: Option<string>)
    ensures r.None? <==> LastSegment(filePath, sep) == ""
  {
    var filePathParts := Split(filePath, sep);
    var newFileName := filePathParts[|filePathParts| - 1];
    if newFileName == "" then None
    else Some(Join(filePathParts[..|filePathParts| - 1] + [StemOf(newFileName) + "." + bibliographyExtension], sep))
  }

  lemma StemOfDotted(stem: string, ext: string)
    requires '.' !in ext
    ensures StemOf(stem + "." + ext) == stem
  {
    SplitAppend(stem, '.', ext);
    SplitNoSeparator(ext, '.');
    SplitAppendDropLast(stem, '.', ext);
  }

  /** `dir/stem.md` gets its bibliography at `dir/stem.bib`: same folder, same stem. */
  lemma BibliographyBesideMarkdown(dir: string, stem: string, markdownExtension: string, bibliographyExtension: string, sep: char)
    requires sep != '.' && sep !in stem && sep !in markdownExtension
    requires '.' !in markdownExtension
    ensures BibliographyPath(dir + [sep] + (stem + "." + markdownExtension), bibliographyExtension, sep)
         == Some(dir + [sep] + (stem + "." + bibliographyExtension))
  {
    var name := stem + "." + markdownExtension;
    assert sep !in name;
    SplitAppend(dir, sep, name);
    SplitNoSeparator(name, sep);
    var parts := Split(dir + [sep] + name, sep);
    assert parts == Split(dir, sep) + [name];
    assert parts[|parts| - 1] == name && parts[..|parts| - 1] == Split(dir, sep);
    assert name[|stem|] == '.';
    StemOfDotted(stem, markdownExtension);
    JoinAppend(Split(dir, sep), sep, stem + "." + bibliographyExtension);
    JoinSplit(dir, sep);
  }

  /** A chosen path ending in the separator writes nothing. */
  lemma BibliographyNeedsFileName(dir: string, bibliographyExtension: string, sep: char)
    ensures BibliographyPath(dir + [sep], bibliographyExtension, sep) == None
  {
    TrailingSeparatorLastSegment(dir, sep);
  }

  // ---------------------------------------------------------------------------
  // The process-wide project state
  // ---------------------------------------------------------------------------

  /**
   * The module-level `projectBaseDir` together with the part of the host file
   * system the operations below consult: `disk` is the set of system paths
   * for which the host's `exists` answers true.
   */
  class Project {
    const sep: char
    var projectBaseDir: string
    var disk: set<string>

    constructor (sep: char, disk: set<string>)
      ensures this.sep == sep && projectBaseDir == "" && this.disk == disk
    {
      this.sep := sep;
      projectBaseDir := "";
      this.disk := disk;
    }

    /** `setProjectBaseDir`: replaces the base and returns it. */
    method SetProjectBaseDir(dir: string) returns (r: string)
      modifies this`projectBaseDir
      ensures projectBaseDir == dir && r == dir
    {
      projectBaseDir := dir;
      r := dir;
    }

    /** `getSystemPath`: a project-relative path is appended to the base. */
    function GetSystemPath(rsPath: string): (r: string)
      reads this
      ensures IsBaseDir(projectBaseDir, sep) && (rsPath == "" || rsPath[0] == sep) ==> r == projectBaseDir + rsPath
    {
      SystemPath(projectBaseDir, rsPath, sep)
    }

    /** `getRefStudioPath`: the base is removed when it is a literal prefix. */
    function GetRefStudioPath(absolutePath: string): (r: string)
      reads this
      ensures StartsWith(absolutePath, projectBaseDir) ==> projectBaseDir + r == absolutePath
      ensures !StartsWith(absolutePath, projectBaseDir) ==> r == absolutePath
    {
      StripBase(projectBaseDir, absolutePath)
    }

    /**
     * `renameFile`: refuses when the target exists; the host rename fails
     * (and is reported as a failure) when the source does not exist.
     */
    method RenameFile(relativePath: string, newName: string) returns (r: RenameResult)
      modifies this`disk
      ensures var systemPath := GetSystemPath(relativePath);
              var newSystemPath := RenameTarget(projectBaseDir, relativePath, newName, sep);
        && (newSystemPath in old(disk) || systemPath !in old(disk) ==> r == RenameFailed && disk == old(disk))
        && (newSystemPath !in old(disk) && systemPath in old(disk) ==>
              r == Renamed(GetRefStudioPath(newSystemPath)) && disk == old(disk) - {systemPath} + {newSystemPath})
    {
      var systemPath := GetSystemPath(relativePath);
      var newSystemPath := HostJoin(GetParentFolder(systemPath, sep), newName, sep);
      if newSystemPath in disk {
        return RenameFailed;
      }
      if systemPath !in disk {
        return RenameFailed;
      }
      disk := disk - {systemPath} + {newSystemPath};
      r := Renamed(GetRefStudioPath(newSystemPath));
    }

    /**
     * The first half of `saveAsMarkdown`: make sure the exports folder exists,
     * derive the Markdown file name, and give the dialog's default path. The
     * path given is the corrected one, in the exports folder; the path the code
     * as written hands to the dialog is `getSystemPath` of it, which joins the
     * base directory a second time.
     */
    method SaveAsMarkdownDefaultPath(exportedFilePath: string) returns (defaultPath: Option<string>)
      modifies this`disk
      ensures disk == old(disk) + {GetSystemPath(GetExportsDir(sep))}
      ensures defaultPath.None? <==> LastSegment(exportedFilePath, sep) == ""
      ensures defaultPath.Some? ==>
        var last := LastSegment(exportedFilePath, sep);
        var markdownFileName := if '.' in last then BeforeLastDot(last) + ".md" else last + ".md";
        && defaultPath.value == ExportDefaultPath(projectBaseDir, markdownFileName, sep)
        && GetSystemPath(defaultPath.value) == ExportDefaultPathAsWritten(projectBaseDir, markdownFileName, sep)
    {
      var systemExportsDir := GetSystemPath(GetExportsDir(sep));
      if systemExportsDir !in disk {
        disk := disk + {systemExportsDir};
      }
      var markdownFileName := MarkdownFileName(exportedFilePath, sep);
      if markdownFileName.None? {
        return None;
      }
      defaultPath := Some(Join([systemExportsDir, markdownFileName.value], sep));
    }
  }
}
