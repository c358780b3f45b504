/** The project file tree of the editor: files grouped by their top-level
  * directory, the files that mention a file about to be renamed, and the
  * paths and types the tree sends when a file is renamed, duplicated, deleted
  * or created. The requests themselves, and the tree's refresh when the
  * server answers, are outside the model: each operation returns the request
  * it would send. */
module FileTree {
  import opened Strings

  datatype FileType = Markdown | Yaml | Bibtex | Image | OtherType

  /** A project file as the tree receives it; missing content is `""`. */
  datatype ProjectFile = ProjectFile(id: string, path: string, name: string, content: string, kind: FileType)

  // ---------------------------------------------------------------------------
  // Path segments

  /** The pieces of `s.split(c)` before the last one joined back, then the
    * separator, then the last piece; or the last piece alone. */
  lemma LastPiece(s: string, c: char)
    ensures |Split(s, c)| == 1 ==> s == Split(s, c)[0]
    ensures |Split(s, c)| > 1 ==>
      s == Join(Split(s, c)[..|Split(s, c)| - 1], [c]) + [c] + Split(s, c)[|Split(s, c)| - 1]
  {
    var parts := Split(s, c);
    var n := |parts|;
    SplitJoin(s, c);
    assert parts == parts[..n - 1] + [parts[n - 1]];
    if n > 1 {
      JoinAppend(parts[..n - 1], parts[n - 1], [c]);
    }
  }

  /** `path.split("/").pop()`: the file name, which ends the path and starts
    * after its last slash. */
  function LastSegment(path: string): (r: string)
    ensures '/' !in r
    ensures EndsWith(path, r)
    ensures |r| == |path| || path[|path| - |r| - 1] == '/'
  {
    var parts := Split(path, '/');
    LastPiece(path, '/');
    var last := parts[|parts| - 1];
    assert forall j :: 0 <= j < |last| ==> last[j] != '/';
    last
  }

  /** The path up to and including its last slash (empty for a top-level file). */
  function Parent(path: string): (r: string)
    ensures path == r + LastSegment(path)
    ensures r == [] || r[|r| - 1] == '/'
  {
    var name := LastSegment(path);
    assert path == path[..|path| - |name|] + path[|path| - |name|..];
    path[..|path| - |name|]
  }

  /** A name with no slash is its own last segment, below any parent. */
  lemma LastSegmentOf(dir: string, name: string)
    requires '/' !in name
    requires dir == [] || dir[|dir| - 1] == '/'
    ensures LastSegment(dir + name) == name
    ensures Parent(dir + name) == dir
  {
    SplitNoSepChars(name, '/');
    if dir == [] {
      assert dir + name == name;
      SplitNoSep(name, '/');
    } else {
      var a := dir[..|dir| - 1];
      assert dir + name == a + ['/'] + name;
      SplitAppendLast(a, '/', name);
    }
  }

  lemma SplitNoSepChars(s: string, c: char)
    requires c !in s
    ensures forall i :: 0 <= i < |s| ==> s[i] != c
  {
    forall i | 0 <= i < |s| ensures s[i] != c {
      assert s[i] in s;
    }
  }

  // ---------------------------------------------------------------------------
  // Grouping by directory

  /** The group key of a path: its first segment when it has a slash, else
    * `"root"`. */
  function DirOf(path: string): string
  {
    var parts := Split(path, '/');
    if |parts| > 1 then parts[0] else "root"
  }

  lemma DirOfTopLevel(path: string)
    requires '/' !in path
    ensures DirOf(path) == "root"
  {
    SplitNoSepChars(path, '/');
    SplitNoSep(path, '/');
  }

  lemma DirOfNested(dir: string, rest: string)
    requires '/' !in dir
    ensures DirOf(dir + "/" + rest) == dir
  {
    SplitNoSepChars(dir, '/');
    SplitAppendSep(dir, '/', rest);
  }

  /** A file in a top-level directory named `root` shares the group of the
    * top-level files. */
  lemma RootDirectoryShared(rest: string, name: string)
    requires '/' !in name
    ensures DirOf("root/" + rest) == DirOf(name) == "root"
  {
    assert "root/" + rest == "root" + "/" + rest;
    DirOfNested("root", rest);
    DirOfTopLevel(name);
  }

  function FileDir(f: ProjectFile): string { DirOf(f.path) }

  /** The keys of a list under `key`, in order of first appearance. */
  function Keys<T>(xs: seq<T>, key: T -> string): (r: seq<string>)
    decreases |xs|
  {
    if xs == [] then []
    else
      var ks := Keys(xs[..|xs| - 1], key);
      var d := key(xs[|xs| - 1]);
      if d in ks then ks else ks + [d]
  }

  /** The elements with key `d`, in their order in the list. */
  function Group<T>(xs: seq<T>, key: T -> string, d: string): (r: seq<T>)
    ensures |r| <= |xs|
    decreases |xs|
  {
    if xs == [] then []
    else
      var x := xs[|xs| - 1];
      Group(xs[..|xs| - 1], key, d) + (if key(x) == d then [x] else [])
  }

  lemma {:induction false} KeysMember<T>(xs: seq<T>, key: T -> string, d: string)
    ensures d in Keys(xs, key) <==> exists i :: 0 <= i < |xs| && key(xs[i]) == d
    decreases |xs|
  {
    if xs != [] {
      var init := xs[..|xs| - 1];
      KeysMember(init, key, d);
      if d in Keys(init, key) {
        var i :| 0 <= i < |init| && key(init[i]) == d;
        assert xs[i] == init[i];
      }
      if exists i :: 0 <= i < |xs| && key(xs[i]) == d {
        var i :| 0 <= i < |xs| && key(xs[i]) == d;
        if i < |init| { assert init[i] == xs[i]; }
      }
    }
  }

  /** No key is listed twice. */
  lemma {:induction false} KeysDistinct<T>(xs: seq<T>, key: T -> string)
    ensures forall i, j :: 0 <= i < j < |Keys(xs, key)| ==> Keys(xs, key)[i] != Keys(xs, key)[j]
    decreases |xs|
  {
    if xs != [] {
      KeysDistinct(xs[..|xs| - 1], key);
    }
  }

  /** Group `d` holds exactly the elements whose key is `d`. */
  lemma {:induction false} GroupMember<T>(xs: seq<T>, key: T -> string, d: string, x: T)
    ensures x in Group(xs, key, d) <==> x in xs && key(x) == d
    decreases |xs|
  {
    if xs != [] {
      var init := xs[..|xs| - 1];
      GroupMember(init, key, d, x);
      assert xs == init + [xs[|xs| - 1]];
    }
  }

  lemma {:induction false} GroupEmpty<T>(xs: seq<T>, key: T -> string, d: string)
    requires d !in Keys(xs, key)
    ensures Group(xs, key, d) == []
    decreases |xs|
  {
    if xs != [] {
      var init := xs[..|xs| - 1];
      if d !in Keys(init, key) {
        GroupEmpty(init, key, d);
      }
    }
  }

  /** The sizes of the groups named in `ks`, added up. */
  function Total<T>(xs: seq<T>, key: T -> string, ks: seq<string>): nat
    decreases |ks|
  {
    if ks == [] then 0 else Total(xs, key, ks[..|ks| - 1]) + |Group(xs, key, ks[|ks| - 1])|
  }

  lemma GroupAdd<T>(xs: seq<T>, key: T -> string, x: T, d: string)
    ensures Group(xs + [x], key, d) == Group(xs, key, d) + (if key(x) == d then [x] else [])
  {
    assert (xs + [x])[..|xs|] == xs;
  }

  lemma {:induction false} TotalAdd<T>(xs: seq<T>, key: T -> string, x: T, ks: seq<string>)
    requires forall i, j :: 0 <= i < j < |ks| ==> ks[i] != ks[j]
    ensures Total(xs + [x], key, ks) == Total(xs, key, ks) + (if key(x) in ks then 1 else 0)
    decreases |ks|
  {
    if ks != [] {
      var init, k, d := ks[..|ks| - 1], ks[|ks| - 1], key(x);
      assert forall i, j :: 0 <= i < j < |init| ==> init[i] != init[j] by {
        forall i, j | 0 <= i < j < |init| ensures init[i] != init[j] {
          assert init[i] == ks[i] && init[j] == ks[j];
        }
      }
      TotalAdd(xs, key, x, init);
      GroupAdd(xs, key, x, k);
      assert ks == init + [k];
      if k == d {
        assert d !in init by {
          forall i | 0 <= i < |init| ensures init[i] != k {
            assert init[i] == ks[i];
          }
        }
      } else {
        assert d in ks <==> d in init;
      }
    }
  }

  lemma TotalAddKey<T>(xs: seq<T>, key: T -> string, ks: seq<string>, d: string)
    ensures Total(xs, key, ks + [d]) == Total(xs, key, ks) + |Group(xs, key, d)|
  {
    assert (ks + [d])[..|ks|] == ks;
  }

  /** The groups together hold every element once: their sizes add up to
    * the length of the list. */
  lemma {:induction false} GroupsPartition<T>(xs: seq<T>, key: T -> string)
    ensures Total(xs, key, Keys(xs, key)) == |xs|
    decreases |xs|
  {
    if xs != [] {
      var init, x := xs[..|xs| - 1], xs[|xs| - 1];
      assert xs == init + [x];
      GroupsPartition(init, key);
      KeysDistinct(init, key);
      TotalAdd(init, key, x, Keys(init, key));
      if key(x) !in Keys(init, key) {
        TotalAddKey(xs, key, Keys(init, key), key(x));
        GroupEmpty(init, key, key(x));
      }
    }
  }

  /** `groupedFiles`: the `reduce` that files each path under its key. */
  method GroupFiles(files: seq<ProjectFile>) returns (keys: seq<string>, groups: map<string, seq<ProjectFile>>)
    ensures keys == Keys(files, FileDir)
    ensures forall d :: d in groups <==> d in keys
    ensures forall d :: d in groups ==> groups[d] == Group(files, FileDir, d)
  {
    keys := [];
    groups := map[];
    var i := 0;
    while i < |files|
      invariant 0 <= i <= |files|
      invariant keys == Keys(files[..i], FileDir)
      invariant forall d :: d in groups <==> d in keys
      invariant forall d :: d in groups ==> groups[d] == Group(files[..i], FileDir, d)
    {
      var file := files[i];
      var dir := DirOf(file.path);
      assert files[..i + 1][..i] == files[..i];
      if dir !in groups {
        GroupEmpty(files[..i], FileDir, dir);
        keys := keys + [dir];
        groups := groups[dir := []];
      }
      groups := groups[dir := groups[dir] + [file]];
      i := i + 1;
    }
    assert files[..|files|] == files;
  }

  /** Each file is in the group of its directory and in no other, and the
    * groups add up to the whole list. */
  lemma EachFileInOneGroup(files: seq<ProjectFile>, i: nat)
    requires i < |files|
    ensures DirOf(files[i].path) in Keys(files, FileDir)
    ensures forall d :: files[i] in Group(files, FileDir, d) <==> d == DirOf(files[i].path)
    ensures Total(files, FileDir, Keys(files, FileDir)) == |files|
  {
    KeysMember(files, FileDir, FileDir(files[i]));
    forall d ensures files[i] in Group(files, FileDir, d) <==> d == DirOf(files[i].path) {
      GroupMember(files, FileDir, d, files[i]);
    }
    GroupsPartition(files, FileDir);
  }

  // ---------------------------------------------------------------------------
  // Files that mention a file

  /** Whether `file` counts as referencing `filePath`: another file, with
    * content, that contains the file name or the whole path. */
  predicate References(file: ProjectFile, filePath: string)
  {
    file.path != filePath && file.content != "" &&
    (Contains(file.content, LastSegment(filePath)) || Contains(file.content, filePath))
  }

  /** The paths of the referencing files, in list order. */
  function Referencing(files: seq<ProjectFile>, filePath: string): (r: seq<string>)
    ensures |r| <= |files|
    decreases |files|
  {
    if files == [] then []
    else
      var f := files[|files| - 1];
      Referencing(files[..|files| - 1], filePath) + (if References(f, filePath) then [f.path] else [])
  }

  /** `findReferencingFiles`: the `forEach` over the project's files. */
  method FindReferencingFiles(files: seq<ProjectFile>, filePath: string) returns (refs: seq<string>)
    ensures refs == Referencing(files, filePath)
  {
    refs := [];
    for i := 0 to |files|
      invariant refs == Referencing(files[..i], filePath)
    {
      assert files[..i + 1][..i] == files[..i];
      var file := files[i];
      if file.path != filePath && file.content != "" {
        if Contains(file.content, LastSegment(filePath)) || Contains(file.content, filePath) {
          refs := refs + [file.path];
        }
      }
    }
    assert files[..|files|] == files;
  }

  /** A path is listed exactly when some file with that path references the file. */
  lemma {:induction false} ReferencingMember(files: seq<ProjectFile>, filePath: string, p: string)
    ensures p in Referencing(files, filePath) <==>
      exists i :: 0 <= i < |files| && files[i].path == p && References(files[i], filePath)
    decreases |files|
  {
    if files != [] {
      var init := files[..|files| - 1];
      ReferencingMember(init, filePath, p);
      if exists i :: 0 <= i < |init| && init[i].path == p && References(init[i], filePath) {
        var i :| 0 <= i < |init| && init[i].path == p && References(init[i], filePath);
        assert files[i] == init[i];
      }
      if exists i :: 0 <= i < |files| && files[i].path == p && References(files[i], filePath) {
        var i :| 0 <= i < |files| && files[i].path == p && References(files[i], filePath);
        if i < |init| { assert init[i] == files[i]; }
      }
    }
  }

  /** The file itself is never among the referencing files. */
  lemma NotSelfReferencing(files: seq<ProjectFile>, filePath: string)
    ensures filePath !in Referencing(files, filePath)
  {
    ReferencingMember(files, filePath, filePath);
  }

  /** The path ends with the file name, so a content holding the path also
    * holds the name: only the name decides. */
  lemma NameDecides(file: ProjectFile, filePath: string)
    ensures References(file, filePath) <==>
      file.path != filePath && file.content != "" && Contains(file.content, LastSegment(filePath))
  {
    var name := LastSegment(filePath);
    if Contains(file.content, filePath) {
      var i :| 0 <= i <= |file.content| && OccursAt(file.content, filePath, i);
      var j := i + |filePath| - |name|;
      assert file.content[j..j + |name|] == file.content[i..i + |filePath|][|filePath| - |name|..];
      assert OccursAt(file.content, name, j);
    }
  }

  // ---------------------------------------------------------------------------
  // Rename

  /** The rename target: the path's pieces with the last replaced by `newName`. */
  function RenamedPath(path: string, newName: string): string
  {
    var parts := Split(path, '/');
    Join(parts[..|parts| - 1] + [newName], "/")
  }

  /** The rename target is the path's directory followed by the new name. */
  lemma RenamedPathIs(path: string, newName: string)
    ensures RenamedPath(path, newName) == Parent(path) + newName
  {
    var parts := Split(path, '/');
    var n := |parts|;
    LastPiece(path, '/');
    if n > 1 {
      JoinAppend(parts[..n - 1], newName, "/");
    } else {
      assert parts[..n - 1] + [newName] == [newName];
    }
  }

  /** A rename keeps the directory and changes only the file name. */
  lemma RenameSwapsLastSegment(path: string, newName: string)
    requires '/' !in newName
    ensures Parent(RenamedPath(path, newName)) == Parent(path)
    ensures LastSegment(RenamedPath(path, newName)) == newName
  {
    RenamedPathIs(path, newName);
    LastSegmentOf(Parent(path), newName);
  }

  /** Renaming to the current name gives back the path. */
  lemma RenameToSameName(path: string)
    ensures RenamedPath(path, LastSegment(path)) == path
  {
    RenamedPathIs(path, LastSegment(path));
  }

  datatype RenameRequest = RenameRequest(oldPath: string, newPath: string, updateReferences: bool)

  /** What submitting the edited name leads to. */
  datatype RenameStep =
    | Dismissed
    | AskAboutReferences(refs: seq<string>, newName: string)
    | Send(request: RenameRequest)

  /** `handleRenameSubmit`: a blank or unchanged name closes the editor; a
    * file referenced elsewhere asks first; otherwise the rename is sent
    * without updating references. */
  function RenameDecision(files: seq<ProjectFile>, file: ProjectFile, newName: string): (r: RenameStep)
    ensures r.Dismissed? <==> JsTrim(newName) == "" || newName == file.name
    ensures r.AskAboutReferences? ==> r.refs == Referencing(files, file.path) && r.refs != [] && r.newName == newName
    ensures r.Send? ==> (Referencing(files, file.path) == [] &&
      r.request == RenameRequest(file.path, RenamedPath(file.path, newName), false))
  {
    if JsTrim(newName) == "" || newName == file.name then Dismissed
    else
      var refs := Referencing(files, file.path);
      if |refs| > 0 then AskAboutReferences(refs, newName)
      else Send(RenameRequest(file.path, RenamedPath(file.path, newName), false))
  }

  /** A file nobody mentions is renamed at once, in its own directory. */
  lemma UnreferencedRenameSent(files: seq<ProjectFile>, file: ProjectFile, newName: string)
    requires JsTrim(newName) != "" && newName != file.name && '/' !in newName
    requires forall i :: 0 <= i < |files| ==> !References(files[i], file.path)
    ensures RenameDecision(files, file, newName).Send?
    ensures Parent(RenameDecision(files, file, newName).request.newPath) == Parent(file.path)
    ensures LastSegment(RenameDecision(files, file, newName).request.newPath) == newName
  {
    if Referencing(files, file.path) != [] {
      var p := Referencing(files, file.path)[0];
      ReferencingMember(files, file.path, p);
    }
    RenameSwapsLastSegment(file.path, newName);
  }

  // ---------------------------------------------------------------------------
  // Duplicate

  /** `fileName.split(".").pop()` when the name has a dot, else `""`. */
  function Extension(name: string): (r: string)
    ensures '.' !in r
  {
    if '.' in name then
      var parts := Split(name, '.');
      var last := parts[|parts| - 1];
      assert forall j :: 0 <= j < |last| ==> last[j] != '.';
      last
    else ""
  }

  lemma ExtensionOf(base: string, ext: string)
    requires '.' !in ext
    ensures Extension(base + "." + ext) == ext
  {
    var name := base + "." + ext;
    assert name[|base|] == '.';
    SplitNoSepChars(ext, '.');
    SplitAppendLast(base, '.', ext);
  }

  lemma ExtensionNoDot(name: string)
    requires '.' !in name
    ensures Extension(name) == ""
  {
  }

  /** The name of the copy: `-copia` before the extension, or at the end when
    * the extension is empty. */
  function CopyName(fileName: string): (r: string)
    ensures |r| == |fileName| + 6
  {
    var ext := Extension(fileName);
    if ext != "" then
      LastPiece(fileName, '.');
      fileName[..|fileName| - (|ext| + 1)] + "-copia." + ext
    else fileName + "-copia"
  }

  /** `base.ext` is copied as `base-copia.ext`; the base may hold dots itself. */
  lemma CopyNameWithExtension(base: string, ext: string)
    requires ext != "" && '.' !in ext
    ensures CopyName(base + "." + ext) == base + "-copia." + ext
  {
    ExtensionOf(base, ext);
    var name := base + "." + ext;
    assert name[..|name| - (|ext| + 1)] == base;
  }

  lemma CopyNameWithoutDot(name: string)
    requires '.' !in name
    ensures CopyName(name) == name + "-copia"
  {
  }

  /** A name ending in a dot has an empty extension, so `-copia` goes after the dot. */
  lemma CopyNameTrailingDot(base: string)
    ensures CopyName(base + ".") == base + ".-copia"
  {
    ExtensionOf(base, "");
    assert base + "." + "" == base + ".";
  }

  /** The copy keeps the extension of the original (unless that was empty
    * after a final dot) and adds no slash. */
  lemma CopyNameKeepsExtension(name: string)
    requires '.' !in name || Extension(name) != ""
    ensures Extension(CopyName(name)) == Extension(name)
  {
    var ext := Extension(name);
    if ext != "" {
      LastPiece(name, '.');
      var base := name[..|name| - (|ext| + 1)];
      assert name == base + "." + ext;
      CopyNameWithExtension(base, ext);
      assert base + "-copia." + ext == (base + "-copia") + "." + ext;
      ExtensionOf(base + "-copia", ext);
    } else {
      assert '.' !in name + "-copia" by {
        forall j | 0 <= j < |name + "-copia"| ensures (name + "-copia")[j] != '.' {
          if j < |name| { assert name[j] in name; }
        }
      }
    }
  }

  lemma CopyNameNoSlash(name: string)
    requires '/' !in name
    ensures '/' !in CopyName(name)
  {
    var r := CopyName(name);
    var ext := Extension(name);
    forall j | 0 <= j < |r| ensures r[j] != '/' {
      if ext != "" {
        LastPiece(name, '.');
        var k := |name| - (|ext| + 1);
        if j < k { assert r[j] == name[j] && name[j] in name; }
        else if j >= k + 7 { assert r[j] == ext[j - k - 7] && ext[j - k - 7] == name[j - 6] && name[j - 6] in name; }
      } else {
        if j < |name| { assert r[j] == name[j] && name[j] in name; }
      }
    }
  }

  /** `handleDuplicate`: the copy's path, next to the original. */
  function DuplicatePath(path: string): string
  {
    RenamedPath(path, CopyName(LastSegment(path)))
  }

  /** The copy stays in the directory of the original, under the copy name, and
    * never takes the original's path. */
  lemma DuplicateNextToOriginal(path: string)
    ensures Parent(DuplicatePath(path)) == Parent(path)
    ensures LastSegment(DuplicatePath(path)) == CopyName(LastSegment(path))
    ensures DuplicatePath(path) != path
  {
    CopyNameNoSlash(LastSegment(path));
    RenameSwapsLastSegment(path, CopyName(LastSegment(path)));
    RenamedPathIs(path, CopyName(LastSegment(path)));
    assert |DuplicatePath(path)| == |path| + 6;
  }

  datatype CreateRequest = CreateRequest(path: string, content: string, kind: FileType)

  /** The request that creates the copy: same content and type. */
  function DuplicateRequest(file: ProjectFile): (r: CreateRequest)
    ensures r.content == file.content && r.kind == file.kind
    ensures Parent(r.path) == Parent(file.path) && r.path != file.path
  {
    DuplicateNextToOriginal(file.path);
    CreateRequest(DuplicatePath(file.path), file.content, file.kind)
  }

  // ---------------------------------------------------------------------------
  // Create

  /** The path of a new file: under `dir` when one is set. */
  function NewFilePath(dir: string, name: string): (r: string)
  {
    if dir != "" then dir + "/" + name else name
  }

  /** The type of a new file, from the end of its name. */
  function TypeFor(name: string): (r: FileType)
    ensures r != Image
  {
    if EndsWith(name, ".md") then Markdown
    else if EndsWith(name, ".bib") then Bibtex
    else if EndsWith(name, ".yaml") || EndsWith(name, ".yml") then Yaml
    else OtherType
  }

  /** Each known extension gives its type; every other name is `OTHER`. */
  lemma TypeByExtension(base: string)
    ensures TypeFor(base + ".md") == Markdown
    ensures TypeFor(base + ".bib") == Bibtex
    ensures TypeFor(base + ".yaml") == Yaml
    ensures TypeFor(base + ".yml") == Yaml
  {
    var md, bib, yaml, yml := base + ".md", base + ".bib", base + ".yaml", base + ".yml";
    assert md[|md| - 3..] == ".md";
    assert bib[|bib| - 4..] == ".bib" && bib[|bib| - 1] == 'b';
    assert yaml[|yaml| - 5..] == ".yaml" && yaml[|yaml| - 1] == 'l' && yaml[|yaml| - 4] == 'y';
    assert yml[|yml| - 4..] == ".yml" && yml[|yml| - 1] == 'l' && yml[|yml| - 4] == '.';
  }

  lemma OtherTypeWhenUnknown(name: string)
    requires !EndsWith(name, ".md") && !EndsWith(name, ".bib")
    requires !EndsWith(name, ".yaml") && !EndsWith(name, ".yml")
    ensures TypeFor(name) == OtherType
  {
  }

  /** The request for a new, empty file named `name` under `dir`; none for a
    * blank name. */
  function NewFileRequest(dir: string, name: string): (r: Option<CreateRequest>)
    ensures r.None? <==> JsTrim(name) == ""
    ensures r.Some? ==> r.value.path == NewFilePath(dir, name) && r.value.content == "" && r.value.kind == TypeFor(name)
  {
    if JsTrim(name) == "" then None
    else Some(CreateRequest(if dir != "" then dir + "/" + name else name, "", TypeFor(name)))
  }

  /** The directory the new-file input starts with for a group: none for
    * `root`, else the group's name. */
  function CreateDir(group: string): (r: string)
    ensures r == "" <==> group == "root" || group == ""
    ensures r != "" ==> r == group
  {
    if group == "root" then "" else group
  }

  /** A file created from a group's menu lands in that group. */
  lemma CreatedInGroup(group: string, name: string)
    requires group != "" && '/' !in group
    requires group == "root" ==> '/' !in name
    ensures DirOf(NewFilePath(CreateDir(group), name)) == group
  {
    if group == "root" {
      DirOfTopLevel(name);
    } else {
      DirOfNested(group, name);
    }
  }

  /** A new file under a directory is named as typed, below that directory. */
  lemma NewFileUnderDir(dir: string, name: string)
    requires dir != "" && '/' !in name
    ensures Parent(NewFilePath(dir, name)) == dir + "/"
    ensures LastSegment(NewFilePath(dir, name)) == name
  {
    assert dir + "/" + name == (dir + "/") + name;
    LastSegmentOf(dir + "/", name);
  }

  // ---------------------------------------------------------------------------
  // The tree's state

  datatype PendingRename = PendingRename(file: ProjectFile, newName: string)

  /** The state of renaming: the file whose name is being edited, the edited
    * name, and the references dialog with its list and its pending rename. */
  datatype RenameUi = RenameUi(
    editingFileId: Option<string>, newFileName: string,
    referencesDialogOpen: bool, referencingFiles: seq<string>, pendingRename: Option<PendingRename>)

  /** The state of deleting: the confirmation dialog and the file it is about. */
  datatype DeleteUi = DeleteUi(deleteDialogOpen: bool, fileToDelete: Option<ProjectFile>)

  /** The state of creating: whether the input is shown, its directory and text. */
  datatype CreateUi = CreateUi(isCreatingFile: bool, newFileDir: string, newFileNameInput: string)

  /** The component: the files it shows and its editing and dialog state, one
    * field per concern. */
  class FileTreeState {
    var files: seq<ProjectFile>
    var rename: RenameUi
    var delete: DeleteUi
    var create: CreateUi

    constructor(files: seq<ProjectFile>)
      ensures this.files == files
      ensures rename == RenameUi(None, "", false, [], None)
      ensures delete == DeleteUi(false, None)
      ensures create == CreateUi(false, "", "")
    {
      this.files := files;
      rename := RenameUi(None, "", false, [], None);
      delete := DeleteUi(false, None);
      create := CreateUi(false, "", "");
    }

    /** `handleStartRename`: edit the file's name, starting from its current one. */
    method StartRename(file: ProjectFile)
      modifies this
      ensures rename == old(rename).(editingFileId := Some(file.id), newFileName := file.name)
      ensures files == old(files) && delete == old(delete) && create == old(create)
    {
      rename := rename.(editingFileId := Some(file.id), newFileName := file.name);
    }

    /** The name input's change handler. */
    method EditName(name: string)
      modifies this
      ensures rename == old(rename).(newFileName := name)
      ensures files == old(files) && delete == old(delete) && create == old(create)
    {
      rename := rename.(newFileName := name);
    }

    /** `executeRename`: the request sent, after which the editor and the
      * references dialog are closed. */
    method ExecuteRename(file: ProjectFile, newName: string, updateReferences: bool) returns (req: RenameRequest)
      modifies this
      ensures req == RenameRequest(file.path, RenamedPath(file.path, newName), updateReferences)
      ensures rename == old(rename).(editingFileId := None, pendingRename := None, referencesDialogOpen := false)
      ensures files == old(files) && delete == old(delete) && create == old(create)
    {
      req := RenameRequest(file.path, RenamedPath(file.path, newName), updateReferences);
      rename := rename.(editingFileId := None, pendingRename := None, referencesDialogOpen := false);
    }

    /** `handleRenameSubmit` with the name being edited. */
    method RenameSubmit(file: ProjectFile) returns (req: Option<RenameRequest>)
      modifies this
      ensures match RenameDecision(old(files), file, old(rename.newFileName))
        case Dismissed =>
          req == None && rename == old(rename).(editingFileId := None)
        case AskAboutReferences(refs, name) =>
          req == None &&
          rename == old(rename).(editingFileId := None, referencingFiles := refs,
                                 pendingRename := Some(PendingRename(file, name)), referencesDialogOpen := true)
        case Send(request) =>
          req == Some(request) &&
          rename == old(rename).(editingFileId := None, pendingRename := None, referencesDialogOpen := false)
      ensures files == old(files) && delete == old(delete) && create == old(create)
    {
      var newName := rename.newFileName;
      if JsTrim(newName) == "" || newName == file.name {
        rename := rename.(editingFileId := None);
        return None;
      }
      var refs := FindReferencingFiles(files, file.path);
      if |refs| > 0 {
        rename := rename.(editingFileId := None, referencingFiles := refs,
                          pendingRename := Some(PendingRename(file, newName)), referencesDialogOpen := true);
        return None;
      }
      var r := ExecuteRename(file, newName, false);
      req := Some(r);
    }

    /** The references dialog's two rename buttons: rename only, or rename and
      * update the references; nothing happens without a pending rename. */
    method ConfirmRename(updateReferences: bool) returns (req: Option<RenameRequest>)
      modifies this
      ensures old(rename.pendingRename).None? ==> req == None && rename == old(rename)
      ensures old(rename.pendingRename).Some? ==>
        var p := old(rename.pendingRename).value;
        req == Some(RenameRequest(p.file.path, RenamedPath(p.file.path, p.newName), updateReferences)) &&
        rename == old(rename).(editingFileId := None, pendingRename := None, referencesDialogOpen := false)
      ensures files == old(files) && delete == old(delete) && create == old(create)
    {
      req := None;
      if rename.pendingRename.Some? {
        var p := rename.pendingRename.value;
        var r := ExecuteRename(p.file, p.newName, updateReferences);
        req := Some(r);
      }
    }

    /** The dialog's cancel button: the dialog closes, the pending rename stays. */
    method CancelReferences()
      modifies this
      ensures rename == old(rename).(referencesDialogOpen := false)
      ensures files == old(files) && delete == old(delete) && create == old(create)
    {
      rename := rename.(referencesDialogOpen := false);
    }

    /** `handleDelete`: remember the file and ask for confirmation. */
    method StartDelete(file: ProjectFile)
      modifies this
      ensures delete == DeleteUi(true, Some(file))
      ensures files == old(files) && rename == old(rename) && create == old(create)
    {
      delete := DeleteUi(true, Some(file));
    }

    /** `executeDelete`: the path whose deletion is requested, if a file was
      * chosen; the dialog is then closed and the choice forgotten. */
    method ExecuteDelete() returns (path: Option<string>)
      modifies this
      ensures old(delete.fileToDelete).None? ==> path == None && delete == old(delete)
      ensures old(delete.fileToDelete).Some? ==>
        path == Some(old(delete.fileToDelete).value.path) && delete == DeleteUi(false, None)
      ensures files == old(files) && rename == old(rename) && create == old(create)
    {
      if delete.fileToDelete.None? {
        return None;
      }
      path := Some(delete.fileToDelete.value.path);
      delete := DeleteUi(false, None);
    }

    /** `startCreateFile` from a group's menu. */
    method StartCreateFile(group: string)
      modifies this
      ensures create == CreateUi(true, CreateDir(group), "")
      ensures files == old(files) && rename == old(rename) && delete == old(delete)
    {
      create := CreateUi(true, if group == "root" then "" else group, "");
    }

    /** The new-file input's change handler. */
    method EditNewFileName(name: string)
      modifies this
      ensures create == old(create).(newFileNameInput := name)
      ensures files == old(files) && rename == old(rename) && delete == old(delete)
    {
      create := create.(newFileNameInput := name);
    }

    /** `handleCreateFile`: a blank name only closes the input (keeping what
      * was typed); otherwise the empty file is requested and the input reset. */
    method CreateFile() returns (req: Option<CreateRequest>)
      modifies this
      ensures req == NewFileRequest(old(create.newFileDir), old(create.newFileNameInput))
      ensures req.None? ==> create == old(create).(isCreatingFile := false)
      ensures req.Some? ==> create == CreateUi(false, "", "")
      ensures files == old(files) && rename == old(rename) && delete == old(delete)
    {
      req := NewFileRequest(create.newFileDir, create.newFileNameInput);
      if req.None? {
        create := create.(isCreatingFile := false);
        return;
      }
      create := CreateUi(false, "", "");
    }
  }
}
