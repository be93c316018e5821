/**
 * The file-system primitives the archive core calls: System.IO.Path's
 * GetExtension and Combine (with Unix separators), a splitter that reads a
 * slash-separated name back into its segments, and a FileSystem object that
 * records which paths exist and which entry names each archive written by
 * the core holds.
 */
module Files {

  /** On Unix, .NET treats only '/' as a directory separator. */
  predicate IsDirectorySeparator(c: char) {
    c == '/'
  }

  /** No character at or after position i is a '.' or a separator. */
  ghost predicate PlainFrom(path: string, i: nat)
    requires i <= |path|
  {
    forall j :: i <= j < |path| ==> path[j] != '.' && !IsDirectorySeparator(path[j])
  }

  /** `ext` is what Path.GetExtension reports when it reports something: a final '.'
      followed by at least one character, none of them a '.' or a separator. */
  ghost predicate IsExtensionOf(path: string, ext: string) {
    && 2 <= |ext| <= |path|
    && ext[0] == '.'
    && ext == path[|path| - |ext|..]
    && forall j :: 1 <= j < |ext| ==> ext[j] != '.' && !IsDirectorySeparator(ext[j])
  }

  /** Every '.' before the last character is followed by another '.' or a separator:
      the last file-name component has no extension. */
  ghost predicate HasNoExtension(path: string) {
    forall k :: 0 <= k < |path| - 1 && path[k] == '.' ==>
      exists j :: k < j < |path| && (path[j] == '.' || IsDirectorySeparator(path[j]))
  }

  /** Path.GetExtension scans from position i - 1 backwards. */
  function ExtensionBefore(path: string, i: nat): (ext: string)
    requires i <= |path|
    requires PlainFrom(path, i)
    ensures ext != "" ==> IsExtensionOf(path, ext)
    ensures ext == "" ==> HasNoExtension(path)
    decreases i
  {
    if i == 0 then
      ""
    else if path[i - 1] == '.' then
      if i == |path| then "" else path[i - 1..]
    else if IsDirectorySeparator(path[i - 1]) then
      ""
    else
      ExtensionBefore(path, i - 1)
  }

  /** Path.GetExtension: the extension including its leading '.', or "" when there is none. */
  function GetExtension(path: string): (ext: string)
    ensures ext == "" || IsExtensionOf(path, ext)
    ensures ext == "" <==> HasNoExtension(path)
  {
    var ext := ExtensionBefore(path, |path|);
    if ext != "" then ExtensionRulesOutNone(path, ext); ext else ext
  }

  lemma ExtensionRulesOutNone(path: string, ext: string)
    requires IsExtensionOf(path, ext)
    ensures !HasNoExtension(path)
  {
    var k := |path| - |ext|;
    assert path[k] == '.' && k < |path| - 1;
    forall j | k < j < |path|
      ensures path[j] != '.' && !IsDirectorySeparator(path[j])
    {
      assert path[j] == ext[j - k];
    }
  }

  predicate IsRooted(path: string) {
    |path| > 0 && IsDirectorySeparator(path[0])
  }

  /** Path.Combine(first, second). */
  function Combine(first: string, second: string): (r: string)
    ensures |second| <= |r| && r[|r| - |second|..] == second
    ensures first != "" && !IsRooted(second) ==> |first| <= |r| && r[..|first|] == first
    ensures second == "" ==> r == first
  {
    if second == "" then first
    else if first == "" || IsRooted(second) then second
    else if IsDirectorySeparator(first[|first| - 1]) then first + second
    else first + "/" + second
  }

  predicate HasNoSlash(s: string) {
    forall i :: 0 <= i < |s| ==> s[i] != '/'
  }

  /** The '/'-separated segments of a name, as a zip tool shows its folders. */
  function Segments(s: string): (r: seq<string>)
    ensures |r| >= 1
  {
    if s == [] then [""]
    else
      var rest := Segments(s[1..]);
      if s[0] == '/' then [""] + rest else [[s[0]] + rest[0]] + rest[1..]
  }

  lemma {:induction false} SegmentsOfPlain(s: string)
    requires HasNoSlash(s)
    ensures Segments(s) == [s]
  {
    if s != [] {
      SegmentsOfPlain(s[1..]);
      assert [s[0]] + s[1..] == s;
    }
  }

  lemma {:induction false} SegmentsOfJoin(first: string, rest: string)
    requires HasNoSlash(first)
    ensures Segments(first + "/" + rest) == [first] + Segments(rest)
  {
    if first == [] {
      assert first + "/" + rest == ['/'] + rest;
      assert (['/'] + rest)[1..] == rest;
    } else {
      var s := first + "/" + rest;
      assert s[1..] == first[1..] + "/" + rest;
      SegmentsOfJoin(first[1..], rest);
      assert [first[0]] + first[1..] == first;
    }
  }

  /**
   * The storage the core touches. `files` holds the paths File.Exists
   * reports; `archives` holds, for every archive file this core created,
   * the names of the entries written into it, in the order written.
   */
  class FileSystem {
    const currentDirectory: string
    var files: set<string>
    var archives: map<string, seq<string>>

    constructor (currentDirectory: string, files: set<string>)
      ensures this.currentDirectory == currentDirectory
      ensures this.files == files && archives == map[]
    {
      this.currentDirectory := currentDirectory;
      this.files := files;
      archives := map[];
    }

    /** Opening `path` in create mode and starting an archive on it: an empty archive at
        `path`, replacing whatever was there. */
    method CreateArchive(path: string)
      modifies this
      ensures files == old(files) + {path}
      ensures archives == old(archives)[path := []]
    {
      files := files + {path};
      archives := archives[path := []];
    }

    /** Adding an entry to an open archive: one more entry, after those already written. */
    method AddEntry(path: string, name: string)
      requires path in archives
      modifies this
      ensures files == old(files)
      ensures archives == old(archives)[path := old(archives[path]) + [name]]
    {
      archives := archives[path := archives[path] + [name]];
    }
  }
}
