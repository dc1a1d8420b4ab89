/**
 * The pieces of a file path the renamer looks at: its parent directory,
 * its last component and that component's extension, after Rust's
 * `Path::parent`, `Path::file_name` and `Path::extension`.
 */
module Paths {
  import opened Wrappers
  import opened Text

  /**
   * A path, seen through its parent directory (absent only for a root or
   * an empty path) and its last component (absent for a path ending in
   * `..`).
   */
  datatype FilePath = FilePath(parent: Option<string>, fileName: Option<string>)

  /** The path naming `name` inside directory `dir` (Rust's `dir.join(name)`). */
  function Joined(dir: string, name: string): FilePath
  {
    FilePath(Some(dir), Some(name))
  }

  /**
   * The extension of a file name: the text after its last '.'. There is
   * none when the name has no '.', when its only '.' is the leading one
   * (".jpg" is a hidden file without extension), and for "..". A name
   * ending in '.' has the empty extension.
   */
  function NameExtension(name: string): (ext: Option<string>)
    ensures ext.Some? <==> name != ".." && exists i :: 0 < i < |name| && name[i] == '.'
    ensures ext.Some? ==> '.' !in ext.value
    ensures ext.Some? ==> |ext.value| < |name| - 1 && name[|name| - |ext.value| - 1] == '.'
    ensures ext.Some? ==> ext.value == name[|name| - |ext.value|..]
  {
    if name == ".." then None
    else match LastIndex(name, '.')
      case None => None
      case Some(k) =>
        if k == 0 then
          assert forall i :: 0 < i < |name| ==> name[i] == name[1..][i - 1];
          None
        else Some(name[k + 1..])
  }

  /** The extension of a path's last component, if it has one. */
  function Extension(path: FilePath): (ext: Option<string>)
    ensures path.fileName.None? ==> ext.None?
    ensures ext.Some? ==>
      && path.fileName.Some?
      && '.' !in ext.value
      && |ext.value| + 1 < |path.fileName.value|
      && path.fileName.value[|path.fileName.value| - |ext.value| - 1..] == "." + ext.value
  {
    match path.fileName
    case None => None
    case Some(name) => NameExtension(name)
  }

  /** Appending "." and a dot-free extension to a non-empty stem makes that the extension. */
  lemma NameExtensionOfJoined(stem: string, ext: string)
    requires stem != [] && '.' !in ext
    requires stem + "." + ext != ".."
    ensures NameExtension(stem + "." + ext) == Some(ext)
  {
    var name := stem + "." + ext;
    assert name[|stem|] == '.';
    assert name[|stem| + 1..] == ext;
  }
}
