/** The part of the file system the hook touches: which directories exist
    and the names each one lists. A path names a directory up to trailing
    slashes, as it does for `os.path.exists`, `os.mkdir` and `os.listdir`. */
module Fs {
  import opened PyStr
  import opened PyPath

  /** The directory a path names: trailing slashes do not matter, except
      in a path made of slashes only. */
  function Key(p: string): string
  {
    if p != [] && !AllChar(p, '/') then RStrip(p, '/') else p
  }

  /** The key is the path with some trailing slashes removed, and it ends
      in something other than a slash unless it is the path itself. */
  lemma KeyShape(p: string)
    ensures |Key(p)| <= |p| && p[..|Key(p)|] == Key(p)
    ensures AllChar(p[|Key(p)|..], '/')
    ensures Key(p) == p || (Key(p) != [] && Key(p)[|Key(p)| - 1] != '/')
  {
  }

  /** Normalising twice is normalising once. */
  lemma KeyIdempotent(p: string)
    ensures Key(Key(p)) == Key(p)
  {
    var k := Key(p);
    KeyShape(p);
    if k != p {
      assert !AllChar(k, '/') by { assert k[|k| - 1] != '/'; }
    }
  }

  /** Saving a name in a directory listing: the name is listed afterwards,
      once, and nothing else changes. */
  function AddEntry(listing: seq<string>, name: string): (r: seq<string>)
    ensures forall f :: f in r <==> f in listing || f == name
    ensures name in listing ==> r == listing
    ensures name !in listing ==> r == listing + [name]
  {
    if name in listing then listing else listing + [name]
  }

  /** The file a path names lies, under its base name, in the directory
      its `dirname` names. For a relative name joined onto a directory
      that is that directory and that name. */
  lemma {:induction false} JoinParts(dir: string, name: string)
    requires dir != [] && name != [] && '/' !in name
    ensures Basename(Join(dir, name)) == name
    ensures Key(Dirname(Join(dir, name))) == Key(dir)
  {
    assert !StartsWith(name, "/") by { assert name[0] != '/'; }
    if EndsWith(dir, "/") {
      var p := dir + name;
      assert Join(dir, name) == p;
      assert p[|p| - |name|..] == name;
      assert p[|p| - |name| - 1] == dir[|dir| - 1];
      BasenameUnique(p, name);
      assert p[..|p| - |name|] == dir;
      KeyIdempotent(dir);
    } else {
      assert dir[|dir| - 1] != '/' by { assert dir[|dir| - 1..] == [dir[|dir| - 1]]; }
      JoinSplits(dir, name);
      assert !AllChar(dir, '/') by { assert dir[|dir| - 1] != '/'; }
    }
  }

  /** The directories that exist, each with the names it lists, keyed by
      `Key`. */
  class FileSystem {
    var entries: map<string, seq<string>>

    constructor (initial: map<string, seq<string>>)
      ensures entries == initial
    {
      entries := initial;
    }

    /** `os.path.exists` for a directory. */
    predicate Exists(p: string)
      reads this
    {
      Key(p) in entries
    }

    /** `os.listdir`. */
    function ListDir(p: string): seq<string>
      reads this
      requires Exists(p)
    {
      entries[Key(p)]
    }

    /** `os.mkdir` of a directory that does not exist yet: it exists
        afterwards and lists nothing. */
    method Mkdir(p: string)
      requires !Exists(p)
      modifies this
      ensures entries == old(entries)[Key(p) := []]
      ensures Exists(p) && ListDir(p) == []
    {
      entries := entries[Key(p) := []];
    }

    /** Writing a file: its base name is listed in its directory
        afterwards. */
    method SaveFile(path: string)
      requires Exists(Dirname(path))
      modifies this
      ensures entries == old(entries)[Key(Dirname(path)) := AddEntry(old(entries)[Key(Dirname(path))], Basename(path))]
      ensures Basename(path) in ListDir(Dirname(path))
    {
      var dir := Key(Dirname(path));
      entries := entries[dir := AddEntry(entries[dir], Basename(path))];
    }
  }
}
