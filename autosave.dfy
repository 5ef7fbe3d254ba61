/** The `render_post` hook `auto_save_render`: after a render, when the
    scene asks for it and the document has been saved, it makes sure the
    auto-save folder (and, if asked, a sub-folder named after the
    document) exists, numbers the render one past the highest number
    already there and writes the render result under that name. */
module AutoSave {
  import opened Wrappers
  import opened PyStr
  import opened PyPath
  import opened Naming
  import opened Fs

  /** The scene settings the hook reads; the output format is read at the
      start and written back at the end. */
  class Scene {
    var saveAfterRender: bool
    var autoSaveSubfolders: bool
    var fileFormat: string

    constructor (saveAfterRender: bool, autoSaveSubfolders: bool, fileFormat: string)
      ensures this.saveAfterRender == saveAfterRender
      ensures this.autoSaveSubfolders == autoSaveSubfolders
      ensures this.fileFormat == fileFormat
    {
      this.saveAfterRender := saveAfterRender;
      this.autoSaveSubfolders := autoSaveSubfolders;
      this.fileFormat := fileFormat;
    }
  }

  /** How one run of the hook ends. */
  datatype Outcome =
    | Skipped                  // auto-save is off or the document was never saved
    | Failed(error: Error)     // an exception ends the hook
    | NoRenderResult           // the image lookup finds no render result
    | Saved(path: string)      // the render was written to `path`

  /** What a run of the hook leaves behind: how it ended and the
      directories with their listings. */
  datatype Effect = Effect(outcome: Outcome, entries: map<string, seq<string>>)

  /** `<dirname of the document>/auto_saves`. */
  function AutoSavesDir(documentPath: string): (dir: string)
    ensures dir != [] && dir[|dir| - 1] != '/'
  {
    Dirname(documentPath) + "/auto_saves"
  }

  /** The folder the render is saved in. */
  function TargetDir(documentPath: string, subfolders: bool): (dir: string)
    ensures dir != []
    ensures !subfolders ==> dir == AutoSavesDir(documentPath)
    ensures subfolders ==> dir == AutoSavesDir(documentPath) + "/" + BlendName(documentPath)
  {
    var root := AutoSavesDir(documentPath);
    if subfolders then
      var name := BlendName(documentPath);
      JoinRelative(root, name);
      Join(root, name)
    else root
  }

  /** `if not exists(p): mkdir(p)` on a map of listings. */
  function EnsureDir(entries: map<string, seq<string>>, p: string): (r: map<string, seq<string>>)
    ensures r.Keys == entries.Keys + {Key(p)}
    ensures forall k :: k in entries ==> r[k] == entries[k]
    ensures Key(p) !in entries ==> r[Key(p)] == []
  {
    if Key(p) in entries then entries else entries[Key(p) := []]
  }

  /** The listings once the hook has created its folders: both folders
      exist, every directory that existed before lists what it listed, and
      the ones created list nothing. */
  function Prepared(entries: map<string, seq<string>>, documentPath: string, subfolders: bool): (r: map<string, seq<string>>)
    ensures r.Keys == entries.Keys + {Key(AutoSavesDir(documentPath)), Key(TargetDir(documentPath, subfolders))}
    ensures forall k :: k in entries ==> r[k] == entries[k]
    ensures forall k :: k in r && k !in entries ==> r[k] == []
  {
    var root, target := AutoSavesDir(documentPath), TargetDir(documentPath, subfolders);
    var withRoot := EnsureDir(entries, root);
    if subfolders then
      EnsureDirTwice(entries, root, target);
      EnsureDir(withRoot, target)
    else
      assert {Key(root), Key(target)} == {Key(root)};
      withRoot
  }

  /** Creating two folders in turn. */
  lemma EnsureDirTwice(entries: map<string, seq<string>>, a: string, b: string)
    ensures var r := EnsureDir(EnsureDir(entries, a), b);
      && r.Keys == entries.Keys + {Key(a), Key(b)}
      && (forall k :: k in entries ==> r[k] == entries[k])
      && (forall k :: k in r && k !in entries ==> r[k] == [])
  {
  }

  /** What the target folder lists once the folders exist. */
  function TargetListing(entries: map<string, seq<string>>, documentPath: string, subfolders: bool): seq<string>
  {
    Prepared(entries, documentPath, subfolders)[Key(TargetDir(documentPath, subfolders))]
  }

  /** The whole hook as a function of the directories before it runs, the
      document path, the scene settings, the current frame and whether the
      render result is found. */
  function Hook(entries: map<string, seq<string>>, documentPath: string, saveAfterRender: bool,
                subfolders: bool, format: string, frame: int, renderResultFound: bool): Effect
  {
    if !saveAfterRender || documentPath == [] then Effect(Skipped, entries)
    else Finish(Prepared(entries, documentPath, subfolders), TargetDir(documentPath, subfolders),
                BlendName(documentPath), format, frame, renderResultFound)
  }

  /** The rest of the hook once its folder `dir` exists: find the next
      name, stop on an error or a missing render result, and otherwise
      save under that name in `dir`. */
  function Finish(entries: map<string, seq<string>>, dir: string, blendname: string,
                  format: string, frame: int, renderResultFound: bool): Effect
    requires Key(dir) in entries
  {
    match NextFile(entries[Key(dir)], blendname, format, frame)
    case Err(e) => Effect(Failed(e), entries)
    case Ok(name) =>
      if !renderResultFound then Effect(NoRenderResult, entries)
      else Effect(Saved(Join(dir, name)), entries[Key(dir) := AddEntry(entries[Key(dir)], name)])
  }

  /** Guard: with auto-save off, or for a document never saved, the hook
      returns at once and touches nothing. */
  lemma HookGuard(entries: map<string, seq<string>>, documentPath: string, saveAfterRender: bool,
                  subfolders: bool, format: string, frame: int, renderResultFound: bool)
    ensures var e := Hook(entries, documentPath, saveAfterRender, subfolders, format, frame, renderResultFound);
      (e.outcome == Skipped <==> !saveAfterRender || documentPath == [])
      && (e.outcome == Skipped ==> e.entries == entries)
  {
  }

  /** Otherwise both folders exist afterwards, no directory is removed or
      emptied, and only the target folder's listing can change, by at most
      one name. */
  lemma HookFolders(entries: map<string, seq<string>>, documentPath: string, subfolders: bool,
                    format: string, frame: int, renderResultFound: bool)
    requires documentPath != []
    ensures var e := Hook(entries, documentPath, true, subfolders, format, frame, renderResultFound);
      var target := Key(TargetDir(documentPath, subfolders));
      && e.entries.Keys == entries.Keys + {Key(AutoSavesDir(documentPath)), target}
      && (forall k :: k in entries && k != target ==> e.entries[k] == entries[k])
      && (target in entries ==> forall f :: f in entries[target] ==> f in e.entries[target])
      && |e.entries[target]| <= (if target in entries then |entries[target]| else 0) + 1
  {
    var prepared := Prepared(entries, documentPath, subfolders);
    FinishFrame(prepared, TargetDir(documentPath, subfolders), BlendName(documentPath), format, frame, renderResultFound);
  }

  /** The last part of the hook only adds to the listing of its folder. */
  lemma FinishFrame(entries: map<string, seq<string>>, dir: string, blendname: string,
                    format: string, frame: int, renderResultFound: bool)
    requires Key(dir) in entries
    ensures var e := Finish(entries, dir, blendname, format, frame, renderResultFound);
      && e.entries.Keys == entries.Keys
      && (forall k :: k in entries && k != Key(dir) ==> e.entries[k] == entries[k])
      && (forall f :: f in entries[Key(dir)] ==> f in e.entries[Key(dir)])
      && |e.entries[Key(dir)]| <= |entries[Key(dir)]| + 1
  {
  }

  /** A save happens exactly when the hook is on, the document has been
      saved, the format has an extension, the split cannot fail and the
      render result is found. The saved file lies in the target folder,
      its name starts with the blend name and ends with the extension, and
      it is listed there afterwards. */
  lemma HookSaves(entries: map<string, seq<string>>, documentPath: string, saveAfterRender: bool,
                  subfolders: bool, format: string, frame: int, renderResultFound: bool)
    ensures var e := Hook(entries, documentPath, saveAfterRender, subfolders, format, frame, renderResultFound);
      var target := Key(TargetDir(documentPath, subfolders));
      var blendname := BlendName(documentPath);
      && (e.outcome.Saved? <==>
           saveAfterRender && documentPath != [] && format in KnownFormats && renderResultFound
           && (blendname != [] || Candidates(Prepared(entries, documentPath, subfolders)[target], blendname) == []))
      && (e.outcome.Saved? ==>
           var name := Basename(e.outcome.path);
           && Key(Dirname(e.outcome.path)) == target
           && StartsWith(name, blendname) && EndsWith(name, ExtensionFor(format).value)
           && name in e.entries[target])
  {
    if saveAfterRender && documentPath != [] {
      HookRuns(entries, documentPath, subfolders, format, frame, renderResultFound);
      FinishSaved(Prepared(entries, documentPath, subfolders), TargetDir(documentPath, subfolders),
                  BlendName(documentPath), format, frame, renderResultFound);
    }
  }

  /** The rest of the hook saves exactly when a name is found and the
      render result is there; the saved file lies in `dir` under that
      name, which is listed there afterwards. */
  lemma FinishSaved(entries: map<string, seq<string>>, dir: string, blendname: string,
                    format: string, frame: int, renderResultFound: bool)
    requires Key(dir) in entries && dir != [] && '/' !in blendname
    ensures var e := Finish(entries, dir, blendname, format, frame, renderResultFound);
      var next := NextFile(entries[Key(dir)], blendname, format, frame);
      && (e.outcome.Saved? <==> next.Ok? && renderResultFound)
      && (e.outcome.Saved? ==>
           && e.outcome.path == Join(dir, next.value)
           && Basename(e.outcome.path) == next.value
           && Key(Dirname(e.outcome.path)) == Key(dir)
           && next.value in e.entries[Key(dir)])
  {
    var next := NextFile(entries[Key(dir)], blendname, format, frame);
    if next.Ok? && renderResultFound {
      SavePathParts(dir, entries[Key(dir)], blendname, format, frame);
    }
  }

  /** Rendering twice: the second run creates no folder and saves under
      the next number, with the same blend name and extension. */
  lemma HookRerun(entries: map<string, seq<string>>, documentPath: string, subfolders: bool,
                  format: string, frame: int, frame': int)
    requires documentPath != [] && format in CountedFormats && BlendName(documentPath) != []
    requires var blendname := BlendName(documentPath);
      forall j :: !OccursAt(NameTail(NextNumber(TargetListing(entries, documentPath, subfolders), blendname),
                                     frame, ExtensionFor(format).value), blendname, j)
    ensures var first := Hook(entries, documentPath, true, subfolders, format, frame, true);
      var second := Hook(first.entries, documentPath, true, subfolders, format, frame', true);
      var dir := TargetDir(documentPath, subfolders);
      var blendname := BlendName(documentPath);
      var ext := ExtensionFor(format).value;
      var n := NextNumber(TargetListing(entries, documentPath, subfolders), blendname);
      && Prepared(first.entries, documentPath, subfolders) == first.entries
      && first.outcome == Saved(Join(dir, FileName(blendname, n, frame, ext)))
      && second.outcome == Saved(Join(dir, FileName(blendname, n + 1, frame', ext)))
  {
    var prepared := Prepared(entries, documentPath, subfolders);
    FinishRerun(prepared, TargetDir(documentPath, subfolders), TargetListing(entries, documentPath, subfolders),
                BlendName(documentPath), format, frame, frame');
    PreparedIdle(Finish(prepared, TargetDir(documentPath, subfolders), BlendName(documentPath), format, frame, true).entries,
                 documentPath, subfolders);
  }

  /** Once both folders exist, preparing them changes nothing. */
  lemma PreparedIdle(entries: map<string, seq<string>>, documentPath: string, subfolders: bool)
    requires Key(AutoSavesDir(documentPath)) in entries && Key(TargetDir(documentPath, subfolders)) in entries
    ensures Prepared(entries, documentPath, subfolders) == entries
  {
    var r := Prepared(entries, documentPath, subfolders);
    assert r.Keys == entries.Keys;
  }

  /** Saving twice into the same folder numbers the second file one past
      the first. */
  lemma FinishRerun(entries: map<string, seq<string>>, dir: string, listing: seq<string>, blendname: string,
                    format: string, frame: int, frame': int)
    requires Key(dir) in entries && entries[Key(dir)] == listing
    requires blendname != [] && format in CountedFormats
    requires forall j :: !OccursAt(NameTail(NextNumber(listing, blendname), frame, ExtensionFor(format).value), blendname, j)
    ensures var first := Finish(entries, dir, blendname, format, frame, true);
      var second := Finish(first.entries, dir, blendname, format, frame', true);
      var ext := ExtensionFor(format).value;
      var n := NextNumber(listing, blendname);
      && first.entries.Keys == entries.Keys
      && first.outcome == Saved(Join(dir, FileName(blendname, n, frame, ext)))
      && second.outcome == Saved(Join(dir, FileName(blendname, n + 1, frame', ext)))
  {
    NextFileAfterSave(listing, blendname, format, frame, frame');
    FinishTwice(entries, dir, listing, blendname, format, frame, frame',
                FileName(blendname, NextNumber(listing, blendname), frame, ExtensionFor(format).value),
                FileName(blendname, NextNumber(listing, blendname) + 1, frame', ExtensionFor(format).value));
  }

  lemma FinishTwice(entries: map<string, seq<string>>, dir: string, listing: seq<string>, blendname: string,
                    format: string, frame: int, frame': int, name: string, name': string)
    requires Key(dir) in entries && entries[Key(dir)] == listing && name !in listing
    requires NextFile(listing, blendname, format, frame) == Ok(name)
    requires NextFile(listing + [name], blendname, format, frame') == Ok(name')
    ensures var first := Finish(entries, dir, blendname, format, frame, true);
      && first.entries.Keys == entries.Keys
      && first.outcome == Saved(Join(dir, name))
      && Finish(first.entries, dir, blendname, format, frame', true).outcome == Saved(Join(dir, name'))
  {
    FinishSaves(entries, dir, blendname, format, frame, name);
    var after := entries[Key(dir) := listing + [name]];
    FinishSaves(after, dir, blendname, format, frame', name');
  }

  /** When the next file name is known, the last part of the hook saves it. */
  lemma FinishSaves(entries: map<string, seq<string>>, dir: string, blendname: string,
                    format: string, frame: int, name: string)
    requires Key(dir) in entries && NextFile(entries[Key(dir)], blendname, format, frame) == Ok(name)
    ensures Finish(entries, dir, blendname, format, frame, true) ==
      Effect(Saved(Join(dir, name)), entries[Key(dir) := AddEntry(entries[Key(dir)], name)])
  {
  }

  /** Creates the auto-save folder and, when asked, the sub-folder named
      after the document, each only if it does not exist yet; returns the
      folder the render goes to. */
  method PrepareFolders(fs: FileSystem, documentPath: string, subfolders: bool, blendname: string)
    returns (filepath: string)
    requires blendname == BlendName(documentPath)
    modifies fs
    ensures filepath == TargetDir(documentPath, subfolders)
    ensures fs.entries == Prepared(old(fs.entries), documentPath, subfolders)
  {
    filepath := AutoSavesDir(documentPath);
    EnsureFolder(fs, filepath);
    if subfolders {
      JoinRelative(filepath, blendname);
      filepath := Join(filepath, blendname);
      EnsureFolder(fs, filepath);
    }
  }

  /** `if not exists(p): mkdir(p)`. */
  method EnsureFolder(fs: FileSystem, p: string)
    modifies fs
    ensures fs.entries == EnsureDir(old(fs.entries), p)
  {
    if !fs.Exists(p) {
      fs.Mkdir(p);
    }
  }

  /** Runs the hook, in the order of its statements. `frame` is the current
      frame of the context's scene; `renderResultFound` stands for the
      lookup of the render result image. */
  method AutoSaveRender(scene: Scene, fs: FileSystem, documentPath: string, frame: int, renderResultFound: bool)
    returns (outcome: Outcome)
    modifies fs, scene`fileFormat
    ensures scene.fileFormat == old(scene.fileFormat)
    ensures Effect(outcome, fs.entries) ==
      Hook(old(fs.entries), documentPath, scene.saveAfterRender, scene.autoSaveSubfolders,
           old(scene.fileFormat), frame, renderResultFound)
  {
    if !scene.saveAfterRender || documentPath == [] {
      HookGuard(fs.entries, documentPath, scene.saveAfterRender, scene.autoSaveSubfolders, scene.fileFormat,
                frame, renderResultFound);
      return Skipped;
    }
    var originalFormat := scene.fileFormat;
    var subfolders := scene.autoSaveSubfolders;
    outcome := RunHook(fs, documentPath, subfolders, originalFormat, frame, renderResultFound);
    if outcome.Saved? {
      scene.fileFormat := originalFormat;
    }
    assert scene.saveAfterRender && scene.autoSaveSubfolders == subfolders;
  }

  /** The hook past its guard: create the folders, then find the name and
      save. */
  method RunHook(fs: FileSystem, documentPath: string, subfolders: bool, format: string, frame: int,
                 renderResultFound: bool) returns (outcome: Outcome)
    requires documentPath != []
    modifies fs
    ensures Effect(outcome, fs.entries) ==
      Hook(old(fs.entries), documentPath, true, subfolders, format, frame, renderResultFound)
  {
    var blendname := BlendName(documentPath);
    ghost var before := fs.entries;
    var filepath := PrepareFolders(fs, documentPath, subfolders, blendname);
    outcome := SaveNext(fs, filepath, blendname, format, frame, renderResultFound);
    HookRuns(before, documentPath, subfolders, format, frame, renderResultFound);
  }

  /** Past the guard, the hook prepares its folders and finishes in the
      target folder. */
  lemma HookRuns(entries: map<string, seq<string>>, documentPath: string, subfolders: bool,
                 format: string, frame: int, renderResultFound: bool)
    requires documentPath != []
    ensures Hook(entries, documentPath, true, subfolders, format, frame, renderResultFound)
         == Finish(Prepared(entries, documentPath, subfolders), TargetDir(documentPath, subfolders),
                   BlendName(documentPath), format, frame, renderResultFound)
  {
  }

  /** The hook from the listing of its folder on: find the save path and
      save the render result under it. */
  method SaveNext(fs: FileSystem, filepath: string, blendname: string, format: string, frame: int,
                  renderResultFound: bool) returns (outcome: Outcome)
    requires filepath != [] && '/' !in blendname && fs.Exists(filepath)
    modifies fs
    ensures Effect(outcome, fs.entries) ==
      Finish(old(fs.entries), filepath, blendname, format, frame, renderResultFound)
  {
    var listing := fs.ListDir(filepath);
    var saveName := NextSavePath(filepath, listing, blendname, format, frame);
    if saveName.Err? {
      return Failed(saveName.error);
    }
    if !renderResultFound {
      return NoRenderResult;
    }
    SavePathParts(filepath, listing, blendname, format, frame);
    fs.SaveFile(saveName.value);
    return Saved(saveName.value);
  }

  /** Filters and scans the listing of the folder and builds the save
      path: the folder joined with the next file name, or the error the
      hook stops with. */
  method NextSavePath(filepath: string, listing: seq<string>, blendname: string, format: string, frame: int)
    returns (r: Result<string, Error>)
    requires '/' !in blendname
    ensures match NextFile(listing, blendname, format, frame)
      case Err(e) => r == Err(e)
      case Ok(name) => r == Ok(Join(filepath, name))
  {
    var files := Candidates(listing, blendname);
    if blendname == [] && files != [] {
      return Err(SplitOnEmptyName);
    }
    var extension := ExtensionFor(format);
    r := SavePathFromCandidates(filepath, files, blendname, extension, frame);
    if extension.Some? {
      NextFileNamed(listing, blendname, format, extension.value, frame);
      assert NextNumber(listing, blendname) == Highest(files, blendname) + 1;
    }
  }

  /** The scan and the name, once the split cannot fail. */
  method SavePathFromCandidates(filepath: string, files: seq<string>, blendname: string,
                                extension: Option<string>, frame: int)
    returns (r: Result<string, Error>)
    requires '/' !in blendname && (blendname != [] || files == [])
    ensures match extension
      case None => r == Err(ExtensionUnbound)
      case Some(ext) => r == Ok(Join(filepath, FileName(blendname, Highest(files, blendname) + 1, frame, ext)))
  {
    var highest := ScanHighest(files, blendname);
    if extension.None? {
      return Err(ExtensionUnbound);
    }
    var saveName := SaveName(filepath, blendname, highest, frame, extension.value);
    SaveNameIsJoin(filepath, blendname, highest, frame, extension.value);
    return Ok(saveName);
  }

  /** The save path names the next file inside the folder. */
  lemma SavePathParts(filepath: string, listing: seq<string>, blendname: string, format: string, frame: int)
    requires filepath != [] && '/' !in blendname
    requires NextFile(listing, blendname, format, frame).Ok?
    ensures var name := NextFile(listing, blendname, format, frame).value;
      Basename(Join(filepath, name)) == name && Key(Dirname(Join(filepath, name))) == Key(filepath)
  {
    var ext := ExtensionFor(format).value;
    var n := NextNumber(listing, blendname);
    NextFileNamed(listing, blendname, format, ext, frame);
    ExtensionIsPlain(format);
    FileNameIsPlain(blendname, n, frame, ext);
    JoinParts(filepath, FileName(blendname, n, frame, ext));
  }
}
