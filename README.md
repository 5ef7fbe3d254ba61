# Render auto-save, verified model

This project models `auto_save_render`, the post-render hook of the Blender
add-on "Auto Save Render". After each render, when the scene's
`save_after_render` option is on and the document has been saved, the hook:

1. picks a file extension for the render output format from a fixed table;
2. takes the document's base name up to its last `.` (the *blend name*);
3. makes sure `<document folder>/auto_saves` exists, and, when
   `auto_save_subfolders` is on, `auto_saves/<blend name>` as well, creating
   each only when it is missing;
4. lists that folder and keeps the entries that start with the blend name and
   end in `.png`, `.jpg`, `.jpeg` or `.exr` (ignoring case);
5. reads in each of them the first run of digits in the last piece of
   `f.split(blendname)` — the text after the last non-overlapping occurrence
   of the blend name, so a blend name that also occurs later in the name
   (blend name `f` and the `-f` before the frame) makes the scan read the
   frame instead of the number — and keeps the highest, 0 when there is
   none;
6. saves the render result as
   `<folder>/<blend name>_<highest + 1, zero-padded to 3>-f<frame><extension>`
   and puts the output format back as it found it.

The model is split by concern:

- `wrappers.dfy` — `Option` and `Result`.
- `pystr.dfy` (module `PyStr`) — the Python string built-ins the hook uses,
  on `seq<char>`: `lower`, `startswith`, `endswith`, `split(sep)[-1]`,
  `rpartition`, `zfill`, `str(int)`, `int(str)` and the first match of
  `\d+`.
- `pypath.dfy` (module `PyPath`) — `bpy.path.basename`, `os.path.dirname`
  and `os.path.join` on `/`-separated paths.
- `naming.dfy` (module `Naming`) — the naming logic as pure functions
  (`ExtensionFor`, `BlendName`, `IsCandidate`, `Candidates`,
  `SequenceNumber`, `Highest`, `SaveName`, `NextFile`), the scan as the loop
  method `ScanHighest` proved against `Highest`, and the lemmas about them.
- `fs.dfy` (module `Fs`) — an abstract file system: a class `FileSystem`
  whose field maps each existing directory to the names it lists, with
  `exists`, `listdir`, `mkdir` and writing a file as its operations.
- `autosave.dfy` (module `AutoSave`) — the scene settings as a class
  `Scene`, the hook as the method `AutoSaveRender` over `Scene` and
  `FileSystem`, and the whole hook as the function `Hook` that the method is
  proved against, with the lemmas about guards, folders and re-runs.

Two of the ways the hook can raise are modelled as errors: `f.split('')` with
an empty blend name raises `ValueError` as soon as one entry counts
(`SplitOnEmptyName`), and an unknown output format leaves `extension`
unbound, which raises at the line that builds the name (`ExtensionUnbound`).
They are raised in that order, after the folders have been created, as the
statements run. The others (a missing render result, `mkdir` of a folder
whose parent is missing, `listdir` of a path that is not a directory) are
listed under "Left out".

## Model

| member | source | states |
|---|---|---|
| Naming.ExtensionFor | render-autosave/render_auto_save.py:62-75 | A format has an extension exactly when it is one of the 13 formats of the table, and the extension is one of the table's extensions; any other format gives none. |
| Naming.ExtensionTable | render-autosave/render_auto_save.py:62-75 | The table read in both directions: `.exr` exactly for `OPEN_EXR` and `OPEN_EXR_MULTILAYER`, `.jpg` exactly for `JPEG` and `JPEG2000`, `.tga` exactly for `TARGA` and `TARGA_RAW`, and each other extension for its single format. |
| PyStr.RPartitionHead | render-autosave/render_auto_save.py:82 | `rpartition(sep)[0]`: empty when the separator does not occur; otherwise the prefix that is followed by the separator with no separator after it. |
| PyStr.RPartitionHeadOf | render-autosave/render_auto_save.py:82 | Round trip: `head + sep + tail` with no separator in `tail` partitions back to `head`. |
| PyPath.BlenderBasename | render-autosave/render_auto_save.py:82 | Dropping Blender's leading `//` does not change the base name. |
| PyPath.Basename | render-autosave/render_auto_save.py:82 | `basename` is the suffix of the path after its last `/`, with no `/` in it; `BasenameUnique` shows no other such suffix qualifies. |
| PyPath.Dirname | render-autosave/render_auto_save.py:83 | `dirname` keeps what precedes the base name, trailing slashes removed unless only slashes remain; `JoinSplits` and `Fs.JoinParts` state what it gives back from a join. |
| PyPath.Join | render-autosave/render_auto_save.py:89 | `join` puts one `/` between a folder and a relative name (`JoinRelative`), lets an absolute name replace the folder, and commutes with appending a suffix to the name (`JoinThenAppend`). |
| Naming.BlendName | render-autosave/render_auto_save.py:82 | The blend name is the base name up to, not including, its last `.`, empty when the base name has no `.`, and never holds a `/`. |
| Naming.BlendNameOfBlendFile | render-autosave/render_auto_save.py:82-83 | A document `<dir>/<stem>.blend` has blend name `stem` and lies in `dir`. |
| PyPath.JoinSplits | render-autosave/render_auto_save.py:89 | `dirname` and `basename` take apart what `join` puts together for a folder without a trailing slash and a plain name. |
| AutoSave.TargetDir | render-autosave/render_auto_save.py:83-89 | The save folder is `<dirname>/auto_saves`, or `<dirname>/auto_saves/<blend name>` when sub-folders are on. |
| AutoSave.AutoSavesDir | render-autosave/render_auto_save.py:83 | `dirname(document) + '/auto_saves'` is a non-empty path that does not end in `/`. |
| AutoSave.EnsureDir | render-autosave/render_auto_save.py:85-86 | After "create if missing" the path exists, every directory keeps its listing, and a created directory lists nothing. |
| AutoSave.Prepared | render-autosave/render_auto_save.py:85-91 | After the folder step both folders exist, existing directories keep their listings and only the created ones are new, and empty. |
| AutoSave.EnsureFolder | render-autosave/render_auto_save.py:85-86 | `mkdir` runs only when the path does not exist; the new file-system state is `EnsureDir` of the old one. |
| AutoSave.PrepareFolders | render-autosave/render_auto_save.py:83-91 | Returns the target folder and leaves the file system as `Prepared` describes. |
| Fs.FileSystem.Mkdir | render-autosave/render_auto_save.py:86 | Creating a missing directory adds it, empty, and changes nothing else. |
| Fs.FileSystem.SaveFile | render-autosave/render_auto_save.py:116 | Writing a file lists its base name in its directory and changes nothing else. |
| Fs.FileSystem.Exists | render-autosave/render_auto_save.py:85 | `exists` holds of a path exactly when the directory it names, up to trailing slashes, is a key of the file system; `Mkdir` and `SaveFile` state their effect through it. |
| Fs.FileSystem.ListDir | render-autosave/render_auto_save.py:94 | The abstract `listdir`: defined on an existing directory only, as the listing the file system holds for it, in its order; `Mkdir` and `SaveFile` state their effects on it. |
| Naming.Candidates | render-autosave/render_auto_save.py:94-96 | An entry is kept exactly when it is listed, starts with the blend name (case sensitive) and its lower-cased name ends in `.png`, `.jpg`, `.jpeg` or `.exr`. |
| Naming.IsCandidate | render-autosave/render_auto_save.py:95-96 | An entry counts when it starts with the blend name and its lower-cased name ends in one of the four extensions; `CandidateByExtension` shows that for the hook's own names this depends on the extension alone. |
| PyStr.Lower | render-autosave/render_auto_save.py:96 | `lower` keeps the length, distributes over concatenation (`LowerAppend`) and leaves text without capitals as it is (`LowerOfLowerCase`). |
| Naming.FileNameIsCandidate | render-autosave/render_auto_save.py:63-75 | A file of the hook's own naming is counted by the filter exactly when its format is `PNG`, `JPEG`, `JPEG2000`, `OPEN_EXR` or `OPEN_EXR_MULTILAYER`; `.bmp`, `.iris`, `.tga`, `.cineon`, `.dpx`, `.hdr` and `.tif` files never are. |
| PyStr.SplitLast | render-autosave/render_auto_save.py:102 | `f.split(blendname)[-1]`, defined as Python's left-to-right scan: with no occurrence the whole string, otherwise the last piece of what follows the first occurrence, so occurrences do not overlap; its properties are `SplitLastSuffix`, `SplitLastNoSep`, `SplitLastOverlap` and `SplitLastAfterPrefix`. |
| PyStr.SplitLastSuffix | render-autosave/render_auto_save.py:102 | The last piece is a suffix of the string that is either the whole string or directly preceded by `sep`. |
| PyStr.SplitLastNoSep | render-autosave/render_auto_save.py:102 | `sep` does not occur in the last piece. |
| PyStr.SplitLastOverlap | render-autosave/render_auto_save.py:102 | `"aaa".split("aa")[-1]` is `"a"`: occurrences are taken from the left and do not overlap. |
| PyStr.SplitLastAfterPrefix | render-autosave/render_auto_save.py:102 | A string that starts with `sep`, which does not occur again, splits to the rest. |
| PyStr.FirstDigitRun | render-autosave/render_auto_save.py:102 | The first match of `\d+` is absent exactly when there is no ASCII digit; otherwise it is a non-empty maximal digit run preceded by no digit. |
| PyStr.FirstDigitRunSkips | render-autosave/render_auto_save.py:102 | A digit-free prefix does not change the first match. |
| PyStr.FirstDigitRunOfRun | render-autosave/render_auto_save.py:102 | A digit run followed by a non-digit or by nothing is the first match. |
| PyStr.ParseLeadingZeros | render-autosave/render_auto_save.py:104 | `int` ignores leading zeros. |
| PyStr.ParseNat | render-autosave/render_auto_save.py:104 | `int` of a digit run: `NatToString` is read back to its number and leading zeros add nothing (`ParseLeadingZeros`). |
| Naming.SequenceNumber | render-autosave/render_auto_save.py:102-104 | The number an entry carries is `int` of the first digit run in the last piece of `f.split(blendname)`, none without a digit; `SequenceNumberOfFileName` reads back the number of the hook's own names. |
| Naming.ShortNameReadsFrame | render-autosave/render_auto_save.py:102-104 | For blend name `f`, the entry `f_001-f7.png` carries the number 7, its frame, because `split` cuts at the `f` of `-f` too. |
| Naming.Highest | render-autosave/render_auto_save.py:98-105 | The highest number bounds every candidate's number and, unless it is 0, is carried by some candidate. |
| Naming.ScanHighest | render-autosave/render_auto_save.py:98-105 | The scan loop computes exactly `Highest` of the candidates. |
| Naming.HighestOrderIndependent | render-autosave/render_auto_save.py:98-105 | The highest number depends only on which names are listed, not on their order or repetition. |
| Naming.HighestAppend | render-autosave/render_auto_save.py:103-105 | One more candidate raises the highest number to its own number exactly when that is larger. |
| Naming.NextNumber | render-autosave/render_auto_save.py:98-108 | The next number is at least 1 and larger than the number of every counted entry. |
| Naming.NextNumberOrderIndependent | render-autosave/render_auto_save.py:94-108 | The next number does not depend on the order `listdir` returns names in. |
| PyStr.NatToString | render-autosave/render_auto_save.py:108 | `str(n)` is a non-empty digit string without a leading zero (unless it is `0`) that `int` reads back as `n`. |
| PyStr.IntToString | render-autosave/render_auto_save.py:107-108 | `str(framenum)` is a digit string that `int` reads back as the frame, or, for a negative frame, `-` followed by such a string for its magnitude. |
| PyStr.ZFill | render-autosave/render_auto_save.py:108 | `zfill(w)` pads on the left with `0` to `w` characters, after a leading sign, and never truncates. |
| Naming.SaveName | render-autosave/render_auto_save.py:108 | The save path built as the line builds it, `join(filepath, blendname) + '_' + zfill(3) + '-f' + frame + extension`; `SaveNameIsJoin` proves it is the folder joined with the whole file name. |
| Naming.SaveNameIsJoin | render-autosave/render_auto_save.py:108 | The save path, built by joining the folder and the blend name and appending the rest, is the folder joined with the whole file name. |
| Naming.SequenceNumberOfFileName | render-autosave/render_auto_save.py:102-108 | Round trip: the scan reads back from `<blend name>_<NNN>-f<frame><ext>` exactly the number it was written with, when the blend name does not occur again after its leading occurrence. |
| Naming.NextFile | render-autosave/render_auto_save.py:94-108 | The next file name, or `SplitOnEmptyName` exactly when the blend name is empty and some entry counts, or otherwise `ExtensionUnbound` exactly when the format is unknown; a name starts with the blend name and ends with the extension. |
| Naming.NextFileOrderIndependent | render-autosave/render_auto_save.py:94-108 | The next file name, errors included, depends only on which names are listed. |
| Naming.NextNumberAfterSave | render-autosave/render_auto_save.py:98-108 | A counted entry carrying the next number is not yet listed, and listing it moves the next number up by one. |
| Naming.NextFileAfterSave | render-autosave/render_auto_save.py:102-108 | Round trip: once the produced file is listed, the next save of a counted format uses the number after it. |
| Naming.UncountedFormatRepeats | render-autosave/render_auto_save.py:94-96 | For a format the filter does not count, listing the produced file changes nothing, so the next render of the same frame gets the same name. |
| Naming.SceneExample | render-autosave/render_auto_save.py:2 | After `Scene_001-f1.png` and `Scene_002-f5.png`, a PNG render of frame 9 is named `Scene_003-f9.png`. |
| AutoSave.HookGuard | render-autosave/render_auto_save.py:57-58 | The hook skips exactly when `save_after_render` is off or the document path is empty, and then nothing changes. |
| AutoSave.HookFolders | render-autosave/render_auto_save.py:85-116 | Otherwise both folders exist afterwards, no directory is removed, and only the target folder's listing grows, by at most one name. |
| AutoSave.HookSaves | render-autosave/render_auto_save.py:57-116 | A file is saved exactly when the hook is on, the document is saved, the format is known, the split cannot fail and the render result is found; it lies in the target folder, starts with the blend name, ends with the extension and is listed afterwards. |
| AutoSave.HookRerun | render-autosave/render_auto_save.py:85-116 | Rendering twice: the second run creates no folder and saves under the next number. |
| AutoSave.PreparedIdle | render-autosave/render_auto_save.py:85-91 | Once both folders exist, the folder step changes nothing. |
| AutoSave.Hook | render-autosave/render_auto_save.py:56-118 | The whole hook as a function of the directories before it: skip at the guard, otherwise prepare the folders and finish there; its properties are `HookGuard`, `HookFolders`, `HookSaves` and `HookRerun`. |
| AutoSave.Finish | render-autosave/render_auto_save.py:94-116 | The hook from the listing on: stop on `NextFile`'s error or a missing render result, otherwise list the new name in the folder; its properties are `FinishSaved`, `FinishFrame` and `FinishRerun`. |
| AutoSave.NextSavePath | render-autosave/render_auto_save.py:94-108 | The method builds the save path as the folder joined with the next file name, or returns exactly the error `NextFile` stops with. |
| AutoSave.SavePathFromCandidates | render-autosave/render_auto_save.py:98-108 | Once the split cannot fail, the scan and the name give `ExtensionUnbound` exactly for an unknown format and otherwise the folder joined with `<blend name>_<highest + 1>-f<frame><ext>`, `highest` being `Highest` of the candidates. |
| AutoSave.FinishSaved | render-autosave/render_auto_save.py:94-116 | From the listing on, a file is saved exactly when a name is found and the render result is there; its path is the folder joined with that name, its directory is the folder, its base name is the name, and the name is listed there afterwards. |
| AutoSave.FinishFrame | render-autosave/render_auto_save.py:94-116 | From the listing on, no directory appears or disappears, other folders keep their listings, and the target folder keeps its names and gains at most one. |
| AutoSave.FinishRerun | render-autosave/render_auto_save.py:94-116 | Two saves of a counted format into the same folder get the next number and the one after it. |
| AutoSave.RunHook | render-autosave/render_auto_save.py:82-116 | Past the guard, the method's outcome and new file system are those of `Hook`. |
| AutoSave.SaveNext | render-autosave/render_auto_save.py:94-116 | From the listing on, the method's outcome and new file system are those of `Finish`. |
| AutoSave.AutoSaveRender | render-autosave/render_auto_save.py:56-118 | The hook method's outcome and new file system are those of `Hook`, and the output format is its original value on exit. |

## Left out

- Writing the image (`image.save_render`) is modelled as listing the new
  name in its folder; the image data is not modelled.
- The lookup of the render result in `bpy.data.images` is a parameter
  (`renderResultFound`); in Blender a missing key raises rather than reaching
  the "not found" branch.
- The current frame is a parameter of the hook; it is read from the host's
  context.
- The message printed on a missing render result and before saving is not
  modelled.
- `mkdir` of `auto_saves` when the document's folder itself does not exist
  (which raises in Python) is not modelled: the model creates it. Creating
  a directory does not add its name to its parent's listing.
- Fs.Key: a path names a directory up to trailing slashes only; `.` and
  `..` parts, doubled slashes (`/scene.blend` gives `//auto_saves`) and
  Windows paths are not resolved, so two spellings of one directory (for
  instance `/d/auto_saves/.` for a document `/d/..blend` with sub-folders
  on) are two directories in the model, and `exists` is true only for
  directories, not for a regular file of that name.
- Directory listings hold names only; files and directories are not told
  apart, and a listed name that is a directory is filtered like a file.
- `\d+` is read as runs of ASCII `0`-`9` only; `lower` folds ASCII letters
  only.
- The registration of the hook, the scene properties and the panel
  (`register`, `unregister`, `auto_save_UI`) are host plumbing.
- `buildingarrays/buildingarrays.py` is not part of this model: it is a
  sequence of Blender API calls whose computation happens in the host.
