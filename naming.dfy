/** The naming logic of the post-render auto-save hook: which extension the
    render format gets, the document's base name, which files in the
    auto-save directory count, the highest sequence number among them, and
    the name of the next auto-save file,
    `<blendname>_<NNN>-f<frame><extension>`. */
module Naming {
  import opened Wrappers
  import opened PyStr
  import opened PyPath

  /** The render formats the extension table knows. */
  const KnownFormats: set<string> :=
    {"BMP", "OPEN_EXR_MULTILAYER", "JPEG", "PNG", "IRIS", "JPEG2000", "TARGA",
     "TARGA_RAW", "CINEON", "DPX", "OPEN_EXR", "HDR", "TIFF"}

  /** The formats whose files the directory scan recognises again. */
  const CountedFormats: set<string> :=
    {"OPEN_EXR_MULTILAYER", "JPEG", "PNG", "JPEG2000", "OPEN_EXR"}


  // ------------------------------------------------------------ extension

  /** The extension for a render file format: every known format has one,
      from the table's extensions, and any other format has none (in the
      hook the name stays unbound). */
  function ExtensionFor(format: string): (ext: Option<string>)
    ensures ext.Some? <==> format in KnownFormats
    ensures ext.Some? ==> ext.value in TableExtensions
  {
    if format == "BMP" then Some(".bmp")
    else if format == "OPEN_EXR_MULTILAYER" then Some(".exr")
    else if format == "JPEG" then Some(".jpg")
    else if format == "PNG" then Some(".png")
    else if format == "IRIS" then Some(".iris")
    else if format == "JPEG2000" then Some(".jpg")
    else if format == "TARGA" then Some(".tga")
    else if format == "TARGA_RAW" then Some(".tga")
    else if format == "CINEON" then Some(".cineon")
    else if format == "DPX" then Some(".dpx")
    else if format == "OPEN_EXR" then Some(".exr")
    else if format == "HDR" then Some(".hdr")
    else if format == "TIFF" then Some(".tif")
    else None
  }

  /** The extensions of the table. */
  const TableExtensions: set<string> :=
    {".bmp", ".exr", ".jpg", ".png", ".iris", ".tga", ".cineon", ".dpx", ".hdr", ".tif"}

  /** The table read backwards: which formats give each extension. */
  lemma ExtensionTable(format: string)
    ensures ExtensionFor(format) == Some(".bmp") <==> format == "BMP"
    ensures ExtensionFor(format) == Some(".exr") <==> format == "OPEN_EXR_MULTILAYER" || format == "OPEN_EXR"
    ensures ExtensionFor(format) == Some(".jpg") <==> format == "JPEG" || format == "JPEG2000"
    ensures ExtensionFor(format) == Some(".png") <==> format == "PNG"
    ensures ExtensionFor(format) == Some(".iris") <==> format == "IRIS"
    ensures ExtensionFor(format) == Some(".tga") <==> format == "TARGA" || format == "TARGA_RAW"
    ensures ExtensionFor(format) == Some(".cineon") <==> format == "CINEON"
    ensures ExtensionFor(format) == Some(".dpx") <==> format == "DPX"
    ensures ExtensionFor(format) == Some(".hdr") <==> format == "HDR"
    ensures ExtensionFor(format) == Some(".tif") <==> format == "TIFF"
  {
  }

  // ------------------------------------------------------------ blendname

  /** The document's base name up to, not including, its last `.`; empty
      when the base name has no `.`. */
  function BlendName(documentPath: string): (name: string)
    ensures '/' !in name
    ensures var base := Basename(documentPath);
      && ('.' !in base ==> name == [])
      && ('.' in base ==> |name| < |base| && base[..|name|] == name && base[|name|] == '.'
                          && '.' !in base[|name| + 1..])
  {
    var base := BlenderBasename(documentPath);
    var name := RPartitionHead(base, '.');
    PrefixKeepsAbsence(base, name, '/');
    name
  }

  lemma PrefixKeepsAbsence(s: string, p: string, c: char)
    requires c !in s && (p == [] || (|p| <= |s| && s[..|p|] == p))
    ensures c !in p
  {
    assert forall i :: 0 <= i < |p| ==> p[i] == s[i];
  }

  /** A saved document `<dir>/<stem>.blend` has base name `stem` and lives
      in `dir`. */
  lemma BlendNameOfBlendFile(dir: string, stem: string)
    requires dir != [] && dir[|dir| - 1] != '/'
    requires '/' !in stem
    ensures BlendName(dir + "/" + stem + ".blend") == stem
    ensures Dirname(dir + "/" + stem + ".blend") == dir
  {
    var file := stem + ".blend";
    assert file == stem + ['.'] + "blend";
    assert '/' !in file;
    assert dir + "/" + stem + ".blend" == dir + "/" + file;
    JoinSplits(dir, file);
    RPartitionHeadOf(stem, "blend", '.');
  }

  // ----------------------------------------------------------- candidates

  /** A directory entry counts when it starts with the blend name (case
      sensitive) and its lower-cased name ends in an image extension. */
  predicate IsCandidate(f: string, blendname: string)
  {
    StartsWith(f, blendname) && HasImageExtension(Lower(f))
  }

  /** `s.endswith(('.png', '.jpg', '.jpeg', '.exr'))`. */
  predicate HasImageExtension(s: string)
  {
    EndsWith(s, ".png") || EndsWith(s, ".jpg") || EndsWith(s, ".jpeg") || EndsWith(s, ".exr")
  }

  /** The directory entries that count, in listing order. */
  function Candidates(listing: seq<string>, blendname: string): (files: seq<string>)
    ensures forall f :: f in files <==> f in listing && IsCandidate(f, blendname)
    ensures |files| <= |listing|
  {
    if listing == [] then []
    else
      var init, last := listing[..|listing| - 1], listing[|listing| - 1];
      assert listing == init + [last];
      Candidates(init, blendname) + (if IsCandidate(last, blendname) then [last] else [])
  }

  /** The filter keeps listing order: one more entry is kept, at the end,
      exactly when it counts. */
  lemma CandidatesAppend(listing: seq<string>, f: string, blendname: string)
    ensures Candidates(listing + [f], blendname)
         == Candidates(listing, blendname) + (if IsCandidate(f, blendname) then [f] else [])
  {
    assert (listing + [f])[..|listing|] == listing;
  }

  // ------------------------------------------------------ sequence number

  /** The number a candidate carries: the first run of digits in the text
      after the blend name (the last piece of `f.split(blendname)`), read
      as a decimal. */
  function SequenceNumber(f: string, blendname: string): Option<nat>
    requires blendname != []
  {
    match FirstDigitRun(SplitLast(f, blendname))
    case None => None
    case Some(run) => Some(ParseNat(run))
  }

  /** The numbers the candidates carry, in listing order. */
  function Numbers(files: seq<string>, blendname: string): (ns: seq<Option<nat>>)
    requires blendname != [] || files == []
    ensures |ns| == |files|
    ensures forall i :: 0 <= i < |files| ==> ns[i] == SequenceNumber(files[i], blendname)
  {
    seq(|files|, i requires 0 <= i < |files| => SequenceNumber(files[i], blendname))
  }

  /** The largest number present, 0 when there is none: it bounds every
      number present and, unless it is 0, is one of them. */
  function MaxNumber(ns: seq<Option<nat>>): (h: nat)
    ensures forall i :: 0 <= i < |ns| && ns[i].Some? ==> ns[i].value <= h
    ensures h == 0 || exists i :: 0 <= i < |ns| && ns[i] == Some(h)
    decreases |ns|
  {
    if ns == [] then 0
    else
      var h := MaxNumber(ns[..|ns| - 1]);
      var last := ns[|ns| - 1];
      assert forall i :: 0 <= i < |ns| - 1 ==> ns[..|ns| - 1][i] == ns[i];
      if last.Some? && last.value > h then last.value else h
  }

  /** The highest sequence number among the candidates, 0 when none
      carries one: no candidate's number exceeds it, and unless it is 0 some
      candidate carries it. */
  function Highest(files: seq<string>, blendname: string): (h: nat)
    requires blendname != [] || files == []
    ensures forall i :: 0 <= i < |files| && SequenceNumber(files[i], blendname).Some? ==>
      SequenceNumber(files[i], blendname).value <= h
    ensures h == 0 || exists i :: 0 <= i < |files| && SequenceNumber(files[i], blendname) == Some(h)
  {
    var ns := Numbers(files, blendname);
    var h := MaxNumber(ns);
    assert forall i :: 0 <= i < |files| ==> ns[i] == SequenceNumber(files[i], blendname);
    h
  }

  /** Taking one more number into account keeps the larger one. */
  lemma MaxNumberStep(ns: seq<Option<nat>>, i: nat)
    requires i < |ns|
    ensures MaxNumber(ns[..i + 1]) ==
      if ns[i].Some? && ns[i].value > MaxNumber(ns[..i]) then ns[i].value else MaxNumber(ns[..i])
  {
    assert ns[..i + 1][..i] == ns[..i];
  }

  /** The scan over the candidates: the loop keeps the largest number seen
      so far. */
  method ScanHighest(files: seq<string>, blendname: string) returns (highest: nat)
    requires blendname != [] || files == []
    ensures highest == Highest(files, blendname)
  {
    highest := 0;
    if files != [] {
      ghost var ns := Numbers(files, blendname);
      for i := 0 to |files|
        invariant highest == MaxNumber(ns[..i])
      {
        MaxNumberStep(ns, i);
        var suffix := FirstDigitRun(SplitLast(files[i], blendname));
        assert ns[i] == SequenceNumber(files[i], blendname);
        if suffix.Some? {
          var n := ParseNat(suffix.value);
          if n > highest {
            highest := n;
          }
        }
      }
      assert ns[..|files|] == ns;
    }
  }

  /** The highest number does not depend on the order of the listing, nor
      on repeated entries: only on which names are there. */
  lemma HighestOrderIndependent(a: seq<string>, b: seq<string>, blendname: string)
    requires blendname != [] || (a == [] && b == [])
    requires forall f :: f in a <==> f in b
    ensures Highest(a, blendname) == Highest(b, blendname)
  {
    var ha, hb := Highest(a, blendname), Highest(b, blendname);
    if ha != 0 {
      var i :| 0 <= i < |a| && SequenceNumber(a[i], blendname) == Some(ha);
      assert a[i] in b;
      var j :| 0 <= j < |b| && b[j] == a[i];
      assert ha <= hb;
    }
    if hb != 0 {
      var j :| 0 <= j < |b| && SequenceNumber(b[j], blendname) == Some(hb);
      assert b[j] in a;
      var i :| 0 <= i < |a| && a[i] == b[j];
      assert hb <= ha;
    }
  }

  // ------------------------------------------------------------- the name

  /** The name of an auto-save file inside its directory. */
  function FileName(blendname: string, n: nat, frame: int, ext: string): string
  {
    blendname + NameTail(n, frame, ext)
  }

  /** The full save path, built as the hook builds it: the directory joined
      with the blend name, then the rest of the file name. */
  function SaveName(dir: string, blendname: string, highest: nat, frame: int, ext: string): string
  {
    Join(dir, blendname) + NameTail(highest + 1, frame, ext)
  }

  /** The text after the blend name in a file name:
      `_<number, zero-padded to 3>-f<frame><extension>`. */
  function NameTail(n: nat, frame: int, ext: string): string
  {
    NameStem(n, frame) + ext
  }

  function NameStem(n: nat, frame: int): string
  {
    "_" + (ZFill(NatToString(n), 3) + ("-f" + IntToString(frame)))
  }

  /** The save path is the directory joined with the file name. */
  lemma SaveNameIsJoin(dir: string, blendname: string, highest: nat, frame: int, ext: string)
    requires '/' !in blendname
    ensures SaveName(dir, blendname, highest, frame, ext) == Join(dir, FileName(blendname, highest + 1, frame, ext))
  {
    JoinThenAppend(dir, blendname, NameTail(highest + 1, frame, ext));
  }

  /** Reading back the number: the scan finds in a file of this hook's
      naming exactly the number it was written with, provided the blend
      name does not occur again after the leading one. */
  lemma SequenceNumberOfFileName(blendname: string, n: nat, frame: int, ext: string)
    requires blendname != []
    requires forall j :: !OccursAt(NameTail(n, frame, ext), blendname, j)
    ensures SequenceNumber(FileName(blendname, n, frame, ext), blendname) == Some(n)
  {
    var digits := NatToString(n);
    var padded := ZFill(digits, 3);
    var k := |padded| - |digits|;
    assert padded == Zeros(k) + digits;
    var fr := "-f" + IntToString(frame);
    ConcatAssoc("_", padded, fr, ext);
    assert NameTail(n, frame, ext) == "_" + ((Zeros(k) + digits) + (fr + ext));
    SequenceNumberOfParts(blendname, k, digits, fr + ext);
  }

  lemma SequenceNumberOfParts(blendname: string, k: nat, digits: string, after: string)
    requires blendname != [] && digits != [] && AllDigits(digits)
    requires after == [] || !IsDigit(after[0])
    requires forall j :: !OccursAt("_" + ((Zeros(k) + digits) + after), blendname, j)
    ensures SequenceNumber(blendname + ("_" + ((Zeros(k) + digits) + after)), blendname) == Some(ParseNat(digits))
  {
    var padded := Zeros(k) + digits;
    SplitLastAfterPrefix(blendname, "_" + (padded + after));
    assert NoDigits("_");
    FirstDigitRunSkips("_", padded + after);
    ParseLeadingZeros(k, digits);
    FirstDigitRunOfRun(padded, after);
  }

  /** Every character after the blend name is a digit, `_`, `-`, `f` or a
      character of the extension. */
  lemma NameTailAlphabet(n: nat, frame: int, ext: string)
    ensures forall c :: c in NameTail(n, frame, ext) ==>
      IsDigit(c) || c == '_' || c == '-' || c == 'f' || c in ext
  {
    var digits := NatToString(n);
    var padded := ZFill(digits, 3);
    assert AllDigits(padded) by {
      if |digits| < 3 {
        assert forall i :: 0 <= i < |padded| - |digits| ==> padded[..|padded| - |digits|][i] == padded[i];
        assert forall i :: |padded| - |digits| <= i < |padded| ==> padded[|padded| - |digits|..][i - (|padded| - |digits|)] == padded[i];
      }
    }
    var fr := IntToString(frame);
    assert forall c :: c in fr ==> IsDigit(c) || c == '-' by {
      if frame < 0 {
        assert forall i :: 1 <= i < |fr| ==> fr[i] == NatToString(-frame)[i - 1];
      }
    }
  }

  /** Every extension of the table is a plain name. */
  lemma ExtensionIsPlain(format: string)
    requires ExtensionFor(format).Some?
    ensures '/' !in ExtensionFor(format).value
  {
  }

  /** A file name of this naming is a plain name inside its directory. */
  lemma FileNameIsPlain(blendname: string, n: nat, frame: int, ext: string)
    requires '/' !in blendname && '/' !in ext
    ensures FileName(blendname, n, frame, ext) != []
    ensures '/' !in FileName(blendname, n, frame, ext)
  {
    var tail := NameTail(n, frame, ext);
    NameTailAlphabet(n, frame, ext);
    assert '/' !in tail;
    assert FileName(blendname, n, frame, ext) == blendname + tail;
    assert tail[0] == '_';
  }

  /** A character of the blend name that cannot appear after it keeps the
      blend name from occurring there again. */
  lemma NoOccurrenceByChar(s: string, sep: string, i: nat)
    requires i < |sep| && sep[i] !in s
    ensures forall j :: !OccursAt(s, sep, j)
  {
    forall j | 0 <= j && j + |sep| <= |s| ensures OccursAt(s, sep, j) ==> s[j + i] == sep[i] {
      assert s[j..j + |sep|][i] == s[j + i];
    }
  }

  /** Which files of this naming the scan counts: exactly those whose render
      format is one of the five counted formats. Files written as `.bmp`,
      `.iris`, `.tga`, `.cineon`, `.dpx`, `.hdr` or `.tif` never raise the
      counter. */
  lemma FileNameIsCandidate(blendname: string, n: nat, frame: int, format: string)
    requires format in KnownFormats
    ensures IsCandidate(FileName(blendname, n, frame, ExtensionFor(format).value), blendname)
        <==> format in CountedFormats
  {
    CountedExtensions(format);
    CandidateByExtension(blendname, NameStem(n, frame), ExtensionFor(format).value);
  }

  lemma CandidateByExtension(blendname: string, stem: string, ext: string)
    requires |ext| >= 4 && ext[0] == '.'
    requires forall i :: 0 <= i < |ext| ==> !('A' <= ext[i] <= 'Z')
    ensures IsCandidate(blendname + (stem + ext), blendname) <==> HasImageExtension(ext)
  {
    var f := blendname + (stem + ext);
    assert StartsWith(f, blendname) by { assert f[..|blendname|] == blendname; }
    LowerAppend(blendname, stem + ext);
    LowerAppend(stem, ext);
    LowerOfLowerCase(ext);
    var x := Lower(blendname) + Lower(stem);
    assert Lower(f) == x + ext;
    ExtensionMatches(x, ext);
  }

  /** The lower-cased extension test on `x + ext` looks at `ext` alone, for
      an extension of at least four characters starting with `.`. */
  lemma ExtensionMatches(x: string, ext: string)
    requires |ext| >= 4 && ext[0] == '.'
    ensures HasImageExtension(x + ext) <==> HasImageExtension(ext)
  {
    EndsWithAppend(x, ext, ".png");
    EndsWithAppend(x, ext, ".jpg");
    EndsWithAppend(x, ext, ".exr");
    if |ext| >= 5 {
      EndsWithAppend(x, ext, ".jpeg");
    } else {
      EndsWithLonger(x, ext, ".jpeg");
      assert ".jpeg"[1..] != ext by { assert ".jpeg"[1..][0] != ext[0]; }
    }
  }

  /** The extensions of the counted formats are exactly those the scan
      accepts. */
  lemma CountedExtensions(format: string)
    requires format in KnownFormats
    ensures var ext := ExtensionFor(format).value;
      && |ext| >= 4 && ext[0] == '.' && (forall i :: 0 <= i < |ext| ==> !('A' <= ext[i] <= 'Z'))
      && (HasImageExtension(ext) <==> format in CountedFormats)
  {
    var ext := ExtensionFor(format).value;
    assert ext in TableExtensions;
    assert ext in {".exr", ".jpg", ".png"} <==> format in CountedFormats;
    TableExtensionAccepted(ext);
  }

  lemma TableExtensionAccepted(ext: string)
    requires ext in TableExtensions
    ensures |ext| >= 4 && ext[0] == '.' && (forall i :: 0 <= i < |ext| ==> !('A' <= ext[i] <= 'Z'))
    ensures HasImageExtension(ext) <==> ext in {".exr", ".jpg", ".png"}
  {
    if ext == ".exr" || ext == ".jpg" || ext == ".png" {
      assert EndsWith(ext, ext);
    } else if ext == ".bmp" {
      NoImageExtension(".bmp");
    } else if ext == ".iris" {
      NoImageExtension(".iris");
    } else if ext == ".tga" {
      NoImageExtension(".tga");
    } else if ext == ".cineon" {
      NoImageExtension(".cineon");
    } else if ext == ".dpx" {
      NoImageExtension(".dpx");
    } else if ext == ".hdr" {
      NoImageExtension(".hdr");
    } else {
      assert ext == ".tif";
      NoImageExtension(".tif");
    }
  }

  /** Every accepted extension ends in `g` or in `xr`. */
  lemma NoImageExtension(s: string)
    requires |s| >= 2
    requires s[|s| - 1] != 'g' && (s[|s| - 1] != 'r' || s[|s| - 2] != 'x')
    ensures !HasImageExtension(s)
  {
    assert forall e :: EndsWith(s, e) && |e| >= 2 ==> s[|s| - 1] == e[|e| - 1] && s[|s| - 2] == e[|e| - 2];
  }

  // ------------------------------------------------------------- next file

  datatype Error =
    | SplitOnEmptyName   // `f.split('')` raises ValueError
    | ExtensionUnbound   // an unknown format leaves `extension` unbound

  /** The number the next auto-save gets: one above the highest number
      among the counted entries. */
  function NextNumber(listing: seq<string>, blendname: string): (n: nat)
    requires blendname != [] || Candidates(listing, blendname) == []
    ensures n >= 1
    ensures forall f :: f in listing && IsCandidate(f, blendname) && SequenceNumber(f, blendname).Some? ==>
      SequenceNumber(f, blendname).value < n
  {
    var files := Candidates(listing, blendname);
    forall f | f in listing && IsCandidate(f, blendname) && SequenceNumber(f, blendname).Some?
      ensures SequenceNumber(f, blendname).value <= Highest(files, blendname)
    {
      assert f in files;
      var i :| 0 <= i < |files| && files[i] == f;
    }
    Highest(files, blendname) + 1
  }

  /** The file name of the next auto-save in a directory with the given
      listing, or the error the hook stops with: splitting on an empty
      blend name fails as soon as one entry counts, and an unknown format
      fails after that. */
  function NextFile(listing: seq<string>, blendname: string, format: string, frame: int): (r: Result<string, Error>)
    ensures r == Err(SplitOnEmptyName) <==> blendname == [] && Candidates(listing, blendname) != []
    ensures r == Err(ExtensionUnbound) <==>
      format !in KnownFormats && !(blendname == [] && Candidates(listing, blendname) != [])
    ensures r.Ok? ==> StartsWith(r.value, blendname) && EndsWith(r.value, ExtensionFor(format).value)
  {
    if blendname == [] && Candidates(listing, blendname) != [] then Err(SplitOnEmptyName)
    else match ExtensionFor(format)
      case None => Err(ExtensionUnbound)
      case Some(ext) =>
        var n := NextNumber(listing, blendname);
        ConcatEnds(blendname, NameStem(n, frame), ext);
        Ok(FileName(blendname, n, frame, ext))
  }

  /** Listings with the same names have the same counted names. */
  lemma SameCandidates(a: seq<string>, b: seq<string>, blendname: string)
    requires forall f :: f in a <==> f in b
    ensures forall f :: f in Candidates(a, blendname) <==> f in Candidates(b, blendname)
    ensures Candidates(a, blendname) == [] <==> Candidates(b, blendname) == []
  {
    var ca, cb := Candidates(a, blendname), Candidates(b, blendname);
    if ca != [] { assert ca[0] in cb; }
    if cb != [] { assert cb[0] in ca; }
  }

  /** The next number depends only on which names are listed, not on the
      order of the listing nor on repeated entries. */
  lemma NextNumberOrderIndependent(a: seq<string>, b: seq<string>, blendname: string)
    requires forall f :: f in a <==> f in b
    requires blendname != [] || Candidates(a, blendname) == []
    ensures blendname != [] || Candidates(b, blendname) == []
    ensures NextNumber(a, blendname) == NextNumber(b, blendname)
  {
    SameCandidates(a, b, blendname);
    HighestOrderIndependent(Candidates(a, blendname), Candidates(b, blendname), blendname);
  }

  /** So does the next file name, errors included. */
  lemma NextFileOrderIndependent(a: seq<string>, b: seq<string>, blendname: string, format: string, frame: int)
    requires forall f :: f in a <==> f in b
    ensures NextFile(a, blendname, format, frame) == NextFile(b, blendname, format, frame)
  {
    SameCandidates(a, b, blendname);
    if blendname != [] || Candidates(a, blendname) == [] {
      NextNumberOrderIndependent(a, b, blendname);
    }
  }

  /** Listing one more entry: the scan takes the larger of the old highest
      number and that entry's number. */
  lemma HighestAppend(files: seq<string>, f: string, blendname: string)
    requires blendname != []
    ensures Highest(files + [f], blendname) ==
      match SequenceNumber(f, blendname)
      case Some(n) => if n > Highest(files, blendname) then n else Highest(files, blendname)
      case None => Highest(files, blendname)
  {
    var ns := Numbers(files + [f], blendname);
    assert ns[..|files|] == Numbers(files, blendname);
    assert ns[|files|] == SequenceNumber(f, blendname);
  }

  /** An entry that counts and carries the next number is not listed yet;
      listing it moves the next number up by one. */
  lemma NextNumberAfterSave(listing: seq<string>, blendname: string, name: string)
    requires blendname != [] && IsCandidate(name, blendname)
    requires SequenceNumber(name, blendname) == Some(NextNumber(listing, blendname))
    ensures name !in listing
    ensures NextNumber(listing + [name], blendname) == NextNumber(listing, blendname) + 1
  {
    CandidatesAppend(listing, name, blendname);
    HighestAppend(Candidates(listing, blendname), name, blendname);
  }

  /** An entry that does not count leaves the next number alone. */
  lemma NextNumberIgnores(listing: seq<string>, blendname: string, name: string)
    requires !IsCandidate(name, blendname)
    ensures Candidates(listing + [name], blendname) == Candidates(listing, blendname)
  {
    CandidatesAppend(listing, name, blendname);
  }

  /** Round trip: once the produced file is listed, the scan finds its
      number, so the following save is numbered one higher. */
  lemma NextFileAfterSave(listing: seq<string>, blendname: string, format: string, frame: int, frame': int)
    requires blendname != [] && format in CountedFormats
    requires forall j :: !OccursAt(NameTail(NextNumber(listing, blendname), frame, ExtensionFor(format).value), blendname, j)
    ensures var ext := ExtensionFor(format).value;
      var n := NextNumber(listing, blendname);
      && NextFile(listing, blendname, format, frame) == Ok(FileName(blendname, n, frame, ext))
      && FileName(blendname, n, frame, ext) !in listing
      && NextFile(listing + [FileName(blendname, n, frame, ext)], blendname, format, frame')
         == Ok(FileName(blendname, n + 1, frame', ext))
  {
    var ext := ExtensionFor(format).value;
    var n := NextNumber(listing, blendname);
    var name := FileName(blendname, n, frame, ext);
    FileNameIsCandidate(blendname, n, frame, format);
    SequenceNumberOfFileName(blendname, n, frame, ext);
    NextNumberAfterSave(listing, blendname, name);
  }

  /** For a format the scan does not count, listing the produced file
      changes nothing: the next render of the same frame gets the same name
      and overwrites it. */
  lemma UncountedFormatRepeats(listing: seq<string>, blendname: string, format: string, frame: int)
    requires format in KnownFormats - CountedFormats
    requires NextFile(listing, blendname, format, frame).Ok?
    ensures var name := NextFile(listing, blendname, format, frame).value;
      NextFile(listing + [name], blendname, format, frame) == Ok(name)
  {
    var ext := ExtensionFor(format).value;
    var n := NextNumber(listing, blendname);
    var name := FileName(blendname, n, frame, ext);
    NextFileNamed(listing, blendname, format, ext, frame);
    FileNameIsCandidate(blendname, n, frame, format);
    NextNumberIgnores(listing, blendname, name);
    NextFileByCandidates(listing, listing + [name], blendname, format, frame);
  }

  /** The next file name depends on the listing only through the entries
      that count. */
  lemma NextFileByCandidates(a: seq<string>, b: seq<string>, blendname: string, format: string, frame: int)
    requires Candidates(a, blendname) == Candidates(b, blendname)
    ensures NextFile(a, blendname, format, frame) == NextFile(b, blendname, format, frame)
  {
  }

  /** A blend name that occurs again in the tail: for the document
      `f.blend`, the file `f_001-f7.png` splits on `f` into `""`,
      `"_001-"` and `"7.png"`, so the scan reads the frame 7, not the
      number 1. */
  lemma ShortNameReadsFrame()
    ensures SequenceNumber(['f', '_', '0', '0', '1', '-', 'f', '7', '.', 'p', 'n', 'g'], ['f']) == Some(7)
  {
    var u := ['7', '.', 'p', 'n', 'g'];
    ShortNameSplit();
    FirstDigitRunOfRun(['7'], u[1..]);
    assert ['7'] + u[1..] == u;
    assert ParseNat(['7']) == 7;
  }

  lemma ShortNameSplit()
    ensures SplitLast(['f', '_', '0', '0', '1', '-', 'f', '7', '.', 'p', 'n', 'g'], ['f']) == ['7', '.', 'p', 'n', 'g']
  {
    var s, sep := ['f', '_', '0', '0', '1', '-', 'f', '7', '.', 'p', 'n', 'g'], ['f'];
    assert OccursAt(s, sep, 0);
    assert FindFrom(s, sep, 0) == Some(0);
    var t := s[1..];
    assert t == ['_', '0', '0', '1', '-', 'f', '7', '.', 'p', 'n', 'g'];
    assert t[5..6] == sep;
    assert FindFrom(t, sep, 5) == Some(5);
    assert t[4..5] == [t[4]];
    assert FindFrom(t, sep, 4) == Some(5);
    assert t[3..4] == [t[3]];
    assert FindFrom(t, sep, 3) == Some(5);
    assert t[2..3] == [t[2]];
    assert FindFrom(t, sep, 2) == Some(5);
    assert t[1..2] == [t[1]];
    assert FindFrom(t, sep, 1) == Some(5);
    assert t[0..1] == [t[0]];
    assert FindFrom(t, sep, 0) == Some(5);
    var u := t[6..];
    assert u == ['7', '.', 'p', 'n', 'g'];
    forall j | 0 <= j < |u| ensures !OccursAt(u, sep, j) {
      assert u[j..j + 1] == [u[j]];
    }
    assert FindFrom(u, sep, 0) == None;
  }

  /** The example of the hook's header: after `Scene_001-f1.png` and
      `Scene_002-f5.png`, a PNG render of frame 9 is saved as
      `Scene_003-f9.png`. */
  lemma SceneExample()
    ensures NextFile(["Scene_001-f1.png", "Scene_002-f5.png"], "Scene", "PNG", 9) == Ok("Scene_003-f9.png")
  {
    SceneFileFree(1, 1);
    SceneFileFree(2, 5);
    TwoSaves("Scene", 1, 5, 9);
    SceneFileName(1, 1);
    SceneFileName(2, 5);
    SceneFileName(3, 9);
  }

  /** The name of a PNG auto-save of `Scene` with a one-digit number and
      frame. */
  lemma SceneFileName(n: nat, frame: nat)
    requires 0 < n < 10 && frame < 10
    ensures FileName("Scene", n, frame, ".png")
      == ['S', 'c', 'e', 'n', 'e', '_', '0', '0', DigitChar(n), '-', 'f', DigitChar(frame), '.', 'p', 'n', 'g']
  {
    NameTailOf(n, frame, ".png");
  }

  /** In such a name the blend name does not occur again after the
      leading one. */
  lemma SceneFileFree(n: nat, frame: nat)
    requires 0 < n < 10 && frame < 10
    ensures forall j :: !OccursAt(NameTail(n, frame, ".png"), "Scene", j)
  {
    NameTailOf(n, frame, ".png");
    var tail := NameTail(n, frame, ".png");
    assert 'S' !in tail;
    NoOccurrenceByChar(tail, "Scene", 0);
  }

  /** Two saves of a PNG render in an empty folder, then a third. */
  lemma TwoSaves(bn: string, f1: int, f2: int, f3: int)
    requires bn != []
    requires forall j :: !OccursAt(NameTail(1, f1, ".png"), bn, j)
    requires forall j :: !OccursAt(NameTail(2, f2, ".png"), bn, j)
    ensures NextFile([FileName(bn, 1, f1, ".png"), FileName(bn, 2, f2, ".png")], bn, "PNG", f3)
      == Ok(FileName(bn, 3, f3, ".png"))
  {
    var first, second := FileName(bn, 1, f1, ".png"), FileName(bn, 2, f2, ".png");
    PngSaveCounts(bn, 1, f1);
    PngSaveCounts(bn, 2, f2);
    NumberAfterTwo(bn, first, second);
    NextFileNamed([first, second], bn, "PNG", ".png", f3);
  }

  /** Two counted entries numbered 1 and 2 give the next number 3. */
  lemma NumberAfterTwo(bn: string, first: string, second: string)
    requires bn != [] && IsCandidate(first, bn) && IsCandidate(second, bn)
    requires SequenceNumber(first, bn) == Some(1) && SequenceNumber(second, bn) == Some(2)
    ensures NextNumber([first, second], bn) == 3
  {
    NumberAfterOneMore(bn, first, second);
    PairConcat(first, second);
  }

  lemma PairConcat<T>(a: T, b: T)
    ensures [a] + [b] == [a, b]
  {
  }

  lemma NumberAfterOneMore(bn: string, first: string, second: string)
    requires bn != [] && IsCandidate(first, bn) && IsCandidate(second, bn)
    requires SequenceNumber(first, bn) == Some(1) && SequenceNumber(second, bn) == Some(2)
    ensures NextNumber([first] + [second], bn) == 3
  {
    NumberAfterOne(bn, first);
    NextNumberAfterSave([first], bn, second);
  }

  /** One counted entry numbered 1 gives the next number 2. */
  lemma NumberAfterOne(bn: string, first: string)
    requires bn != [] && IsCandidate(first, bn) && SequenceNumber(first, bn) == Some(1)
    ensures NextNumber([first], bn) == 2
  {
    var none: seq<string> := [];
    assert NextNumber(none, bn) == 1 by { assert Candidates(none, bn) == []; }
    NextNumberAfterSave(none, bn, first);
    assert none + [first] == [first];
  }

  /** When the split cannot fail and the format is known, the hook names
      the file with the next number. */
  lemma NextFileNamed(listing: seq<string>, bn: string, format: string, ext: string, frame: int)
    requires bn != [] || Candidates(listing, bn) == []
    requires ExtensionFor(format) == Some(ext)
    ensures NextFile(listing, bn, format, frame) == Ok(FileName(bn, NextNumber(listing, bn), frame, ext))
  {
  }

  /** A saved PNG file counts, with the number it was saved under. */
  lemma PngSaveCounts(bn: string, n: nat, frame: int)
    requires bn != []
    requires forall j :: !OccursAt(NameTail(n, frame, ".png"), bn, j)
    ensures IsCandidate(FileName(bn, n, frame, ".png"), bn)
    ensures SequenceNumber(FileName(bn, n, frame, ".png"), bn) == Some(n)
  {
    assert ExtensionFor("PNG") == Some(".png");
    FileNameIsCandidate(bn, n, frame, "PNG");
    SequenceNumberOfFileName(bn, n, frame, ".png");
  }

  /** The tail of a file name for a one-digit number and a one-digit frame. */
  lemma NameTailOf(n: nat, frame: nat, ext: string)
    requires 0 < n < 10 && frame < 10
    ensures NameTail(n, frame, ext) == ['_', '0', '0', DigitChar(n), '-', 'f', DigitChar(frame)] + ext
  {
    var d := [DigitChar(n)];
    assert NatToString(n) == d;
    assert ZFill(d, 3) == Zeros(2) + d;
    assert Zeros(2) == "00";
    assert IntToString(frame) == [DigitChar(frame)];
  }
}
