/** The upload filter and naming rule (server/uploadMiddleware.js): a file is
    accepted when both its lower-cased extension and its MIME type contain
    one of the image type names, and it is stored under
    `fieldname-timestamp.ext`. The extension is that of POSIX `path.extname`. */
module UploadMiddleware {
  import opened Tables
  import opened Decimal

  /** The configured `limits.fileSize`, in bytes. */
  const MaxFileSize := 5000000

  /** The alternatives of the pattern `/jpeg|jpg|png|gif/`. */
  const ImageTypes: seq<string> := ["jpeg", "jpg", "png", "gif"]

  const FileTypeError := "Error: Images only (JPEG, PNG, GIF)!"

  /** The outcome the filter hands to multer's callback. */
  datatype FilterResult = Accept | Reject(error: string)

  // ---------------------------------------------------------------------------
  // Substring search (the unanchored regular-expression test)
  // ---------------------------------------------------------------------------

  /** `t` occurs in `s` starting at index `i`. */
  predicate OccursAt(s: string, t: string, i: int)
  {
    0 <= i && i + |t| <= |s| && forall j :: 0 <= j < |t| ==> s[i + j] == t[j]
  }

  /** `t` occurs somewhere in `s`. */
  predicate Contains(s: string, t: string)
  {
    exists i :: 0 <= i <= |s| && OccursAt(s, t, i)
  }

  /** Scans `s` from index `from` for an occurrence of `t`. */
  function SearchFrom(s: string, t: string, from: nat): (found: bool)
    requires from <= |s| + 1
    ensures found <==> exists i :: from <= i && OccursAt(s, t, i)
    decreases |s| + 1 - from
  {
    if from + |t| > |s| then
      assert forall i :: from <= i ==> !OccursAt(s, t, i);
      false
    else if s[from..from + |t|] == t then
      assert OccursAt(s, t, from) by {
        forall j | 0 <= j < |t| ensures s[from + j] == t[j] {
          assert s[from..from + |t|][j] == s[from + j];
        }
      }
      true
    else
      var rest := SearchFrom(s, t, from + 1);
      assert !OccursAt(s, t, from) by {
        var j :| 0 <= j < |t| && s[from..from + |t|][j] != t[j];
      }
      rest
  }

  /** `RegExp.prototype.test` for a pattern of plain alternatives. */
  function Test(alternatives: seq<string>, s: string): (matched: bool)
    ensures matched <==> exists k :: 0 <= k < |alternatives| && Contains(s, alternatives[k])
  {
    if alternatives == [] then false
    else
      var here := SearchFrom(s, alternatives[0], 0);
      var rest := Test(alternatives[1..], s);
      assert forall k :: 1 <= k < |alternatives| ==> alternatives[k] == alternatives[1..][k - 1];
      here || rest
  }

  // ---------------------------------------------------------------------------
  // Case folding
  // ---------------------------------------------------------------------------

  predicate IsUpper(c: char)
  {
    'A' <= c <= 'Z'
  }

  function LowerChar(c: char): (d: char)
    ensures IsUpper(c) ==> d as int == c as int + 32
    ensures !IsUpper(c) ==> d == c
  {
    if IsUpper(c) then (c as int + 32) as char else c
  }

  /** `String.prototype.toLowerCase` on ASCII letters. */
  function ToLower(s: string): (r: string)
    ensures |r| == |s|
    ensures forall i :: 0 <= i < |s| ==> r[i] == LowerChar(s[i])
    ensures forall i :: 0 <= i < |r| ==> !IsUpper(r[i])
  {
    if s == [] then [] else [LowerChar(s[0])] + ToLower(s[1..])
  }

  // ---------------------------------------------------------------------------
  // path.extname (POSIX)
  // ---------------------------------------------------------------------------

  /** The path without its trailing slashes. */
  function TrimSlashes(p: string): (r: string)
    ensures |r| <= |p| && forall i :: 0 <= i < |r| ==> r[i] == p[i]
    ensures r == [] || r[|r| - 1] != '/'
    ensures forall i :: |r| <= i < |p| ==> p[i] == '/'
  {
    if p != [] && p[|p| - 1] == '/' then TrimSlashes(p[..|p| - 1]) else p
  }

  /** The last component of a path: the longest suffix without a slash. */
  function Basename(p: string): (b: string)
    ensures |b| <= |p| && forall i :: 0 <= i < |b| ==> b[i] == p[|p| - |b| + i]
    ensures forall i :: 0 <= i < |b| ==> b[i] != '/'
    ensures |b| < |p| ==> p[|p| - |b| - 1] == '/'
  {
    if p == [] || p[|p| - 1] == '/' then []
    else Basename(p[..|p| - 1]) + [p[|p| - 1]]
  }

  /** The index of the last '.' in `s`. */
  function LastDot(s: string): (k: Option<nat>)
    ensures k.None? <==> forall i :: 0 <= i < |s| ==> s[i] != '.'
    ensures k.Some? ==> k.value < |s| && s[k.value] == '.' && forall i :: k.value < i < |s| ==> s[i] != '.'
  {
    if s == [] then None
    else if s[|s| - 1] == '.' then Some(|s| - 1)
    else LastDot(s[..|s| - 1])
  }

  /** The last component is "..", the parent directory. */
  predicate IsParent(b: string)
  {
    |b| == 2 && b[0] == '.' && b[1] == '.'
  }

  /** The extension of a last component `b`: from its last '.' to its end;
      empty when it has no '.', when its last '.' is its first character
      (".profile"), or when it is "..". */
  function BaseExtension(b: string): (ext: string)
    requires forall i :: 0 <= i < |b| ==> b[i] != '/'
    ensures IsExtension(ext)
    ensures ext != [] <==> LastDot(b).Some? && LastDot(b).value > 0 && !IsParent(b)
    ensures ext != [] ==> |ext| < |b| && forall i :: 0 <= i < |ext| ==> ext[i] == b[|b| - |ext| + i]
  {
    var dot := LastDot(b);
    if dot.None? || dot.value == 0 || IsParent(b) then []
    else
      var ext := b[dot.value..];
      assert forall i :: 0 <= i < |ext| ==> ext[i] == b[dot.value + i];
      ext
  }

  /** `path.extname`: the extension of the last component once trailing
      slashes are removed. */
  function ExtName(path: string): (ext: string)
    ensures IsExtension(ext)
  {
    BaseExtension(Basename(TrimSlashes(path)))
  }

  // ---------------------------------------------------------------------------
  // The filter and the stored name
  // ---------------------------------------------------------------------------

  /** `checkFileType(file, cb)`. */
  function CheckFileType(originalname: string, mimetype: string): (r: FilterResult)
    ensures r.Accept? <==>
      (exists k :: 0 <= k < |ImageTypes| && Contains(ToLower(ExtName(originalname)), ImageTypes[k])) &&
      (exists k :: 0 <= k < |ImageTypes| && Contains(mimetype, ImageTypes[k]))
    ensures r.Reject? ==> r.error == FileTypeError
  {
    var extOk := Test(ImageTypes, ToLower(ExtName(originalname)));
    var mimeOk := Test(ImageTypes, mimetype);
    if mimeOk && extOk then Accept else Reject(FileTypeError)
  }

  /** The name the disk storage gives an upload: `fieldname-<ms>.ext`. */
  function StoredFilename(fieldname: string, now: nat, originalname: string): (name: string)
    ensures |name| > |fieldname| + 1 + |ExtName(originalname)|
    ensures name[..|fieldname| + 1] == fieldname + "-"
    ensures name[|name| - |ExtName(originalname)|..] == ExtName(originalname)
    ensures var digits := name[|fieldname| + 1..|name| - |ExtName(originalname)|];
      digits == NatToString(now) && ParseNat(digits) == now
  {
    var name := fieldname + "-" + NatToString(now) + ExtName(originalname);
    assert name[|fieldname| + 1..|name| - |ExtName(originalname)|] == NatToString(now);
    ParseNatToString(now);
    name
  }

  /** An accepted file has an extension, and it is an image type once lower-cased. */
  lemma AcceptedHasImageExtension(originalname: string, mimetype: string)
    requires CheckFileType(originalname, mimetype).Accept?
    ensures ExtName(originalname) != [] && ExtName(originalname)[0] == '.'
  {
  }

  /** An extension as `path.extname` returns it: empty, or a '.' followed by
      characters that are neither '.' nor '/'. */
  predicate IsExtension(ext: string)
  {
    ext == [] || (ext[0] == '.' && forall i :: 0 <= i < |ext| ==> ext[i] != '/' && (i > 0 ==> ext[i] != '.'))
  }

  /** A path without a trailing slash is its own trimmed form. */
  lemma TrimNothing(p: string)
    requires p == [] || p[|p| - 1] != '/'
    ensures TrimSlashes(p) == p
  {
  }

  /** A path without a slash is its own last component. */
  lemma BasenameWhole(p: string)
    requires forall i :: 0 <= i < |p| ==> p[i] != '/'
    ensures Basename(p) == p
  {
  }

  /** Appending characters other than '/' extends the last component. */
  lemma {:induction false} BasenameAppend(p: string, t: string)
    requires forall i :: 0 <= i < |t| ==> t[i] != '/'
    ensures Basename(p + t) == Basename(p) + t
    decreases |t|
  {
    if t != [] {
      var init, last := t[..|t| - 1], t[|t| - 1];
      var q := p + t;
      assert q[..|q| - 1] == p + init;
      assert q[|q| - 1] == last && last != '/';
      assert Basename(q) == Basename(p + init) + [last];
      BasenameAppend(p, init);
      assert t == init + [last];
    } else {
      assert p + t == p;
    }
  }

  /** Appending characters other than '.' leaves the last '.' where it was. */
  lemma {:induction false} LastDotAppend(s: string, t: string)
    requires forall i :: 0 <= i < |t| ==> t[i] != '.'
    ensures LastDot(s + t) == LastDot(s)
    decreases |t|
  {
    if t != [] {
      var init, last := t[..|t| - 1], t[|t| - 1];
      var q := s + t;
      assert q[..|q| - 1] == s + init;
      assert q[|q| - 1] == last && last != '.';
      assert LastDot(q) == LastDot(s + init);
      LastDotAppend(s, init);
    } else {
      assert s + t == s;
    }
  }

  /** A last component ending in a well-formed extension after a character
      other than '.' has that extension; one without any '.' has none. */
  lemma BaseExtensionOfSuffix(stem: string, ext: string)
    requires |stem| > 0 && stem[|stem| - 1] != '.'
    requires forall i :: 0 <= i < |stem| ==> stem[i] != '/'
    requires IsExtension(ext)
    requires ext == [] ==> forall i :: 0 <= i < |stem| ==> stem[i] != '.'
    ensures BaseExtension(stem + ext) == ext
  {
    var b := stem + ext;
    assert forall i :: 0 <= i < |b| ==> b[i] != '/' by {
      assert forall i :: |stem| <= i < |b| ==> b[i] == ext[i - |stem|];
    }
    if ext == [] {
      assert b == stem;
    } else {
      var tail := ext[1..];
      assert b == (stem + ".") + tail;
      LastDotAppend(stem + ".", tail);
      assert LastDot(b) == Some(|stem|);
      assert b[|stem| - 1] != '.';
      assert b[|stem|..] == ext;
    }
  }

  /** Whatever stands before it, a name ending in a well-formed extension after
      a character that is neither '/' nor '.' has that extension; and a name
      without any '.' has none. */
  lemma ExtNameOfSuffix(head: string, ext: string)
    requires |head| > 0 && head[|head| - 1] != '/' && head[|head| - 1] != '.'
    requires IsExtension(ext)
    requires ext == [] ==> forall i :: 0 <= i < |head| ==> head[i] != '.'
    ensures ExtName(head + ext) == ext
  {
    var name := head + ext;
    assert name[|name| - 1] != '/' by {
      if ext == [] {
        assert name[|name| - 1] == head[|head| - 1];
      } else {
        assert name[|name| - 1] == ext[|ext| - 1];
      }
    }
    TrimNothing(name);
    BasenameAppend(head, ext);
    var stem := Basename(head);
    assert |stem| > 0 && stem[|stem| - 1] == head[|head| - 1];
    assert forall i :: 0 <= i < |stem| ==> stem[i] == head[|head| - |stem| + i];
    BaseExtensionOfSuffix(stem, ext);
  }

  /** The stored name keeps the original's extension, so the file is saved
      with the extension it was checked under. */
  lemma StoredNameKeepsExtension(fieldname: string, now: nat, originalname: string)
    requires forall i :: 0 <= i < |fieldname| ==> fieldname[i] != '.'
    ensures ExtName(StoredFilename(fieldname, now, originalname)) == ExtName(originalname)
  {
    var digits := NatToString(now);
    var head := fieldname + "-" + digits;
    assert head[|head| - 1] == digits[|digits| - 1];
    forall i | 0 <= i < |head| ensures head[i] != '.' {
      if i < |fieldname| {
        assert head[i] == fieldname[i];
      } else if i > |fieldname| {
        assert head[i] == digits[i - |fieldname| - 1];
      }
    }
    ExtNameOfSuffix(head, ExtName(originalname));
    assert StoredFilename(fieldname, now, originalname) == head + ExtName(originalname);
  }

  /** A name ending in a well-formed extension is accepted exactly when the
      lower-cased extension and the MIME type each contain an image type name
      anywhere: the pattern is not anchored at either end. */
  lemma SuffixChecked(stem: string, ext: string, mimetype: string)
    requires |stem| > 0 && stem[|stem| - 1] != '/' && stem[|stem| - 1] != '.'
    requires IsExtension(ext) && ext != []
    ensures CheckFileType(stem + ext, mimetype).Accept? <==>
      (exists k :: 0 <= k < |ImageTypes| && Contains(ToLower(ext), ImageTypes[k])) &&
      (exists k :: 0 <= k < |ImageTypes| && Contains(mimetype, ImageTypes[k]))
  {
    ExtNameOfSuffix(stem, ext);
  }

  /** "png" occurs in the MIME type "image/png". */
  lemma PngMime()
    ensures Contains("image/png", ImageTypes[2])
  {
    assert OccursAt("image/png", ImageTypes[2], 6);
  }

  /** ".pngx" is a well-formed extension in which "png" occurs. */
  lemma PngxHasPng()
    ensures IsExtension(".pngx") && Contains(ToLower(".pngx"), ImageTypes[2])
  {
    var lowered := ToLower(".pngx");
    assert lowered[1] == 'p' && lowered[2] == 'n' && lowered[3] == 'g';
    assert OccursAt(lowered, ImageTypes[2], 1);
  }

  /** The pattern is unanchored: an image name whose extension merely contains
      "png" (".pngx") passes. */
  lemma UnanchoredExtension(stem: string)
    requires |stem| > 0 && stem[|stem| - 1] != '/' && stem[|stem| - 1] != '.'
    ensures CheckFileType(stem + ".pngx", "image/png") == Accept
  {
    PngxHasPng();
    PngMime();
    SuffixChecked(stem, ".pngx", "image/png");
  }

  /** No image type name occurs in a string without lower-case letters. */
  lemma NoImageTypeInUpperCase(s: string)
    requires forall i :: 0 <= i < |s| ==> !('a' <= s[i] <= 'z')
    ensures forall k :: 0 <= k < |ImageTypes| ==> !Contains(s, ImageTypes[k])
  {
    forall k, i | 0 <= k < |ImageTypes| && 0 <= i <= |s| ensures !OccursAt(s, ImageTypes[k], i) {
      var c := ImageTypes[k][0];
      assert 'a' <= c <= 'z';
    }
  }

  /** ".PNG" is a well-formed extension in which "png" occurs once lower-cased. */
  lemma UpperPngHasPng()
    ensures IsExtension(".PNG") && Contains(ToLower(".PNG"), ImageTypes[2])
  {
    var lowered := ToLower(".PNG");
    assert lowered[1] == 'p' && lowered[2] == 'n' && lowered[3] == 'g';
    assert OccursAt(lowered, ImageTypes[2], 1);
  }

  /** Case folding applies to the extension: an upper-case ".PNG" passes. */
  lemma UpperCaseExtensionAccepted(stem: string)
    requires |stem| > 0 && stem[|stem| - 1] != '/' && stem[|stem| - 1] != '.'
    ensures CheckFileType(stem + ".PNG", "image/png") == Accept
  {
    UpperPngHasPng();
    PngMime();
    SuffixChecked(stem, ".PNG", "image/png");
  }

  /** The MIME type is not case folded: one without lower-case letters
      ("IMAGE/PNG") is refused whatever the name. */
  lemma UpperCaseMimeRefused(originalname: string, mimetype: string)
    requires forall i :: 0 <= i < |mimetype| ==> !('a' <= mimetype[i] <= 'z')
    ensures CheckFileType(originalname, mimetype) == Reject(FileTypeError)
  {
    NoImageTypeInUpperCase(mimetype);
  }

  /** A name whose only '.' leads it (".png") has no extension. */
  lemma DotFileHasNoExtension(name: string)
    requires |name| > 0 && name[0] == '.'
    requires forall i :: 0 < i < |name| ==> name[i] != '.' && name[i] != '/'
    ensures ExtName(name) == []
  {
    TrimNothing(name);
    BasenameWhole(name);
    var dot := LastDot(name);
    assert dot.Some? && dot.value == 0 by {
      assert name[0] == '.';
    }
    assert BaseExtension(name) == [];
  }

  /** Such a name is refused whatever its MIME type. */
  lemma DotFileRefused(name: string, mimetype: string)
    requires |name| > 0 && name[0] == '.'
    requires forall i :: 0 < i < |name| ==> name[i] != '.' && name[i] != '/'
    ensures CheckFileType(name, mimetype) == Reject(FileTypeError)
  {
    DotFileHasNoExtension(name);
    NoImageTypeInUpperCase(ToLower([]));
  }
}
