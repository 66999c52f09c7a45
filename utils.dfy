/**
 * The upload-name validator of app/utils.py.
 *
 * A file name is accepted when its final extension, lower-cased, is one of
 * four spreadsheet/data extensions. The extension is found with the POSIX
 * `os.path.splitext` rule: the suffix starting at the last '.' of the final
 * path component, where leading dots of that component do not start an
 * extension. The sanitiser (werkzeug's `secure_filename`) is a parameter about
 * which nothing is assumed, and the save is recorded as the list of paths
 * written.
 */
module Utils {
  import opened Wrappers

  /** The extensions an upload may carry. */
  const AllowedExtensions: set<string> := {".csv", ".xlsx", ".xls", ".json"}

  /** Index of the last occurrence of `c` in s[..n], or -1 when there is none. */
  function RFindBefore(s: string, c: char, n: nat): (i: int)
    requires n <= |s|
    ensures -1 <= i < n
    ensures 0 <= i ==> s[i] == c
    ensures forall k :: i < k < n ==> s[k] != c
  {
    if n == 0 then -1
    else if s[n - 1] == c then n - 1
    else RFindBefore(s, c, n - 1)
  }

  /** `str.rfind`: index of the last occurrence of `c` in `s`, or -1 when there is none. */
  function RFind(s: string, c: char): (i: int)
    ensures -1 <= i < |s|
    ensures 0 <= i ==> s[i] == c
    ensures forall k :: i < k < |s| ==> s[k] != c
  {
    RFindBefore(s, c, |s|)
  }

  /** Some character of s[lo..hi] is not a dot. */
  predicate HasNonDot(s: string, lo: int, hi: int)
    requires 0 <= lo <= hi <= |s|
  {
    exists k :: lo <= k < hi && s[k] != '.'
  }

  /**
   * `os.path.splitext` on POSIX: the root and the extension. The extension is
   * empty, or it is a dot followed by characters that are neither dots nor
   * path separators.
   */
  function SplitExt(p: string): (r: (string, string))
    ensures r.0 + r.1 == p
    ensures r.1 == [] || r.1[0] == '.'
    ensures forall k :: 0 < k < |r.1| ==> r.1[k] != '.' && r.1[k] != '/'
  {
    var sep := RFind(p, '/');
    var dot := RFind(p, '.');
    if sep < dot && HasNonDot(p, sep + 1, dot) then (p[..dot], p[dot..]) else (p, [])
  }

  function Extension(p: string): string {
    SplitExt(p).1
  }

  /** No character after position i is a dot or a separator. */
  predicate PlainAfter(p: string, i: int) {
    forall k :: 0 <= k < |p| && i < k ==> p[k] != '.' && p[k] != '/'
  }

  /** p[j] is a character other than a dot, in the same path component as position i. */
  predicate NonDotBefore(p: string, j: int, i: int) {
    && 0 <= j < i <= |p|
    && p[j] != '.' && p[j] != '/'
    && forall k :: j < k < i ==> p[k] != '/'
  }

  /**
   * Reference definition of where an extension starts: position i holds a
   * dot, no dot or separator follows it, and before it, in the same path
   * component, stands a character that is not a dot.
   */
  ghost predicate IsExtensionStart(p: string, i: int) {
    && 0 <= i < |p|
    && p[i] == '.'
    && PlainAfter(p, i)
    && exists j :: NonDotBefore(p, j, i)
  }

  /** ASCII lower-casing of one character. */
  function LowerChar(ch: char): char {
    if 'A' <= ch <= 'Z' then (ch as int + 32) as char else ch
  }

  /** ASCII upper-casing of one character. */
  function UpperChar(ch: char): char {
    if 'a' <= ch <= 'z' then (ch as int - 32) as char else ch
  }

  /** `str.lower()` restricted to ASCII letters. */
  function Lower(s: string): string {
    seq(|s|, i requires 0 <= i < |s| => LowerChar(s[i]))
  }

  /** `str.upper()` restricted to ASCII letters. */
  function Upper(s: string): string {
    seq(|s|, i requires 0 <= i < |s| => UpperChar(s[i]))
  }

  /** `allowed_file`: the lower-cased final extension is an allowed one. */
  predicate AllowedFile(filename: string) {
    Lower(Extension(filename)) in AllowedExtensions
  }

  /** The upload object of a request; it is truthy exactly when its name is non-empty. */
  datatype FileStorage = FileStorage(filename: string)

  predicate Truthy(file: Option<FileStorage>) {
    file.Some? && file.value.filename != ""
  }

  /** `os.path.join(folder, name)` on POSIX, for two arguments. */
  function Join(folder: string, name: string): (r: string)
    ensures |name| > 0 && name[0] == '/' ==> r == name
    ensures !(|name| > 0 && name[0] == '/') ==>
      && |r| == |folder| + |name| + (if folder == [] || folder[|folder| - 1] == '/' then 0 else 1)
      && r[..|folder|] == folder
      && r[|r| - |name|..] == name
      && (|r| > |folder| + |name| ==> r[|folder|] == '/')
  {
    if |name| > 0 && name[0] == '/' then name
    else if folder == [] || folder[|folder| - 1] == '/' then folder + name
    else folder + "/" + name
  }

  /**
   * What one call of `save_and_get_path` does: the paths `file.save` was
   * called with, and the returned (path, extension) pair, None for None.
   */
  datatype SaveOutcome = SaveOutcome(written: seq<string>, path: Option<string>, ext: Option<string>)

  /** `save_and_get_path(file, upload_folder)` with `secure_filename` as a parameter. */
  function SaveAndGetPath(file: Option<FileStorage>, uploadFolder: string,
                          secureFilename: string -> string): (r: SaveOutcome)
    ensures r.path.None? <==> r.ext.None?
    ensures r.path.Some? <==> Truthy(file) && AllowedFile(file.value.filename)
    ensures r.path.None? ==> r.written == []
    ensures r.path.Some? ==>
      var name := secureFilename(file.value.filename);
      && r.written == [r.path.value]
      && r.path.value == Join(uploadFolder, name)
      && r.ext.value == Lower(Extension(name))
  {
    if Truthy(file) && AllowedFile(file.value.filename) then
      var name := secureFilename(file.value.filename);
      var path := Join(uploadFolder, name);
      SaveOutcome([path], Some(path), Some(Lower(Extension(name))))
    else
      SaveOutcome([], None, None)
  }

  // ---------------------------------------------------------------------
  // The extension rule
  // ---------------------------------------------------------------------

  /** Where the reference definition finds a start, the extension is the suffix from there. */
  lemma ExtensionFromStart(p: string, i: int)
    requires IsExtensionStart(p, i)
    ensures Extension(p) == p[i..]
  {
    var sep := RFind(p, '/');
    var dot := RFind(p, '.');
    assert dot == i;
    var j :| NonDotBefore(p, j, i);
    assert sep < j;
    assert HasNonDot(p, sep + 1, dot);
  }

  /** A non-empty extension starts where the reference definition says. */
  lemma StartOfExtension(p: string)
    requires Extension(p) != []
    ensures IsExtensionStart(p, |p| - |Extension(p)|)
  {
    var sep := RFind(p, '/');
    var dot := RFind(p, '.');
    assert sep < dot && HasNonDot(p, sep + 1, dot);
    var j :| sep + 1 <= j < dot && p[j] != '.';
    assert NonDotBefore(p, j, dot);
  }

  /** The extension is non-empty exactly when the reference definition finds a start, and then it is the suffix from there. */
  lemma ExtensionCharacterized(p: string)
    ensures Extension(p) != [] <==> exists i :: IsExtensionStart(p, i)
    ensures forall i :: IsExtensionStart(p, i) ==> Extension(p) == p[i..]
  {
    forall i | IsExtensionStart(p, i) ensures Extension(p) == p[i..] {
      ExtensionFromStart(p, i);
    }
    if Extension(p) != [] {
      StartOfExtension(p);
    }
  }

  /** `allowed_file` accepts exactly the names whose extension, by the reference definition, lower-cases to an allowed one. */
  lemma AllowedFileIff(filename: string)
    ensures AllowedFile(filename) <==>
      exists i :: IsExtensionStart(filename, i) && Lower(filename[i..]) in AllowedExtensions
  {
    ExtensionCharacterized(filename);
    if Extension(filename) == [] {
      assert Lower(Extension(filename)) == "";
    }
  }

  /** Only the last extension counts: whatever the stem, appending an extension makes it the extension. */
  lemma {:induction false} ExtensionOfAppend(stem: string, ext: string, j: nat)
    requires |ext| > 0 && ext[0] == '.'
    requires forall k :: 0 < k < |ext| ==> ext[k] != '.' && ext[k] != '/'
    requires j < |stem| && stem[j] != '.' && stem[j] != '/'
    requires forall k :: j < k < |stem| ==> stem[k] != '/'
    ensures Extension(stem + ext) == ext
  {
    var p := stem + ext;
    assert forall k :: |stem| < k < |p| ==> p[k] == ext[k - |stem|];
    assert NonDotBefore(p, j, |stem|);
    ExtensionFromStart(p, |stem|);
  }

  /** A final component made of leading dots and then no dot has no extension, and is rejected. */
  lemma {:induction false} LeadingDotsGiveNoExtension(prefix: string, dots: string, rest: string)
    requires forall k :: 0 <= k < |dots| ==> dots[k] == '.'
    requires forall k :: 0 <= k < |rest| ==> rest[k] != '.' && rest[k] != '/'
    requires prefix == [] || prefix[|prefix| - 1] == '/'
    ensures Extension(prefix + dots + rest) == []
    ensures !AllowedFile(prefix + dots + rest)
  {
    var p := prefix + dots + rest;
    var sep, dot := RFind(p, '/'), RFind(p, '.');
    if prefix != [] {
      assert p[|prefix| - 1] == '/';
    }
    if sep < dot {
      assert forall k :: |prefix| + |dots| <= k < |p| ==> p[k] == rest[k - |prefix| - |dots|];
      forall k | sep + 1 <= k < dot ensures p[k] == '.' {
        assert p[k] == dots[k - |prefix|];
      }
    }
    assert Lower([]) == "";
  }

  /** A final component with no dot has no extension, and is rejected. */
  lemma DotlessFinalComponentRejected(p: string)
    requires forall k :: RFind(p, '/') < k < |p| ==> p[k] != '.'
    ensures Extension(p) == []
    ensures !AllowedFile(p)
  {
    assert Lower([]) == "";
  }

  /** Positions of dots and separators agree. */
  ghost predicate SameShape(a: string, b: string) {
    && |a| == |b|
    && forall k :: 0 <= k < |a| ==> (a[k] == '.' <==> b[k] == '.') && (a[k] == '/' <==> b[k] == '/')
  }

  lemma ExtensionStartSameShape(a: string, b: string, i: int)
    requires SameShape(a, b)
    requires IsExtensionStart(a, i)
    ensures IsExtensionStart(b, i)
  {
    var j :| NonDotBefore(a, j, i);
    assert NonDotBefore(b, j, i);
  }

  lemma NonEmptyExtensionSameShape(a: string, b: string)
    requires SameShape(a, b)
    requires Extension(a) != []
    ensures |Extension(a)| == |Extension(b)|
  {
    var i := |a| - |Extension(a)|;
    StartOfExtension(a);
    ExtensionStartSameShape(a, b, i);
    ExtensionFromStart(b, i);
  }

  /** Two names with dots and separators in the same places have extensions of the same length. */
  lemma ExtensionSameShape(a: string, b: string)
    requires SameShape(a, b)
    ensures |Extension(a)| == |Extension(b)|
  {
    if Extension(a) != [] {
      NonEmptyExtensionSameShape(a, b);
    } else if Extension(b) != [] {
      NonEmptyExtensionSameShape(b, a);
    }
  }

  /** `allowed_file` is case-insensitive: names equal up to ASCII case get the same verdict. */
  lemma AllowedFileIgnoresCase(a: string, b: string)
    requires Lower(a) == Lower(b)
    ensures AllowedFile(a) == AllowedFile(b)
  {
    forall k | 0 <= k < |a| ensures (a[k] == '.' <==> b[k] == '.') && (a[k] == '/' <==> b[k] == '/') {
      assert Lower(a)[k] == Lower(b)[k];
    }
    ExtensionSameShape(a, b);
    var n := |Extension(a)|;
    var ea, eb := Extension(a), Extension(b);
    assert a == SplitExt(a).0 + ea && b == SplitExt(b).0 + eb;
    assert ea == a[|a| - n..] && eb == b[|b| - n..];
    assert Lower(ea) == Lower(b)[|b| - n..] == Lower(eb);
  }

  /** A name and its upper-cased variant get the same verdict. */
  lemma AllowedFileUpper(filename: string)
    ensures AllowedFile(Upper(filename)) == AllowedFile(filename)
  {
    assert Lower(Upper(filename)) == Lower(filename);
    AllowedFileIgnoresCase(Upper(filename), filename);
  }

  /** `data.csv` is accepted. */
  lemma CsvAccepted()
    ensures AllowedFile("data.csv")
  {
    ExtensionOfAppend("data", ".csv", 0);
    assert "data" + ".csv" == "data.csv";
    assert Lower(".csv") == ".csv";
  }

  /** `data.csv` is accepted, and so is its upper-cased variant `DATA.CSV`. */
  lemma CsvAcceptedInAnyCase()
    ensures AllowedFile("data.csv") && AllowedFile("DATA.CSV")
  {
    CsvAccepted();
    ExtensionOfAppend("DATA", ".CSV", 0);
    assert "DATA" + ".CSV" == "DATA.CSV";
    assert Lower(".CSV") == ".csv";
  }

  /** Only the last extension counts. */
  lemma LastExtensionDecides()
    ensures AllowedFile("backup.txt.csv") && !AllowedFile("report.csv.exe")
  {
    ExtensionOfAppend("backup.txt", ".csv", 0);
    assert "backup.txt" + ".csv" == "backup.txt.csv";
    assert Lower(".csv") == ".csv";
    ExtensionOfAppend("report.csv", ".exe", 0);
    assert "report.csv" + ".exe" == "report.csv.exe";
    assert Lower(".exe") == ".exe";
  }

  /** A name without a dot, and a name made of a leading dot and a word, have no extension. */
  lemma NamesWithoutExtensionRejected()
    ensures !AllowedFile("data") && !AllowedFile(".csv")
  {
    DotlessFinalComponentRejected("data");
    LeadingDotsGiveNoExtension([], ".", "csv");
    assert [] + "." + "csv" == ".csv";
  }

  // ---------------------------------------------------------------------
  // Paths
  // ---------------------------------------------------------------------

  /** An extension start in `dir + name` is one in `name`, shifted by the length of `dir`. */
  lemma StartInPathIsStartInName(dir: string, name: string, i: int)
    requires dir == [] || dir[|dir| - 1] == '/'
    requires IsExtensionStart(dir + name, i)
    ensures |dir| <= i && IsExtensionStart(name, i - |dir|)
  {
    var p := dir + name;
    var n := |dir|;
    var j :| NonDotBefore(p, j, i);
    assert n <= j by {
      if dir != [] {
        assert p[n - 1] == '/';
      }
    }
    assert NonDotBefore(name, j - n, i - n) by {
      assert forall k :: j - n <= k < i - n ==> name[k] == p[k + n];
    }
    assert PlainAfter(name, i - n) by {
      assert forall k :: i - n < k < |name| ==> name[k] == p[k + n];
    }
  }

  /** An extension start in a name without separators is one in `dir + name`. */
  lemma StartInNameIsStartInPath(dir: string, name: string, i: int)
    requires forall k :: 0 <= k < |name| ==> name[k] != '/'
    requires IsExtensionStart(name, i)
    ensures IsExtensionStart(dir + name, i + |dir|)
  {
    var p := dir + name;
    var n := |dir|;
    var j :| NonDotBefore(name, j, i);
    assert NonDotBefore(p, j + n, i + n) by {
      assert forall k :: j + n <= k < i + n ==> p[k] == name[k - n];
    }
    assert PlainAfter(p, i + n) by {
      assert forall k :: i + n < k < |p| ==> p[k] == name[k - n];
    }
  }

  lemma SuffixOfAppend(dir: string, name: string, i: int)
    requires |dir| <= i <= |dir| + |name|
    ensures (dir + name)[i..] == name[i - |dir|..]
  {
  }

  lemma NonEmptyPathExtension(dir: string, name: string)
    requires dir == [] || dir[|dir| - 1] == '/'
    requires Extension(dir + name) != []
    ensures Extension(dir + name) == Extension(name)
  {
    var p := dir + name;
    var i := |p| - |Extension(p)|;
    StartOfExtension(p);
    StartInPathIsStartInName(dir, name, i);
    ExtensionFromStart(name, i - |dir|);
    SuffixOfAppend(dir, name, i);
  }

  lemma NonEmptyNameExtension(dir: string, name: string)
    requires forall k :: 0 <= k < |name| ==> name[k] != '/'
    requires Extension(name) != []
    ensures Extension(dir + name) == Extension(name)
  {
    var i := |name| - |Extension(name)|;
    StartOfExtension(name);
    StartInNameIsStartInPath(dir, name, i);
    ExtensionFromStart(dir + name, i + |dir|);
    SuffixOfAppend(dir, name, i + |dir|);
  }

  /** The extension of a path is the extension of its final component. */
  lemma ExtensionOfFinalComponent(dir: string, name: string)
    requires dir == [] || dir[|dir| - 1] == '/'
    requires forall k :: 0 <= k < |name| ==> name[k] != '/'
    ensures Extension(dir + name) == Extension(name)
  {
    if Extension(dir + name) != [] {
      NonEmptyPathExtension(dir, name);
    } else if Extension(name) != [] {
      NonEmptyNameExtension(dir, name);
    }
  }

  /** Joining a name without separators to the upload folder puts it directly in that folder. */
  lemma JoinPlacesNameInFolder(folder: string, name: string)
    requires forall k :: 0 <= k < |name| ==> name[k] != '/'
    ensures var r := Join(folder, name);
      var dir := r[..|r| - |name|];
      r == dir + name && (dir == [] || dir[|dir| - 1] == '/')
  {
    var r := Join(folder, name);
    assert r == r[..|r| - |name|] + r[|r| - |name|..];
  }

  /** The extension `save_and_get_path` returns is that of the file it wrote, when the sanitised name has no separator. */
  lemma SavedExtensionIsPathExtension(file: Option<FileStorage>, uploadFolder: string,
                                      secureFilename: string -> string)
    requires Truthy(file) && AllowedFile(file.value.filename)
    requires forall k :: 0 <= k < |secureFilename(file.value.filename)| ==> secureFilename(file.value.filename)[k] != '/'
    ensures var r := SaveAndGetPath(file, uploadFolder, secureFilename);
      r.path.Some? && r.ext == Some(Lower(Extension(r.path.value)))
  {
    var name := secureFilename(file.value.filename);
    JoinPlacesNameInFolder(uploadFolder, name);
    var r := Join(uploadFolder, name);
    ExtensionOfFinalComponent(r[..|r| - |name|], name);
  }

  /** The returned extension need not be an allowed one: a sanitiser that drops the extension yields "". */
  lemma SanitisedExtensionMayBeDisallowed()
    ensures var r := SaveAndGetPath(Some(FileStorage("data.csv")), "uploads", _ => "data");
      r.path == Some("uploads/data") && r.ext == Some("") && "" !in AllowedExtensions
  {
    CsvAccepted();
    DotlessFinalComponentRejected("data");
    assert Join("uploads", "data") == "uploads" + "/" + "data" == "uploads/data";
    assert Lower("") == "";
  }

  /** Whatever the sanitiser, a rejected upload is neither saved nor given a path. */
  lemma RejectedUploadIsNotSaved(filename: string, uploadFolder: string, secureFilename: string -> string)
    requires !AllowedFile(filename)
    ensures SaveAndGetPath(Some(FileStorage(filename)), uploadFolder, secureFilename) == SaveOutcome([], None, None)
  {
  }
}
