/** The file-name rules of `upload_image`: the extension whitelist of `allowed_file`, and the name
    the upload is stored under. The random hex string and the sanitised file name are parameters:
    they come from `uuid.uuid4()` and werkzeug's `secure_filename`. */
module Uploads {
  import opened Base
  import opened Text
  import opened Requests

  /** The position of the last `c` in `s`, or -1. */
  function LastIndexOf(s: string, c: char): (r: int)
    ensures -1 <= r < |s|
  {
    if s == [] then -1
    else if s[|s| - 1] == c then |s| - 1
    else LastIndexOf(s[..|s| - 1], c)
  }

  /** The position found holds `c`, and no later position does. */
  lemma {:induction false} LastIndexOfSpec(s: string, c: char)
    ensures var r := LastIndexOf(s, c);
      && (r >= 0 ==> s[r] == c)
      && forall k :: r < k < |s| ==> s[k] != c
  {
    if s != [] && s[|s| - 1] != c {
      var t := s[..|s| - 1];
      LastIndexOfSpec(t, c);
      assert forall k :: 0 <= k < |t| ==> t[k] == s[k];
    }
  }

  predicate AllDots(s: string) {
    forall k :: 0 <= k < |s| ==> s[k] == '.'
  }

  /** The extension `os.path.splitext` splits off a POSIX path: from the last dot of the last path
      component to the end, unless only dots precede that dot within the component (".png" and
      "..png" have no extension). */
  function Ext(p: string): (e: string)
    ensures e == "" || (e[0] == '.' && |e| <= |p| && e == p[|p| - |e|..])
    ensures forall k :: 1 <= k < |e| ==> e[k] != '.' && e[k] != '/'
  {
    var dot := LastIndexOf(p, '.');
    var sep := LastIndexOf(p, '/');
    if dot > sep && !AllDots(p[sep + 1..dot]) then
      ExtShape(p, dot, sep);
      p[dot..]
    else ""
  }

  /** The text from the last dot, when it comes after the last slash, starts with that dot and
      holds no other dot and no slash. */
  lemma ExtShape(p: string, dot: int, sep: int)
    requires dot == LastIndexOf(p, '.') && sep == LastIndexOf(p, '/') && sep < dot
    ensures var e := p[dot..];
      e[0] == '.' && forall k :: 1 <= k < |e| ==> e[k] != '.' && e[k] != '/'
  {
    LastIndexOfSpec(p, '.');
    LastIndexOfSpec(p, '/');
    var e := p[dot..];
    forall k | 1 <= k < |e|
      ensures e[k] != '.' && e[k] != '/'
    {
      assert e[k] == p[dot + k];
    }
  }

  /** A path made of a directory part, a base name with some character other than a dot, and a
      dot followed by no dot or slash has exactly that last part as its extension. */
  lemma ExtOfJoined(stem: string, x: string, k: nat)
    requires k < |stem| && stem[k] != '.' && stem[k] != '/'
    requires forall j :: k < j < |stem| ==> stem[j] != '/'
    requires forall j :: 0 <= j < |x| ==> x[j] != '.' && x[j] != '/'
    ensures Ext(stem + "." + x) == "." + x
  {
    var p := stem + "." + x;
    JoinedDot(stem, x);
    JoinedSlash(stem, x, k);
    var sep := LastIndexOf(p, '/');
    assert p[k] == stem[k];
    NotAllDots(p[sep + 1..|stem|], k - sep - 1);
    ExtFrom(p, |stem|, sep);
    assert p[|stem|..] == "." + x;
  }

  /** In such a path the last dot is the joining one ... */
  lemma JoinedDot(stem: string, x: string)
    requires forall j :: 0 <= j < |x| ==> x[j] != '.'
    ensures LastIndexOf(stem + "." + x, '.') == |stem|
  {
    var p := stem + "." + x;
    JoinedAt(stem, x);
    NoDotAfter(p, stem, x);
    LastIndexOfAt(p, '.', |stem|);
  }

  lemma JoinedAt(stem: string, x: string)
    ensures var p := stem + "." + x;
      |p| == |stem| + 1 + |x| && p[|stem|] == '.' && p[..|stem|] == stem
      && forall j :: |stem| < j < |p| ==> p[j] == x[j - |stem| - 1]
  {
  }

  lemma NoDotAfter(p: string, stem: string, x: string)
    requires forall j :: 0 <= j < |x| ==> x[j] != '.'
    requires |p| == |stem| + 1 + |x|
    requires forall j :: |stem| < j < |p| ==> p[j] == x[j - |stem| - 1]
    ensures forall k :: |stem| < k < |p| ==> p[k] != '.'
  {
  }

  /** ... and the last slash comes before position `k`. */
  lemma JoinedSlash(stem: string, x: string, k: nat)
    requires k < |stem| && stem[k] != '/'
    requires forall j :: k < j < |stem| ==> stem[j] != '/'
    requires forall j :: 0 <= j < |x| ==> x[j] != '/'
    ensures LastIndexOf(stem + "." + x, '/') < k
  {
    var p := stem + "." + x;
    JoinedAt(stem, x);
    NoSlashFrom(p, stem, x, k);
    LastIndexOfBelow(p, '/', k);
  }

  lemma NoSlashFrom(p: string, stem: string, x: string, k: nat)
    requires k < |stem| && |p| == |stem| + 1 + |x| && p[..|stem|] == stem && p[|stem|] == '.'
    requires forall j :: |stem| < j < |p| ==> p[j] == x[j - |stem| - 1]
    requires forall j :: k <= j < |stem| ==> stem[j] != '/'
    requires forall j :: 0 <= j < |x| ==> x[j] != '/'
    ensures forall j :: k <= j < |p| ==> p[j] != '/'
  {
    forall j | k <= j < |p|
      ensures p[j] != '/'
    {
      if j < |stem| {
        assert p[j] == p[..|stem|][j];
      }
    }
  }

  /** The extension starts at the last dot when something other than dots lies between the last
      slash and that dot. */
  lemma ExtFrom(p: string, dot: int, sep: int)
    requires LastIndexOf(p, '.') == dot && LastIndexOf(p, '/') == sep && sep < dot
    requires !AllDots(p[sep + 1..dot])
    ensures Ext(p) == p[dot..]
  {
  }

  lemma NotAllDots(s: string, i: int)
    requires 0 <= i < |s| && s[i] != '.'
    ensures !AllDots(s)
  {
  }

  /** A `c` at position `i` with none after it is the last one. */
  lemma {:induction false} LastIndexOfAt(s: string, c: char, i: int)
    requires 0 <= i < |s| && s[i] == c
    requires forall k :: i < k < |s| ==> s[k] != c
    ensures LastIndexOf(s, c) == i
    decreases |s|
  {
    if i < |s| - 1 {
      var t := s[..|s| - 1];
      assert forall k :: 0 <= k < |t| ==> t[k] == s[k];
      LastIndexOfAt(t, c, i);
    }
  }

  /** With no `c` from position `i` on, the last one lies before `i`. */
  lemma {:induction false} LastIndexOfBelow(s: string, c: char, i: int)
    requires 0 <= i <= |s|
    requires forall k :: i <= k < |s| ==> s[k] != c
    ensures LastIndexOf(s, c) < i
    decreases |s|
  {
    if i < |s| {
      var t := s[..|s| - 1];
      assert forall k :: 0 <= k < |t| ==> t[k] == s[k];
      LastIndexOfBelow(t, c, i);
    }
  }

  /** `ALLOWED_EXTENSIONS`. */
  const AllowedExtensions: set<string> := {".png", ".jpg", ".jpeg", ".gif", ".webp"}

  /** `allowed_file`: the extension, lowercased, is on the whitelist. */
  predicate AllowedFile(filename: string) {
    Lower(Ext(filename)) in AllowedExtensions
  }

  /** A name passes exactly when it ends in a dot and one of png, jpg, jpeg, gif, webp in any mix of
      upper and lower case, with some character other than a dot before that dot in its last path
      component. */
  lemma AllowedFileExactly(stem: string, x: string, k: nat)
    requires k < |stem| && stem[k] != '.' && stem[k] != '/'
    requires forall j :: k < j < |stem| ==> stem[j] != '/'
    requires forall j :: 0 <= j < |x| ==> x[j] != '.' && x[j] != '/'
    ensures AllowedFile(stem + "." + x) <==> Lower("." + x) in AllowedExtensions
  {
    ExtOfJoined(stem, x, k);
  }

  /** Every name that passes has such an extension; a name without one never passes. */
  lemma AllowedFileHasExtension(filename: string)
    ensures AllowedFile(filename) ==> |Ext(filename)| >= 4 && Ext(filename)[0] == '.'
    ensures Ext(filename) == "" ==> !AllowedFile(filename)
  {
    var e := Ext(filename);
    var l := Lower(e);
    if l in AllowedExtensions {
      assert |l| >= 4;
      assert e[0] == '.';
    }
  }

  /** A last path component that starts with its only dot, such as ".png", has no extension, so a
      hidden file named only by an extension is refused. */
  lemma DotFileRefused(dir: string, x: string)
    requires dir == "" || dir[|dir| - 1] == '/'
    requires forall j :: 0 <= j < |x| ==> x[j] != '.' && x[j] != '/'
    ensures Ext(dir + "." + x) == ""
    ensures !AllowedFile(dir + "." + x)
  {
    JoinedDot(dir, x);
    SlashBeforeDot(dir, x);
    ExtEmptyAt(dir + "." + x, |dir|);
  }

  /** In such a path the last slash is the one ending the directory part, or there is none. */
  lemma SlashBeforeDot(dir: string, x: string)
    requires dir == "" || dir[|dir| - 1] == '/'
    requires forall j :: 0 <= j < |x| ==> x[j] != '/'
    ensures LastIndexOf(dir + "." + x, '/') == |dir| - 1
  {
    var p := dir + "." + x;
    JoinedAt(dir, x);
    assert forall k :: |dir| <= k < |p| ==> p[k] != '/' by {
      forall k | |dir| <= k < |p|
        ensures p[k] != '/'
      {
        if k > |dir| {
          assert p[k] == x[k - |dir| - 1];
        }
      }
    }
    if dir == "" {
      LastIndexOfBelow(p, '/', 0);
    } else {
      assert p[|dir| - 1] == dir[|dir| - 1];
      LastIndexOfAt(p, '/', |dir| - 1);
    }
  }

  /** A dot right after the last slash (or at the start) that is the last dot gives no extension. */
  lemma ExtEmptyAt(p: string, dot: nat)
    requires LastIndexOf(p, '.') == dot && LastIndexOf(p, '/') == dot - 1
    ensures Ext(p) == ""
  {
    assert p[dot..dot] == [];
  }

  /** The case of the extension does not matter: "photo.PNG" is accepted. */
  lemma UpperCaseAccepted()
    ensures AllowedFile("photo.PNG")
  {
    var stem := "photo";
    assert stem[0] != '.' && stem[0] != '/' && forall j :: 0 < j < |stem| ==> stem[j] != '/';
    ExtOfJoined(stem, "PNG", 0);
    assert stem + "." + "PNG" == "photo.PNG";
    assert Lower(".PNG") == ".png";
  }

  /** `upload_image`: a missing file part, an empty file name, or a name outside the whitelist is
      refused; otherwise the file is stored as the hex string followed by the lowercased extension
      of the sanitised name. */
  function UploadImage(hasFile: bool, filename: string, secured: string, hex: string): (r: Result<string, Error>)
    ensures r == Err(NoFile) <==> !hasFile
    ensures r == Err(EmptyFilename) <==> hasFile && filename == ""
    ensures r.Ok? <==> hasFile && filename != "" && AllowedFile(filename)
    ensures hasFile && filename != "" && !AllowedFile(filename) ==> r == Err(ExtensionNotAllowed)
    ensures r.Ok? ==> |r.value| >= |hex| && r.value[..|hex|] == hex && r.value[|hex|..] == Lower(Ext(secured))
  {
    if !hasFile then Err(NoFile)
    else if filename == "" then Err(EmptyFilename)
    else if !AllowedFile(filename) then Err(ExtensionNotAllowed)
    else
      var stored := hex + Lower(Ext(secured));
      assert stored[..|hex|] == hex && stored[|hex|..] == Lower(Ext(secured));
      Ok(stored)
  }

  /** When sanitising keeps the extension, the stored name ends in a whitelisted extension. */
  lemma StoredNameAllowed(filename: string, secured: string, hex: string)
    requires filename != "" && AllowedFile(filename) && Ext(secured) == Ext(filename)
    ensures var r := UploadImage(true, filename, secured, hex);
      r.Ok? && r.value[|hex|..] in AllowedExtensions
  {
  }
}
