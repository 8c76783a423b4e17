/** The upload validators of the design-request model: `validate_file_size`
    and `validate_image_extension_and_size`. An upload is modelled by its
    file name and its size in bytes; the image content is not looked at. */
module Validators {
  import opened PyText

  /** 2 MiB: the largest size `validate_file_size` lets through. */
  const MaxUploadSize: nat := 2 * 1024 * 1024

  /** The whitelist, lower case and with the leading dot, as compared. */
  const ValidExtensions: seq<string> := [".jpg", ".jpeg", ".png", ".bmp"]

  datatype Upload = Upload(name: string, size: nat)

  /** The two ValidationErrors the validators raise. */
  datatype UploadError = TooLarge | BadExtension

  datatype Verdict = Pass | Fail(error: UploadError)

  /** `validate_file_size`: refuses a file strictly larger than 2 MiB. */
  function ValidateFileSize(u: Upload): (v: Verdict)
    ensures v == Pass <==> u.size <= MaxUploadSize
    ensures v != Pass ==> v == Fail(TooLarge)
  {
    if u.size > MaxUploadSize then Fail(TooLarge) else Pass
  }

  /** Some character of `p` strictly between `lo` and `hi` is not a dot. */
  predicate NonDotBetween(p: string, lo: int, hi: int)
    requires -1 <= lo && hi <= |p|
  {
    exists k :: lo < k < hi && p[k] != '.'
  }

  /** `os.path.splitext` (POSIX): the extension runs from the last dot of
      the last path component, unless every character before that dot in
      the component is itself a dot (a hidden file such as `.png` has no
      extension). */
  function SplitExt(p: string): (r: (string, string))
    ensures r.0 + r.1 == p
    ensures r.1 == [] || r.1[0] == '.'
    ensures r.1 != [] ==> p[|r.0|] == '.'
    ensures forall k :: 0 < k < |r.1| ==> r.1[k] != '.' && r.1[k] != '/'
    ensures r.1 != [] <==> NonDotBetween(p, LastIndexOf(p, '/'), LastIndexOf(p, '.'))
  {
    var sep := LastIndexOf(p, '/');
    var dot := LastIndexOf(p, '.');
    if dot > sep && NonDotBetween(p, sep, dot) then (p[..dot], p[dot..]) else (p, "")
  }

  /** The extension as `validate_image_extension_and_size` compares it:
      the lower-cased tail of the name that `splitext` splits off; empty,
      or a dot followed by no dot, no slash and no capital letter. */
  function Extension(name: string): (e: string)
    ensures e == [] || e[0] == '.'
    ensures forall k :: 0 < k < |e| ==> e[k] != '.' && e[k] != '/'
    ensures forall k :: 0 <= k < |e| ==> !('A' <= e[k] <= 'Z')
    ensures |e| <= |name|
    ensures e == [] <==> SplitExt(name).1 == []
  {
    var (root, ext) := SplitExt(name);
    Lower(ext)
  }

  /** The extension is the lower-cased tail of the name: what `splitext`
      splits off, with its letters made small and nothing else changed. */
  lemma ExtensionIsLoweredTail(name: string)
    ensures |Extension(name)| <= |name|
    ensures Extension(name) == Lower(name[|name| - |Extension(name)|..])
  {
    var ext := SplitExt(name).1;
    assert name[|name| - |ext|..] == ext;
  }

  /** `validate_image_extension_and_size`: the size check first, then the
      lower-cased extension against the whitelist. */
  function ValidateImage(u: Upload): (v: Verdict)
    ensures v == Pass ==> u.size <= MaxUploadSize
    ensures u.size > MaxUploadSize ==> v == Fail(TooLarge)
  {
    match ValidateFileSize(u)
    case Fail(e) => Fail(e)
    case Pass => if Extension(u.name) in ValidExtensions then Pass else Fail(BadExtension)
  }

  // ---------------------------------------------------------------------
  // Properties

  /** Exactly 2 MiB passes the size check, one byte more does not. */
  lemma SizeBoundary(name: string)
    ensures ValidateFileSize(Upload(name, 2 * 1024 * 1024)) == Pass
    ensures ValidateFileSize(Upload(name, 2 * 1024 * 1024 + 1)) == Fail(TooLarge)
  {
  }

  /** For a name `base.e`, where `e` has no dot or slash and the base's last
      path component holds something other than dots, the extension is
      `.e`: only what follows the last dot counts. */
  lemma ExtensionOfDottedName(base: string, e: string)
    requires NonDotBetween(base, LastIndexOf(base, '/'), |base|)
    requires forall k :: 0 <= k < |e| ==> e[k] != '.' && e[k] != '/'
    ensures SplitExt(base + "." + e) == (base, "." + e)
  {
    var k :| LastIndexOf(base, '/') < k < |base| && base[k] != '.';
    ExtensionOfDottedNameAt(base, e, k);
  }

  /** In `base.e`, where `e` has no dot, the last dot is the one before
      `e`. */
  lemma DottedNameLastDot(base: string, e: string)
    requires forall i :: 0 <= i < |e| ==> e[i] != '.'
    ensures LastIndexOf(base + "." + e, '.') == |base|
  {
    LastIndexOfAppend(base + ".", e, '.');
  }

  /** In `base.e`, where `e` has no slash, the last slash is the base's. */
  lemma DottedNameLastSlash(base: string, e: string)
    requires forall i :: 0 <= i < |e| ==> e[i] != '/'
    ensures LastIndexOf(base + "." + e, '/') == LastIndexOf(base, '/')
  {
    var tail := "." + e;
    assert base + "." + e == base + tail;
    assert forall k :: 0 < k < |tail| ==> tail[k] == e[k - 1];
    LastIndexOfAppend(base, tail, '/');
  }

  /** `ExtensionOfDottedName` for a given ordinary character `base[k]` of
      the last path component. */
  lemma ExtensionOfDottedNameAt(base: string, e: string, k: int)
    requires LastIndexOf(base, '/') < k < |base| && base[k] != '.'
    requires forall i :: 0 <= i < |e| ==> e[i] != '.' && e[i] != '/'
    ensures SplitExt(base + "." + e) == (base, "." + e)
  {
    var p := base + "." + e;
    DottedNameLastDot(base, e);
    DottedNameLastSlash(base, e);
    assert p[k] == base[k];
    assert NonDotBetween(p, LastIndexOf(p, '/'), LastIndexOf(p, '.'));
    DottedNameParts(base, e);
  }

  lemma DottedNameParts(base: string, e: string)
    ensures (base + "." + e)[..|base|] == base
    ensures (base + "." + e)[|base|..] == "." + e
  {
    assert base + "." + e == base + ("." + e);
  }

  /** The converse: when everything in the last path component before its
      last dot is a dot (`.png`, `..png`, `dir/.png`), or there is no dot
      after the last slash, `splitext` finds no extension. */
  lemma NoExtensionAfterOnlyDots(p: string)
    requires !NonDotBetween(p, LastIndexOf(p, '/'), LastIndexOf(p, '.'))
    ensures SplitExt(p).1 == [] && Extension(p) == []
  {
  }

  /** A base whose character `k` is not a dot, with no slash from `k` on,
      has something other than a dot in its last path component. */
  lemma OrdinaryCharInLastComponent(base: string, k: int)
    requires 0 <= k < |base| && base[k] != '.'
    requires forall j :: k <= j < |base| ==> base[j] != '/'
    ensures NonDotBetween(base, LastIndexOf(base, '/'), |base|)
  {
    assert LastIndexOf(base, '/') < k;
  }

  /** `.y` is on the whitelist exactly when `y` is one of the four bare
      extensions. */
  lemma DottedMember(y: string)
    ensures ("." + y) in ValidExtensions <==> y in ["jpg", "jpeg", "png", "bmp"]
  {
    var bare := ["jpg", "jpeg", "png", "bmp"];
    assert forall i :: 0 <= i < 4 ==> ValidExtensions[i] == "." + bare[i];
    if ("." + y) in ValidExtensions {
      var i :| 0 <= i < 4 && ValidExtensions[i] == "." + y;
      assert y == ("." + y)[1..] == ("." + bare[i])[1..] == bare[i];
    }
  }

  /** Acceptance of a dotted name, stated on its parts: the size bound and
      the lower-cased last suffix in {jpg, jpeg, png, bmp}. */
  lemma AcceptsDottedName(base: string, e: string, size: nat)
    requires NonDotBetween(base, LastIndexOf(base, '/'), |base|)
    requires forall k :: 0 <= k < |e| ==> e[k] != '.' && e[k] != '/'
    ensures ValidateImage(Upload(base + "." + e, size)) == Pass
        <==> size <= MaxUploadSize && Lower(e) in ["jpg", "jpeg", "png", "bmp"]
  {
    DottedExtension(base, e);
    VerdictOfExtension(Upload(base + "." + e, size), "." + Lower(e));
    DottedMember(Lower(e));
  }

  /** With its extension known, an upload passes exactly when it is within
      the size bound and the extension is whitelisted. */
  lemma VerdictOfExtension(u: Upload, ext: string)
    requires Extension(u.name) == ext
    ensures ValidateImage(u) == Pass <==> u.size <= MaxUploadSize && ext in ValidExtensions
  {
  }

  /** The compared extension of `base.e` is `.` followed by lower(e). */
  lemma DottedExtension(base: string, e: string)
    requires NonDotBetween(base, LastIndexOf(base, '/'), |base|)
    requires forall k :: 0 <= k < |e| ==> e[k] != '.' && e[k] != '/'
    ensures Extension(base + "." + e) == "." + Lower(e)
  {
    ExtensionOfDottedName(base, e);
    LowerDotted(e);
  }

  /** Lower-casing leaves the dot in front of an extension alone. */
  lemma LowerDotted(e: string)
    ensures Lower("." + e) == "." + Lower(e)
  {
  }

  /** A name without any dot has no extension and is refused whatever its
      size. */
  lemma NoDotRefused(name: string, size: nat)
    requires forall k :: 0 <= k < |name| ==> name[k] != '.'
    ensures ValidateImage(Upload(name, size)) != Pass
  {
    assert SplitExt(name).1 == [];
    assert Extension(name) == [];
  }

  /** Lower-casing keeps every dot and slash where it was and creates no
      new ones. */
  lemma LowerKeepsPlaces(a: string, b: string, c: char)
    requires Lower(a) == Lower(b)
    requires c == '.' || c == '/'
    ensures |a| == |b|
    ensures forall k :: 0 <= k < |a| ==> (a[k] == c <==> b[k] == c)
  {
    assert |a| == |Lower(a)| == |b|;
    forall k | 0 <= k < |a|
      ensures a[k] == c <==> b[k] == c
    {
      assert Lower(a)[k] == LowerChar(a[k]) && Lower(b)[k] == LowerChar(b[k]);
    }
  }

  /** Two names with their dots in the same places agree on whether a
      non-dot character lies between two positions. */
  lemma NonDotSamePlaces(a: string, b: string, lo: int, hi: int)
    requires |a| == |b|
    requires forall k :: 0 <= k < |a| ==> (a[k] == '.' <==> b[k] == '.')
    requires -1 <= lo && hi <= |a|
    ensures NonDotBetween(a, lo, hi) <==> NonDotBetween(b, lo, hi)
  {
    if NonDotBetween(a, lo, hi) {
      var k :| lo < k < hi && a[k] != '.';
      assert b[k] != '.';
    }
    if NonDotBetween(b, lo, hi) {
      var k :| lo < k < hi && b[k] != '.';
      assert a[k] != '.';
    }
  }

  /** Names equal up to letter case have equal lower-cased extensions. */
  lemma ExtensionIgnoresCase(a: string, b: string)
    requires Lower(a) == Lower(b)
    ensures Extension(a) == Extension(b)
  {
    LowerKeepsPlaces(a, b, '.');
    LowerKeepsPlaces(a, b, '/');
    LastIndexOfSamePlaces(a, b, '.');
    LastIndexOfSamePlaces(a, b, '/');
    var sep, dot := LastIndexOf(a, '/'), LastIndexOf(a, '.');
    NonDotSamePlaces(a, b, sep, dot);
    if SplitExt(a).1 != [] {
      ExtensionFromLastDot(a);
      ExtensionFromLastDot(b);
      LowerSlice(a, dot, |a|);
      LowerSlice(b, dot, |b|);
      assert a[dot..|a|] == a[dot..] && b[dot..|b|] == b[dot..];
    }
  }

  /** A non-empty extension is the tail of the name from its last dot. */
  lemma ExtensionFromLastDot(p: string)
    requires SplitExt(p).1 != []
    ensures 0 <= LastIndexOf(p, '.') && SplitExt(p).1 == p[LastIndexOf(p, '.')..]
  {
  }

  /** Renaming a file by changing the case of its letters never changes the
      verdict. */
  lemma CaseInsensitive(a: string, b: string, size: nat)
    requires Lower(a) == Lower(b)
    ensures ValidateImage(Upload(a, size)) == ValidateImage(Upload(b, size))
  {
    ExtensionIgnoresCase(a, b);
  }

  /** The verdict on `base.e` as `AcceptsDottedName` gives it, for a name
      whose last dot is at `dot` and whose last path component has an
      ordinary character at `k` before it. */
  lemma DottedExample(name: string, dot: nat, k: nat, size: nat)
    requires k < dot < |name| && name[dot] == '.' && name[k] != '.'
    requires forall j :: k <= j < |name| ==> name[j] != '/'
    requires forall j :: dot < j < |name| ==> name[j] != '.'
    ensures ValidateImage(Upload(name, size)) == Pass
        <==> size <= MaxUploadSize && Lower(name[dot + 1..]) in ["jpg", "jpeg", "png", "bmp"]
  {
    var base, e := name[..dot], name[dot + 1..];
    assert name == base + "." + e;
    OrdinaryCharInLastComponent(base, k);
    AcceptsDottedName(base, e, size);
  }

  /** Upper-case extensions are accepted. */
  lemma UpperCaseAccepted(name: string)
    requires name == "PLAN.JPG"
    ensures ValidateImage(Upload(name, 1000)) == Pass
  {
    assert name[4] == '.' && name[3] != '.';
    assert forall j :: 3 <= j < |name| ==> name[j] != '/';
    assert forall j :: 4 < j < |name| ==> name[j] != '.';
    assert Lower(name[5..]) == "jpg";
    DottedExample(name, 4, 3, 1000);
  }

  /** Mixed-case extensions are accepted, up to the 2 MiB limit itself. */
  lemma MixedCaseAccepted(name: string)
    requires name == "x.Png"
    ensures ValidateImage(Upload(name, MaxUploadSize)) == Pass
  {
    assert name[1] == '.' && name[0] != '.';
    assert forall j :: 0 <= j < |name| ==> name[j] != '/';
    assert forall j :: 1 < j < |name| ==> name[j] != '.';
    assert Lower(name[2..]) == "png";
    DottedExample(name, 1, 0, MaxUploadSize);
  }

  /** Only the last suffix counts: a PNG renamed from a GIF passes... */
  lemma LastSuffixAccepted(name: string)
    requires name == "a.gif.png"
    ensures ValidateImage(Upload(name, 10)) == Pass
  {
    assert name[5] == '.' && name[4] != '.';
    assert forall j :: 4 <= j < |name| ==> name[j] != '/';
    assert forall j :: 5 < j < |name| ==> name[j] != '.';
    assert Lower(name[6..]) == "png";
    DottedExample(name, 5, 4, 10);
  }

  /** ... and a GIF renamed from a PNG does not. */
  lemma LastSuffixRefused(name: string)
    requires name == "a.png.gif"
    ensures ValidateImage(Upload(name, 10)) == Fail(BadExtension)
  {
    assert name[5] == '.' && name[4] != '.';
    assert forall j :: 4 <= j < |name| ==> name[j] != '/';
    assert forall j :: 5 < j < |name| ==> name[j] != '.';
    assert Lower(name[6..]) == "gif";
    DottedExample(name, 5, 4, 10);
  }

  /** A GIF is refused for its extension, unless it is too large, in which
      case the size error is the one reported. */
  lemma GifRefused(name: string)
    requires name == "plan.gif"
    ensures ValidateImage(Upload(name, 10)) == Fail(BadExtension)
    ensures ValidateImage(Upload(name, MaxUploadSize + 1)) == Fail(TooLarge)
  {
    assert name[4] == '.' && name[3] != '.';
    assert forall j :: 3 <= j < |name| ==> name[j] != '/';
    assert forall j :: 4 < j < |name| ==> name[j] != '.';
    assert Lower(name[5..]) == "gif";
    DottedExample(name, 4, 3, 10);
  }

  /** A doubled dot stays in the root: `photo..jpg` has extension `.jpg`
      and is accepted. */
  lemma DoubleDotAccepted(name: string)
    requires name == "photo..jpg"
    ensures ValidateImage(Upload(name, 10)) == Pass
  {
    assert name[6] == '.' && name[4] != '.';
    assert forall j :: 4 <= j < |name| ==> name[j] != '/';
    assert forall j :: 6 < j < |name| ==> name[j] != '.';
    assert Lower(name[7..]) == "jpg";
    DottedExample(name, 6, 4, 10);
  }

  /** Leading dots never start an extension: `..png` has none and is
      refused. */
  lemma LeadingDotsRefused()
    ensures ValidateImage(Upload("..png", 10)) == Fail(BadExtension)
  {
    var p := "..png";
    assert p[0] == '.' && p[1] == '.' && p[2] != '.' && p[3] != '.' && p[4] != '.';
    assert LastIndexOf(p, '.') == 1;
    assert p[0] != '/' && p[1] != '/' && p[2] != '/' && p[3] != '/' && p[4] != '/';
    assert LastIndexOf(p, '/') == -1;
    NoExtensionAfterOnlyDots(p);
  }

  /** The rule applies to the last path component: `dir/.png` is a hidden
      file and is refused. */
  lemma HiddenFileInDirectoryRefused()
    ensures ValidateImage(Upload("dir/.png", 10)) == Fail(BadExtension)
  {
    var p := "dir/.png";
    assert p[3] == '/' && p[4] == '.' && p[5] != '.' && p[6] != '.' && p[7] != '.';
    assert LastIndexOf(p, '.') == 4;
    assert p[5] != '/' && p[6] != '/' && p[7] != '/';
    assert LastIndexOf(p, '/') == 3;
    NoExtensionAfterOnlyDots(p);
  }

  /** A hidden file named `.png` has no extension in the sense of
      `os.path.splitext`, so it is refused. */
  lemma HiddenFileRefused()
    ensures ValidateImage(Upload(".png", 10)) == Fail(BadExtension)
  {
    var p := ".png";
    assert p[0] == '.' && p[1] != '.' && p[2] != '.' && p[3] != '.';
    assert LastIndexOf(p, '.') == 0;
    assert p[0] != '/' && p[1] != '/' && p[2] != '/' && p[3] != '/';
    assert LastIndexOf(p, '/') == -1;
    assert SplitExt(p) == (p, "");
  }
}
