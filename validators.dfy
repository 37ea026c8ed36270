/** The photo upload validators of api/validators.py. Decoding the image is
    not modelled: an Upload carries whether the bytes decode as an image and
    what opening them for the dimension check yields. */
module Validators {
  import opened Wrappers
  import opened Text

  const MaxSizeMb: nat := 5
  const MaxSizeBytes: nat := MaxSizeMb * 1024 * 1024
  const ValidExtensions: seq<string> := [".jpg", ".jpeg", ".png", ".gif", ".webp", ".bmp"]
  const MaxWidth: int := 5000
  const MaxHeight: int := 5000

  /** What opening the file for the dimension check yields. */
  datatype Probe = Unopenable | Opened(width: int, height: int)

  datatype Upload = Upload(name: string, size: int, decodes: bool, probe: Probe)

  /** Why the dimension check failed: both causes are reported as "could
      not verify the dimensions", because the oversize error is raised
      inside the check's own catch-all handler. */
  datatype DimensionFault = OpenFailed | Oversized(width: int, height: int)

  datatype ImageError =
    | UnsupportedExtension
    | FileTooLarge(size: int)
    | NotAnImage
    | DimensionsUnverified(fault: DimensionFault)

  /** `validate_image_size`: rejects files over 5 MiB. */
  function CheckSize(size: int): (r: Result<(), ImageError>)
    ensures r.Ok? <==> size <= 5242880
    ensures r.Err? ==> r.error == FileTooLarge(size)
  {
    if size > MaxSizeBytes then Err(FileTooLarge(size)) else Ok(())
  }

  /** Index of the last occurrence of c in s, or -1 (Python's str.rfind). */
  function RFind(s: string, c: char): (r: int)
    ensures -1 <= r < |s|
    ensures r >= 0 ==> s[r] == c
    ensures forall j :: r < j < |s| ==> s[j] != c
    decreases |s|
  {
    if s == [] then -1
    else if s[|s| - 1] == c then |s| - 1
    else RFind(s[..|s| - 1], c)
  }

  predicate AllDots(s: string) {
    forall i :: 0 <= i < |s| ==> s[i] == '.'
  }

  /** After the last dot, when it follows the last slash, there is neither a
      dot nor a slash. */
  lemma AfterLastDot(p: string, sep: int, dot: int)
    requires sep == RFind(p, '/') && dot == RFind(p, '.') && dot > sep
    ensures p[dot] == '.'
    ensures forall i :: dot < i < |p| ==> p[i] != '.' && p[i] != '/'
  {
  }

  /** POSIX os.path.splitext: the extension starts at the last dot of the
      final path component, unless everything before that dot in the
      component is dots (".bashrc" has no extension). */
  function SplitExt(p: string): (r: (string, string))
    ensures r.0 + r.1 == p
    ensures r.1 != [] ==> r.1[0] == '.' && forall i :: 1 <= i < |r.1| ==> r.1[i] != '.' && r.1[i] != '/'
  {
    var sep, dot := RFind(p, '/'), RFind(p, '.');
    if dot > sep && !AllDots(p[sep + 1..dot]) then
      AfterLastDot(p, sep, dot);
      (p[..dot], p[dot..])
    else (p, "")
  }

  lemma RFindAbsent(s: string, c: char)
    requires c !in s
    ensures RFind(s, c) == -1
  {
  }

  /** RFind finds the position of the last occurrence. */
  lemma RFindIs(s: string, c: char, k: int)
    requires 0 <= k < |s| && s[k] == c
    requires forall j :: k < j < |s| ==> s[j] != c
    ensures RFind(s, c) == k
  {
  }

  /** The extension is empty exactly when the final component has no dot
      preceded by a non-dot character. */
  lemma SplitExtEmptyIff(p: string)
    ensures var sep, dot := RFind(p, '/'), RFind(p, '.');
      SplitExt(p).1 == [] <==> dot <= sep || AllDots(p[sep + 1..dot])
  {
  }

  /** `validate_image_extension`: the lower-cased extension must be listed. */
  function CheckExtension(name: string): (r: Result<(), ImageError>)
    ensures r.Ok? <==> Lower(SplitExt(name).1) in ValidExtensions
    ensures r.Err? ==> r.error == UnsupportedExtension
  {
    if Lower(SplitExt(name).1) in ValidExtensions then Ok(()) else Err(UnsupportedExtension)
  }

  /** `validate_image_content`. */
  function CheckContent(decodes: bool): (r: Result<(), ImageError>)
    ensures r.Ok? <==> decodes
    ensures r.Err? ==> r.error == NotAnImage
  {
    if decodes then Ok(()) else Err(NotAnImage)
  }

  /** `validate_image_dimensions`: width and height at most 5000; every
      failure, the oversize one included, surfaces as DimensionsUnverified. */
  function CheckDimensions(probe: Probe): (r: Result<(), ImageError>)
    ensures r.Ok? <==> probe.Opened? && probe.width <= 5000 && probe.height <= 5000
    ensures r.Err? ==> r.error.DimensionsUnverified?
    ensures probe.Opened? && r.Err? ==> r.error.fault == Oversized(probe.width, probe.height)
  {
    match probe
    case Unopenable => Err(DimensionsUnverified(OpenFailed))
    case Opened(w, h) =>
      if w > MaxWidth || h > MaxHeight then Err(DimensionsUnverified(Oversized(w, h))) else Ok(())
  }

  /** `validate_image`: extension, size, content, dimensions, stopping at the
      first failure. */
  function ValidateImage(u: Upload): (r: Result<(), ImageError>)
    ensures r.Ok? <==> CheckExtension(u.name).Ok? && CheckSize(u.size).Ok?
                       && CheckContent(u.decodes).Ok? && CheckDimensions(u.probe).Ok?
    ensures CheckExtension(u.name).Err? ==> r == CheckExtension(u.name)
    ensures CheckExtension(u.name).Ok? && CheckSize(u.size).Err? ==> r == CheckSize(u.size)
    ensures CheckExtension(u.name).Ok? && CheckSize(u.size).Ok? && CheckContent(u.decodes).Err? ==>
              r == CheckContent(u.decodes)
    ensures CheckExtension(u.name).Ok? && CheckSize(u.size).Ok? && CheckContent(u.decodes).Ok? ==>
              r == CheckDimensions(u.probe)
  {
    if CheckExtension(u.name).Err? then CheckExtension(u.name)
    else if CheckSize(u.size).Err? then CheckSize(u.size)
    else if CheckContent(u.decodes).Err? then CheckContent(u.decodes)
    else CheckDimensions(u.probe)
  }

  /** Exactly 5 MiB passes, one byte more fails. */
  lemma SizeBoundary()
    ensures CheckSize(5242880).Ok? && CheckSize(5242881).Err?
  {
  }

  /** Exactly 5000×5000 passes; one pixel more in either direction fails. */
  lemma DimensionBoundary()
    ensures CheckDimensions(Opened(5000, 5000)).Ok?
    ensures CheckDimensions(Opened(5001, 1)).Err? && CheckDimensions(Opened(1, 5001)).Err?
  {
  }

  /** A name without a slash, not starting with a dot, whose last dot is
      at index dot: its extension starts there. */
  lemma SplitExtAt(p: string, dot: int)
    requires 0 < dot < |p| && p[dot] == '.' && p[0] != '.' && '/' !in p
    requires forall i :: dot < i < |p| ==> p[i] != '.'
    ensures SplitExt(p).1 == p[dot..]
  {
    RFindIs(p, '.', dot);
    RFindAbsent(p, '/');
    assert p[0..dot][0] == p[0];
  }

  lemma SplitPhotoJpg()
    ensures SplitExt("photo.JPG").1 == ".JPG"
  {
    var p := "photo.JPG";
    assert '/' !in p;
    assert forall i :: 5 < i < |p| ==> p[i] != '.';
    SplitExtAt(p, 5);
    assert p[5..] == ".JPG";
  }

  lemma SplitPhotoPngExe()
    ensures SplitExt("photo.png.exe").1 == ".exe"
  {
    var p := "photo.png.exe";
    assert '/' !in p;
    assert forall i :: 9 < i < |p| ==> p[i] != '.';
    SplitExtAt(p, 9);
    assert p[9..] == ".exe";
  }

  lemma LowerJpg()
    ensures Lower(".JPG") == ".jpg"
  {
  }

  lemma LowerExe()
    ensures Lower(".exe") == ".exe"
  {
  }

  /** An upper-case extension passes: the check lower-cases it first. */
  lemma UpperCaseExtensionAccepted()
    ensures CheckExtension("photo.JPG").Ok?
  {
    SplitPhotoJpg();
    LowerJpg();
    assert ".jpg" == ValidExtensions[0];
  }

  /** A name without a dot has the empty extension and fails. */
  lemma MissingExtensionRejected(name: string)
    requires '.' !in name
    ensures CheckExtension(name).Err?
  {
    RFindAbsent(name, '.');
    assert SplitExt(name).1 == "";
  }

  /** A hidden file such as ".png" has no extension in the splitext sense. */
  lemma HiddenFileRejected()
    ensures CheckExtension(".png").Err?
  {
    RFindIs(".png", '.', 0);
    RFindAbsent(".png", '/');
    assert SplitExt(".png").1 == "";
  }

  /** Only the last extension counts. */
  lemma LastExtensionCounts()
    ensures CheckExtension("photo.png.exe").Err?
  {
    SplitPhotoPngExe();
    LowerExe();
  }
}
