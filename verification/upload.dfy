/** The receipt-upload filename check `allowed_file`. */
module Upload {
  import opened Wrappers
  import opened Text

  /** `ALLOWED_EXTENSIONS`. */
  const AllowedExtensions: set<string> := {"png", "jpg", "jpeg", "gif"}

  /** Position of the last '.' in `s`, if there is one (where `rsplit('.', 1)` cuts). */
  function LastDot(s: string): (r: Option<nat>)
    ensures r.Some? ==> r.value < |s| && s[r.value] == '.'
    ensures r.Some? ==> forall j :: r.value < j < |s| ==> s[j] != '.'
    ensures r.None? <==> forall j :: 0 <= j < |s| ==> s[j] != '.'
  {
    if |s| == 0 then None
    else if s[|s| - 1] == '.' then Some(|s| - 1)
    else LastDot(s[..|s| - 1])
  }

  /** The text after the last '.', or None when there is no '.'. */
  function Extension(filename: string): (r: Option<string>)
    ensures r.None? <==> '.' !in filename
    ensures r.Some? ==> '.' !in r.value
    ensures r.Some? ==> exists i :: 0 <= i < |filename| && filename == filename[..i] + "." + r.value
  {
    match LastDot(filename)
    case None => None
    case Some(i) =>
      assert filename == filename[..i] + "." + filename[i + 1..];
      Some(filename[i + 1..])
  }

  /**
   * `allowed_file`: the filename has a '.', and what follows the last '.',
   * lower-cased, is one of the allowed extensions.
   */
  function AllowedFile(filename: string): bool {
    match Extension(filename)
    case None => false
    case Some(ext) => Lower(ext) in AllowedExtensions
  }

  /**
   * The check read declaratively: some split of the name into a prefix, a dot
   * and a dot-free suffix whose lower-case form is allowed.
   */
  lemma AllowedFileMeaning(filename: string)
    ensures AllowedFile(filename) <==>
              exists prefix, ext :: filename == prefix + "." + ext && '.' !in ext && Lower(ext) in AllowedExtensions
  {
    if AllowedFile(filename) {
      var i :| 0 <= i < |filename| && filename == filename[..i] + "." + Extension(filename).value;
      assert filename == filename[..i] + "." + Extension(filename).value;
    }
    if exists prefix, ext :: filename == prefix + "." + ext && '.' !in ext && Lower(ext) in AllowedExtensions {
      var prefix, ext :| filename == prefix + "." + ext && '.' !in ext && Lower(ext) in AllowedExtensions;
      DotFreeSuffix(prefix, ext);
    }
  }

  /** When the suffix after a dot is dot-free, that dot is the last one. */
  lemma DotFreeSuffix(prefix: string, ext: string)
    requires '.' !in ext
    ensures Extension(prefix + "." + ext) == Some(ext)
  {
    var f := prefix + "." + ext;
    var i := LastDot(f).value;
    assert f[|prefix|] == '.';
    assert i == |prefix|;
    assert f[i + 1..] == ext;
  }

  /** Upper-case extensions pass. */
  lemma UpperCaseExtension()
    ensures AllowedFile("a.PNG")
  {
    DotFreeSuffix("a", "PNG");
    assert Lower("PNG") == "png";
  }

  /** Only the last extension counts. */
  lemma OnlyLastExtension()
    ensures !AllowedFile("x.png.exe")
  {
    assert "x.png.exe" == "x.png" + "." + "exe";
    DotFreeSuffix("x.png", "exe");
    assert Lower("exe") == "exe";
  }
}
