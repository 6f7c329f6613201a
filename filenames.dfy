/**
  The extension check `allowed_file` (backend/main.py:62-64): a filename is
  accepted when it contains a '.' and the text after its LAST '.', folded to
  lower case, is one of png, jpg, jpeg, gif.
*/
module Filenames {
  import opened Wrappers

  /** The extensions the service accepts, in lower case. */
  const AllowedExtensions: set<string> := {"png", "jpg", "jpeg", "gif"}

  /** ASCII lower-casing of one character. */
  function LowerChar(c: char): char
  {
    if 'A' <= c <= 'Z' then (c as int - 'A' as int + 'a' as int) as char else c
  }

  /** `str.lower()`, restricted to ASCII letters. */
  function ToLower(s: string): (r: string)
    ensures |r| == |s|
    ensures forall i :: 0 <= i < |s| ==> r[i] == LowerChar(s[i])
  {
    if s == [] then [] else [LowerChar(s[0])] + ToLower(s[1..])
  }

  /** The position of the last occurrence of `c` in `s`, if there is one. */
  function LastIndexOf(s: string, c: char): (r: Option<nat>)
    ensures r.None? <==> c !in s
    ensures r.Some? ==> r.value < |s| && s[r.value] == c
    ensures r.Some? ==> forall j :: r.value < j < |s| ==> s[j] != c
  {
    if s == [] then None
    else if s[|s| - 1] == c then Some(|s| - 1)
    else LastIndexOf(s[..|s| - 1], c)
  }

  /** `filename.rsplit('.', 1)[1]` when the filename holds a '.': the dot-free suffix after the last dot. */
  function Extension(filename: string): (r: Option<string>)
    ensures r.None? <==> '.' !in filename
    ensures r.Some? ==> |r.value| < |filename| && '.' !in r.value
    ensures r.Some? ==> filename[|filename| - |r.value| - 1] == '.'
    ensures r.Some? ==> filename[|filename| - |r.value|..] == r.value
  {
    match LastIndexOf(filename, '.')
    case None => None
    case Some(i) => Some(filename[i + 1..])
  }

  /** `allowed_file(filename)`. */
  predicate AllowedFile(filename: string)
  {
    match Extension(filename)
    case None => false
    case Some(ext) => ToLower(ext) in AllowedExtensions
  }

  /** A filename without any dot is refused. */
  lemma AllowedFileNeedsDot(filename: string)
    requires '.' !in filename
    ensures !AllowedFile(filename)
  {
  }

  /**
    Splitting a filename at a dot after which no dot follows: the decision
    rests only on the part after that dot, case-insensitively.
  */
  lemma AllowedFileSplit(stem: string, ext: string)
    requires '.' !in ext
    ensures AllowedFile(stem + "." + ext) <==> ToLower(ext) in AllowedExtensions
  {
    var f := stem + "." + ext;
    assert f[|stem|] == '.';
    var e := Extension(f);
    assert e.value == ext;
  }

  /** Upper-casing or lower-casing the whole name never changes the decision. */
  lemma {:induction false} AllowedFileCaseInsensitive(filename: string)
    ensures AllowedFile(ToLower(filename)) == AllowedFile(filename)
  {
    var g := ToLower(filename);
    assert forall i :: 0 <= i < |g| ==> (g[i] == '.' <==> filename[i] == '.');
    var e, e' := Extension(filename), Extension(g);
    if e.Some? {
      assert e'.value == ToLower(e.value);
      ToLowerIdempotent(e.value);
    } else {
      assert '.' !in g;
    }
  }

  /** Folding twice is folding once. */
  lemma ToLowerIdempotent(s: string)
    ensures ToLower(ToLower(s)) == ToLower(s)
  {
    var t := ToLower(s);
    assert forall i :: 0 <= i < |t| ==> LowerChar(t[i]) == t[i];
  }

  /** A dot earlier in the name does not count: the last extension decides. */
  lemma AllowedFileExampleDoubleExtension()
    ensures !AllowedFile("a.png.exe")
  {
    assert "a.png" + "." + "exe" == "a.png.exe";
    AllowedFileSplit("a.png", "exe");
    assert ToLower("exe")[0] == LowerChar('e');
  }

  /** The extension is compared case-insensitively. */
  lemma AllowedFileExampleUpperCase()
    ensures AllowedFile("a.exe.PNG")
  {
    assert "a.exe" + "." + "PNG" == "a.exe.PNG";
    AllowedFileSplit("a.exe", "PNG");
    assert ToLower("PNG") == [LowerChar('P'), LowerChar('N'), LowerChar('G')];
  }

  /** A trailing dot leaves an empty extension, which is refused. */
  lemma AllowedFileExampleTrailingDot()
    ensures !AllowedFile("a.")
  {
    assert "a" + "." + "" == "a.";
    AllowedFileSplit("a", "");
    assert ToLower("") == "";
  }
}
