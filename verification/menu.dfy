/** The file-type test the menu applies to each selected file (`Menu.getFileType`). */
module FileTypes {

  const FOLDER: int := 1
  const IMAGE: int := 2
  const MODEL: int := 3
  const OTHERFILETYPE: int := 4

  /** One character of `equalsIgnoreCase` against a lower-case ASCII letter `l` of a literal
      (every literal `getFileType` compares with is one). Java accepts `c` when its upper
      case equals that of `l`, or when their upper cases have the same lower case: `l`
      itself, its upper-case form, and four non-ASCII letters whose case mapping lands on
      an ASCII letter (dotless i and dotted capital I for 'i', long s for 's', the Kelvin
      sign for 'k'). */
  predicate SameLetter(c: char, l: char)
  {
    || c == l
    || ('a' <= l <= 'z' && c as int == l as int - 32)
    || (l == 'i' && (c == '\U{131}' || c == '\U{130}'))
    || (l == 's' && c == '\U{17F}')
    || (l == 'k' && c == '\U{212A}')
  }

  /** `a.equalsIgnoreCase(lit)` for a lower-case ASCII literal `lit`. */
  predicate EqualsIgnoreCase(a: string, lit: string)
  {
    |a| == |lit| && forall k :: 0 <= k < |a| ==> SameLetter(a[k], lit[k])
  }

  /** Position of the last '.' in `name`, or -1 (`lastIndexOf(".")`). */
  function LastDot(name: string): (i: int)
    ensures -1 <= i < |name|
    ensures i >= 0 ==> name[i] == '.'
    ensures forall k :: i < k < |name| ==> name[k] != '.'
  {
    if |name| == 0 then -1
    else if name[|name| - 1] == '.' then |name| - 1
    else LastDot(name[..|name| - 1])
  }

  /** The text after the last '.', or the whole name when it has none. */
  function Extension(name: string): (e: string)
    ensures '.' !in e
    ensures LastDot(name) == -1 ==> e == name
    ensures LastDot(name) >= 0 ==> name == name[..LastDot(name)] + "." + e
  {
    name[LastDot(name) + 1..]
  }

  predicate IsImageExtension(e: string)
  {
    EqualsIgnoreCase(e, "jpg") || EqualsIgnoreCase(e, "png") || EqualsIgnoreCase(e, "jpeg") ||
    EqualsIgnoreCase(e, "gif") || EqualsIgnoreCase(e, "tiff") || EqualsIgnoreCase(e, "dcm")
  }

  /** `getFileType`: FOLDER for a directory whatever its name, IMAGE for the accepted image
      extensions, MODEL for ".model", OTHERFILETYPE otherwise. */
  function GetFileType(name: string, isDirectory: bool): (t: int)
    ensures FOLDER <= t <= OTHERFILETYPE
    ensures t == FOLDER <==> isDirectory
    ensures t == IMAGE <==> !isDirectory && IsImageExtension(Extension(name))
    ensures t == MODEL <==> !isDirectory && EqualsIgnoreCase(Extension(name), "model")
  {
    var extension := Extension(name);
    if isDirectory then FOLDER
    else if IsImageExtension(extension) then ImageIsNotModel(extension); IMAGE
    else if EqualsIgnoreCase(extension, "model") then MODEL
    else OTHERFILETYPE
  }

  /** The accepted image extensions are three or four letters long, so none of them is
      "model" up to case. */
  lemma ImageIsNotModel(e: string)
    requires IsImageExtension(e)
    ensures !EqualsIgnoreCase(e, "model")
  {
    assert |e| <= 4;
  }

  /** A letter that matches 't' is an ASCII 't' in either case, so it matches none of the
      first letters of the image extensions of three letters. */
  lemma NotTifLetter(c: char)
    requires SameLetter(c, 't')
    ensures !SameLetter(c, 'j') && !SameLetter(c, 'p') && !SameLetter(c, 'g') && !SameLetter(c, 'd')
  {
    assert c == 't' || c == 'T';
  }

  /** An extension equal to "tif" up to case is none of the accepted ones. */
  lemma TifExtension(e: string)
    requires EqualsIgnoreCase(e, "tif")
    ensures !IsImageExtension(e) && !EqualsIgnoreCase(e, "model")
  {
    assert SameLetter(e[0], "tif"[0]);
    NotTifLetter(e[0]);
    assert "jpg"[0] == 'j' && "png"[0] == 'p' && "gif"[0] == 'g' && "dcm"[0] == 'd';
  }

  /** A ".tif" extension, in any case, is not an accepted image extension: such a file is of
      another type, and a directory with that name is a folder. */
  lemma TifIsNotAnImage(name: string)
    requires EqualsIgnoreCase(Extension(name), "tif")
    ensures GetFileType(name, false) == OTHERFILETYPE
    ensures GetFileType(name, true) == FOLDER
  {
    var e := Extension(name);
    TifExtension(e);
    var t := GetFileType(name, false);
    assert t != IMAGE;
    assert t != MODEL;
  }

  /** The case-insensitive match is Java's, not ASCII's: ".gıf" with a dotless i is an
      accepted image extension. */
  lemma DotlessIIsAnImage()
    ensures GetFileType("scan.g\U{131}f", false) == IMAGE
  {
    var name := "scan.g\U{131}f";
    assert name[..5] == "scan." && name[5..] == "g\U{131}f";
    assert LastDot(name) == 4 by {
      assert name[7] != '.' && name[6] != '.' && name[5] != '.' && name[4] == '.';
      assert name[..7][..6][..5] == name[..5];
    }
    var e := Extension(name);
    assert e == "g\U{131}f";
    assert SameLetter(e[0], "gif"[0]) && SameLetter(e[1], "gif"[1]) && SameLetter(e[2], "gif"[2]);
    assert EqualsIgnoreCase(e, "gif");
  }

  /** Extension matching ignores case: an upper-case ".MODEL" is a model file. */
  lemma ModelExtensionAnyCase(name: string)
    requires Extension(name) == "MODEL"
    ensures GetFileType(name, false) == MODEL
  {
    var e := Extension(name);
    assert EqualsIgnoreCase(e, "model");
    assert !EqualsIgnoreCase(e, "jpg") && !EqualsIgnoreCase(e, "png") && !EqualsIgnoreCase(e, "gif");
    assert !EqualsIgnoreCase(e, "dcm") && !EqualsIgnoreCase(e, "tiff");
    assert !EqualsIgnoreCase(e, "jpeg");
  }
}
