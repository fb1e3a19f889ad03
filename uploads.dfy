/**
 * Which uploads the converter accepts: allowed_filename, a case-insensitive
 * test of the file name's ending against a fixed set of extensions.
 */
module Uploads {
  import opened Wrappers
  import opened Text

  /** ALLOWED_EXTENSIONS. */
  const AllowedExtensions: set<string> := {".jpg", ".jpeg", ".png"}

  /** Each allowed extension is a dot followed by at least three dot-free characters. */
  lemma AllowedExtensionsShape()
    ensures |AllowedExtensions| == 3
    ensures forall ext | ext in AllowedExtensions :: |ext| >= 4 && ext[0] == '.' && '.' !in ext[1..]
  {
    assert ".jpg" != ".png" && ".jpg" != ".jpeg" && ".jpeg" != ".png";
  }

  /** allowed_filename: the lower-cased name ends with one of the allowed extensions. */
  predicate AllowedFilename(filename: string)
  {
    exists ext | ext in AllowedExtensions :: EndsWith(Lower(filename), ext)
  }

  /**
   * The text after the last dot of a name, or None when the name has no dot:
   * an independent description of "the extension" to compare AllowedFilename with.
   */
  function FinalExtension(name: string): (ext: Option<string>)
    ensures ext.None? <==> '.' !in name
    ensures ext.Some? ==> |ext.value| < |name| && name[|name| - |ext.value| - 1] == '.'
                          && name[|name| - |ext.value|..] == ext.value && '.' !in ext.value
    decreases |name|
  {
    if name == [] then None
    else
      var last := name[|name| - 1];
      var init := name[..|name| - 1];
      assert name == init + [last];
      if last == '.' then Some([])
      else match FinalExtension(init)
        case None => None
        case Some(e) => Some(e + [last])
  }

  /** A dot followed by the n dot-free last characters puts those characters at the final extension. */
  lemma FinalExtensionAt(name: string, n: nat)
    requires n < |name| && name[|name| - n - 1] == '.' && '.' !in name[|name| - n..]
    ensures FinalExtension(name) == Some(name[|name| - n..])
  {
    var e := FinalExtension(name).value;
    assert |e| == n;
  }

  /** Where the lower-cased name ends with "." + x (x dot-free), the name has its last dot just before the final |x| characters. */
  lemma EndsWithDotFreeTail(name: string, x: string)
    requires '.' !in x && EndsWith(Lower(name), "." + x)
    ensures |x| < |name| && name[|name| - |x| - 1] == '.' && '.' !in name[|name| - |x|..]
    ensures Lower(name[|name| - |x|..]) == x
  {
    var low := Lower(name);
    var suf := "." + x;
    var i := |name| - |x| - 1;
    assert low[i..] == suf;
    assert low[i] == suf[0] == '.';
    LowerCharDot(name[i]);
    var tail := name[i + 1..];
    forall k | 0 <= k < |tail| ensures tail[k] != '.' {
      assert low[i + 1 + k] == suf[k + 1] == x[k];
      LowerCharDot(name[i + 1 + k]);
    }
    LowerSuffix(name, i + 1);
    assert suf[1..] == x;
  }

  /** Conversely, a final extension that lower-cases to x makes the lower-cased name end with "." + x. */
  lemma ExtensionEndsWith(name: string, x: string)
    requires FinalExtension(name).Some? && Lower(FinalExtension(name).value) == x
    ensures EndsWith(Lower(name), "." + x)
  {
    var e := FinalExtension(name).value;
    var i := |name| - |e| - 1;
    var low := Lower(name);
    LowerSuffix(name, i + 1);
    LowerCharDot(name[i]);
    assert low[i] == '.';
    assert low[i..] == [low[i]] + low[i + 1..];
  }

  /**
   * For dot-free x, the lower-cased name ends with "." + x exactly when its
   * final extension lower-cases to x.
   */
  lemma EndsWithExtension(name: string, x: string)
    requires '.' !in x
    ensures EndsWith(Lower(name), "." + x)
        <==> FinalExtension(name).Some? && Lower(FinalExtension(name).value) == x
  {
    if EndsWith(Lower(name), "." + x) {
      EndsWithDotFreeTail(name, x);
      FinalExtensionAt(name, |x|);
    }
    if FinalExtension(name).Some? && Lower(FinalExtension(name).value) == x {
      ExtensionEndsWith(name, x);
    }
  }

  /**
   * Only the final suffix matters: a name is accepted exactly when it has a
   * dot and the text after its last dot is "jpg", "jpeg" or "png" in any
   * mixture of cases.
   */
  lemma AllowedIffFinalExtension(name: string)
    ensures AllowedFilename(name)
        <==> FinalExtension(name).Some? && Lower(FinalExtension(name).value) in {"jpg", "jpeg", "png"}
  {
    EndsWithExtension(name, "jpg");
    EndsWithExtension(name, "jpeg");
    EndsWithExtension(name, "png");
    assert "." + "jpg" == ".jpg" && "." + "jpeg" == ".jpeg" && "." + "png" == ".png";
    if EndsWith(Lower(name), ".jpg") {
      assert ".jpg" in AllowedExtensions;
    }
    if EndsWith(Lower(name), ".jpeg") {
      assert ".jpeg" in AllowedExtensions;
    }
    if EndsWith(Lower(name), ".png") {
      assert ".png" in AllowedExtensions;
    }
  }

  /** The test ignores case: a name and its lower-cased form are accepted alike. */
  lemma AllowedCaseInsensitive(name: string)
    ensures AllowedFilename(Lower(name)) == AllowedFilename(name)
  {
    LowerIdempotent(name);
  }

  /** Upper-case and mixed-case names are accepted, and so is a bare extension. */
  lemma AcceptedExamples()
    ensures AllowedFilename("PHOTO.JPG") && AllowedFilename("a.PnG") && AllowedFilename(".jpeg")
  {
    assert EndsWith(Lower("PHOTO.JPG"), ".jpg");
    assert EndsWith(Lower("a.PnG"), ".png");
    assert EndsWith(Lower(".jpeg"), ".jpeg");
  }

  /** A later suffix hides an allowed one, and a name without a dot is refused. */
  lemma RejectedExamples()
    ensures !AllowedFilename("x.png.txt") && !AllowedFilename("jpg") && !AllowedFilename("")
  {
    AllowedIffFinalExtension("x.png.txt");
    FinalExtensionAt("x.png.txt", 3);
    assert "x.png.txt"[6..] == "txt";
    assert Lower("txt") == "txt";
    AllowedIffFinalExtension("jpg");
    AllowedIffFinalExtension("");
  }
}
