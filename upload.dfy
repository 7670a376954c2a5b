/**
 * The upload-name check of the `/color` endpoint: a file is accepted only when
 * its name has an extension, and that extension, lower-cased, is one of the
 * allowed image types.
 */
module Upload {
  import opened Wrappers

  /** The allowed extensions, written in lower case. */
  const AllowedExtensions: set<string> := {"png", "jpg", "jpeg", "webp"}

  /** Lower-cases an ASCII capital letter; every other character is kept. */
  function LowerChar(c: char): (r: char)
    ensures !('A' <= r <= 'Z')
    ensures 'A' <= c <= 'Z' ==> 'a' <= r <= 'z' && r as int - 'a' as int == c as int - 'A' as int
    ensures !('A' <= c <= 'Z') ==> r == c
  {
    if 'A' <= c <= 'Z' then (c as int - 'A' as int + 'a' as int) as char else c
  }

  /** Lower-cases every ASCII capital letter of `s`, position by position. */
  function Lower(s: string): (r: string)
    ensures |r| == |s|
    ensures forall i :: 0 <= i < |s| ==> !('A' <= r[i] <= 'Z')
    ensures forall i :: 0 <= i < |s| && !('A' <= s[i] <= 'Z') ==> r[i] == s[i]
    ensures forall i :: 0 <= i < |s| && 'A' <= s[i] <= 'Z' ==>
              r[i] as int == s[i] as int - 'A' as int + 'a' as int
  {
    seq(|s|, i requires 0 <= i < |s| => LowerChar(s[i]))
  }

  /** Lower-casing never introduces or removes a dot, and is idempotent. */
  lemma LowerKeepsDotsAndIsIdempotent(s: string)
    ensures |Lower(s)| == |s|
    ensures '.' in Lower(s) <==> '.' in s
    ensures Lower(Lower(s)) == Lower(s)
  {
    if '.' in Lower(s) {
      var i :| 0 <= i < |s| && Lower(s)[i] == '.';
      assert s[i] == '.';
    }
    if '.' in s {
      var i :| 0 <= i < |s| && s[i] == '.';
      assert Lower(s)[i] == '.';
    }
  }

  /** `i` is the position of the last '.' in `s`. */
  predicate IsLastDot(s: string, i: int) {
    0 <= i < |s| && s[i] == '.' && forall j :: i < j < |s| ==> s[j] != '.'
  }

  /** A string has at most one last dot. */
  lemma LastDotUnique(s: string, i: int, j: int)
    requires IsLastDot(s, i) && IsLastDot(s, j)
    ensures i == j
  {
  }

  /** Text without capital letters is its own lower-case form. */
  lemma LowerOfNoCapitals(s: string)
    requires forall i :: 0 <= i < |s| ==> !('A' <= s[i] <= 'Z')
    ensures Lower(s) == s
  {
  }

  /**
   * The position of the last '.' in `s`: the place where a right split at
   * most once on "." cuts the name; None when `s` has no dot at all.
   */
  function LastDot(s: string): (r: Option<nat>)
    ensures r.None? <==> forall j :: 0 <= j < |s| ==> s[j] != '.'
    ensures r.Some? ==> IsLastDot(s, r.value)
  {
    if s == [] then None
    else if s[|s| - 1] == '.' then Some(|s| - 1)
    else LastDot(s[..|s| - 1])
  }

  /** `LastDot` finds the one and only last dot, if there is one. */
  lemma LastDotIsOnlyLastDot(name: string)
    ensures forall i :: IsLastDot(name, i) <==> LastDot(name) == Some(i)
    ensures '.' !in name ==> LastDot(name).None?
  {
    forall i | IsLastDot(name, i) ensures LastDot(name) == Some(i) {
      LastDotUnique(name, i, LastDot(name).value);
    }
  }

  /**
   * The upload-name check: the name contains a dot, and the text after the
   * last dot, lower-cased, is an allowed extension.
   */
  function AllowedFile(name: string): (ok: bool)
    ensures '.' !in name ==> !ok
    ensures ok <==> exists i :: IsLastDot(name, i) && Lower(name[i + 1..]) in AllowedExtensions
  {
    LastDotIsOnlyLastDot(name);
    match LastDot(name)
    case None => false
    case Some(d) => Lower(name[d + 1..]) in AllowedExtensions
  }

  /**
   * Only the extension decides: whatever precedes the last dot (including
   * further dots) plays no part in the verdict.
   */
  lemma VerdictDependsOnExtensionOnly(stem: string, ext: string)
    requires '.' !in ext
    ensures AllowedFile(stem + "." + ext) <==> Lower(ext) in AllowedExtensions
  {
    var name := stem + "." + ext;
    assert IsLastDot(name, |stem|) by {
      forall j | |stem| < j < |name| ensures name[j] != '.' {
        assert name[j] == ext[j - |stem| - 1];
      }
    }
    assert name[|stem| + 1..] == ext;
  }

  /**
   * The comparison ignores the case of the extension: two extensions that
   * lower-case to the same text get the same verdict, whatever the stems.
   */
  lemma ExtensionCaseInsensitive(stem1: string, ext1: string, stem2: string, ext2: string)
    requires '.' !in ext1 && '.' !in ext2
    requires Lower(ext1) == Lower(ext2)
    ensures AllowedFile(stem1 + "." + ext1) == AllowedFile(stem2 + "." + ext2)
  {
    VerdictDependsOnExtensionOnly(stem1, ext1);
    VerdictDependsOnExtensionOnly(stem2, ext2);
  }

  /** Names with an upper-case or mixed-case allowed extension are accepted. */
  lemma UpperCaseExtensionAccepted(stem: string, ext: string)
    requires '.' !in ext
    requires Lower(ext) in AllowedExtensions
    ensures AllowedFile(stem + "." + ext)
    ensures AllowedFile(stem + "." + Lower(ext))
  {
    LowerKeepsDotsAndIsIdempotent(ext);
    VerdictDependsOnExtensionOnly(stem, ext);
    VerdictDependsOnExtensionOnly(stem, Lower(ext));
  }

  /** An upper-case allowed extension is accepted. */
  lemma ExampleUpperCase()
    ensures AllowedFile("photo.PNG")
  {
    assert "photo.PNG" == "photo" + "." + "PNG";
    assert Lower("PNG") == "png";
    VerdictDependsOnExtensionOnly("photo", "PNG");
  }

  /** A name that is only a dot and an extension is accepted. */
  lemma ExampleBareExtension()
    ensures AllowedFile(".webp")
  {
    assert ".webp" == "" + "." + "webp";
    LowerOfNoCapitals("webp");
    VerdictDependsOnExtensionOnly("", "webp");
  }

  /** A name without a dot is rejected even when it spells an extension. */
  lemma ExampleNoDot()
    ensures !AllowedFile("png")
  {
  }

  /** Only the text after the last dot counts. */
  lemma ExampleDoubleExtension()
    ensures !AllowedFile("photo.png.exe")
  {
    var stem, ext := "photo.png", "exe";
    LowerOfNoCapitals(ext);
    assert Lower(ext) !in AllowedExtensions;
    VerdictDependsOnExtensionOnly(stem, ext);
    assert stem + "." + ext == "photo.png.exe";
  }

  /** A trailing dot leaves an empty extension, which is rejected. */
  lemma ExampleTrailingDot()
    ensures !AllowedFile("photo.")
  {
    assert "photo." == "photo" + "." + "";
    VerdictDependsOnExtensionOnly("photo", "");
  }
}
