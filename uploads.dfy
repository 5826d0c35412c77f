/** The upload filename check `allowed_file`. */
module Uploads {
  import opened Wrappers
  import opened PyText
  import Config

  /** `name[i]` is the last `.` of `name`. */
  predicate IsLastDot(name: string, i: nat) {
    i < |name| && name[i] == '.' && forall q :: i < q < |name| ==> name[q] != '.'
  }

  /** `ext.lower() in ALLOWED_EXTENSIONS`. */
  predicate AllowedExtension(ext: string) {
    Lower(ext) in Config.AllowedExtensions
  }

  /**
   * `a` spells `w` up to case: the same length, and each character of `a`
   * is that of `w` or, where `w` has a lower-case letter, its upper case.
   */
  predicate SameIgnoringCase(a: string, w: string) {
    |a| == |w| &&
    forall q :: 0 <= q < |a| ==>
      a[q] == w[q] || ('a' <= w[q] <= 'z' && a[q] as int == w[q] as int - 32)
  }

  /** Lower-casing `a` gives a word without upper-case letters exactly when
      `a` spells that word up to case. */
  lemma LowerIffSameIgnoringCase(a: string, w: string)
    requires forall q :: 0 <= q < |w| ==> !('A' <= w[q] <= 'Z')
    ensures Lower(a) == w <==> SameIgnoringCase(a, w)
  {
  }

  /** An extension is allowed exactly when it spells one of the configured
      extensions in any mix of upper and lower case. */
  lemma AllowedExtensionIgnoresCase(ext: string)
    ensures AllowedExtension(ext) <==>
            exists w :: w in Config.AllowedExtensions && SameIgnoringCase(ext, w)
  {
    forall w | w in Config.AllowedExtensions
      ensures Lower(ext) == w <==> SameIgnoringCase(ext, w)
    {
      LowerIffSameIgnoringCase(ext, w);
    }
  }

  /** Index of the last `.` in `name`, if there is one. */
  function LastDot(name: string): (r: Option<nat>)
    ensures r.None? <==> forall q :: 0 <= q < |name| ==> name[q] != '.'
    ensures r.Some? ==> IsLastDot(name, r.value)
  {
    if name == [] then None
    else if name[|name| - 1] == '.' then Some(|name| - 1)
    else LastDot(name[..|name| - 1])
  }

  /** A name has at most one last dot. */
  lemma LastDotUnique(name: string, i: nat, j: nat)
    requires IsLastDot(name, i) && IsLastDot(name, j)
    ensures i == j
  {
  }

  /**
   * `allowed_file(filename)`: the name contains a dot and what follows the
   * last dot, lower-cased, is one of the allowed extensions.
   */
  function AllowedFile(name: string): (r: bool)
    ensures r <==> exists i :: IsLastDot(name, i) && AllowedExtension(name[i + 1..])
  {
    match LastDot(name)
    case None => false
    case Some(i) =>
      assert forall j :: IsLastDot(name, j) ==> j == i by {
        forall j | IsLastDot(name, j)
          ensures j == i
        {
          LastDotUnique(name, i, j);
        }
      }
      AllowedExtension(name[i + 1..])
  }

  /** A bare extension has no dot and is refused. */
  lemma BareExtensionRefused()
    ensures !AllowedFile("png")
  {
    assert LastDot("png") == None;
  }

  /** Only the text after the last dot counts, compared case-insensitively. */
  lemma LastExtensionLowerCased()
    ensures AllowedFile("a.b.PNG")
  {
    var name := "a.b.PNG";
    assert name[3] == '.' && name[4..] == "PNG";
    assert Lower("PNG") == "png";
  }

  /** An allowed extension followed by another one is refused. */
  lemma InnerExtensionIgnored()
    ensures !AllowedFile("photo.png.exe")
  {
    var name := "photo.png.exe";
    assert name[9] == '.' && name[10..] == "exe";
    assert LastDot(name) == Some(9);
    assert Lower("exe") == "exe";
  }
}
