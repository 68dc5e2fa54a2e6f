/**
 * `get_image_files`: keep, in listing order, the directory entries whose
 * extension, lower-cased, is one of the image extensions. The directory
 * listing itself is an input.
 */
module ImageFiles {
  import opened Paths

  const ImageExtensions: seq<string> := [".png", ".jpg", ".jpeg"]

  /** The filter's test on one name. */
  predicate IsImageFile(name: string)
  {
    Lower(Ext(name)) in ImageExtensions
  }

  /** `sub` is `s` with some elements removed and the rest in their original order. */
  ghost predicate IsSubsequence(sub: seq<string>, s: seq<string>)
    decreases |s|
  {
    if |sub| == 0 then true
    else if |s| == 0 then false
    else if sub[0] == s[0] then IsSubsequence(sub[1..], s[1..])
    else IsSubsequence(sub, s[1..])
  }

  /**
   * The filtered listing: every name it returns is an image file, it keeps
   * the listing's order, and an image file occurs in it exactly as often as
   * in the listing while any other name does not occur at all.
   */
  function GetImageFiles(listing: seq<string>): (r: seq<string>)
    ensures forall x :: x in r ==> IsImageFile(x)
    ensures IsSubsequence(r, listing)
    ensures forall x :: multiset(r)[x] == if IsImageFile(x) then multiset(listing)[x] else 0
    decreases |listing|
  {
    if |listing| == 0 then []
    else
      var rest := GetImageFiles(listing[1..]);
      assert listing == [listing[0]] + listing[1..];
      if IsImageFile(listing[0]) then
        assert ([listing[0]] + rest)[1..] == rest;
        [listing[0]] + rest
      else
        rest
  }

  /** Completeness, stated as membership: a listed image file is returned. */
  lemma {:induction false} ListedImagesAreKept(listing: seq<string>, x: string)
    requires x in listing && IsImageFile(x)
    ensures x in GetImageFiles(listing)
  {
    assert multiset(listing)[x] > 0;
  }

  /**
   * What `IsImageFile` means without `splitext`: the name ends, ignoring
   * ASCII case, with ".png", ".jpg" or ".jpeg", and the last path component
   * has a character other than a dot before that suffix.
   */
  ghost predicate HasImageSuffix(name: string)
  {
    exists e :: e in ImageExtensions && |e| <= |name|
      && Lower(name[|name| - |e|..]) == e
      && NonDotBefore(name, |name| - |e|)
  }

  lemma ImageExtensionShape(e: string)
    requires e in ImageExtensions
    ensures |e| > 0 && e[0] == ExtSep
    ensures forall j :: 1 <= j < |e| ==> e[j] != ExtSep && e[j] != Sep
  {
  }

  lemma {:induction false} IsImageFileIff(name: string)
    ensures IsImageFile(name) <==> HasImageSuffix(name)
  {
    if IsImageFile(name) {
      ImageFileHasSuffix(name);
    }
    if HasImageSuffix(name) {
      var e :| e in ImageExtensions && |e| <= |name|
        && Lower(name[|name| - |e|..]) == e
        && NonDotBefore(name, |name| - |e|);
      SuffixMakesImageFile(name, e);
    }
  }

  lemma ImageFileHasSuffix(name: string)
    requires IsImageFile(name)
    ensures HasImageSuffix(name)
  {
    var (root, ext) := SplitExt(name);
    var e := Lower(ext);
    ImageExtensionShape(e);
    assert ext != [];
    assert name[|name| - |e|..] == ext;
    assert IsExtensionAt(name, |root|);
  }

  lemma SuffixMakesImageFile(name: string, e: string)
    requires e in ImageExtensions && |e| <= |name|
    requires Lower(name[|name| - |e|..]) == e
    requires NonDotBefore(name, |name| - |e|)
    ensures IsImageFile(name)
  {
    ImageExtensionShape(e);
    var d := |name| - |e|;
    var tail := name[d..];
    forall j | d <= j < |name|
      ensures LowerChar(name[j]) == e[j - d]
    {
      assert tail[j - d] == name[j];
    }
    forall j | d <= j < |name|
      ensures (j == d <==> name[j] == ExtSep) && name[j] != Sep
    {
      LowerCharKeepsSeparators(name[j]);
    }
    assert IsExtensionAt(name, d);
    ExtAt(name, d);
  }

  /** The extension of a name, read off a position that qualifies as its start. */
  lemma ExtAt(p: string, d: int)
    requires IsExtensionAt(p, d)
    ensures Ext(p) == p[d..]
  {
    var (root, ext) := SplitExt(p);
    ExtensionPositionUnique(p, d, |root|);
  }

  /** Names whose only dots are leading ones have no extension, so they are never kept. */
  lemma {:induction false} DotfilesAreNotImages()
    ensures !IsImageFile(".png") && !IsImageFile("..jpg")
  {
    assert !IsExtensionAt(".png", 0);
    assert !IsExtensionAt("..jpg", 0);
    assert !IsExtensionAt("..jpg", 1) by {
      assert !NonDotBefore("..jpg", 1) by {
        assert forall i :: 0 <= i < 1 ==> "..jpg"[i] == ExtSep;
      }
    }
  }

  /** The listing from a folder holding two images and a text file. */
  lemma {:induction false} FilterScenario()
    ensures GetImageFiles(["x.jpg", "y.png", "z.txt"]) == ["x.jpg", "y.png"]
  {
    ScenarioVerdicts();
    FilterCons("z.txt", []);
    FilterCons("y.png", ["z.txt"]);
    FilterCons("x.jpg", ["y.png", "z.txt"]);
  }

  /** The filter's verdict on each name of the scenario. */
  lemma ScenarioVerdicts()
    ensures IsImageFile("x.jpg") && IsImageFile("y.png") && !IsImageFile("z.txt")
  {
    KeptJpg();
    KeptPng();
    DroppedTxt();
  }

  lemma KeptJpg() ensures IsImageFile("x.jpg")
  {
    NameTest("x.jpg", 1, 0, ".jpg");
  }

  lemma KeptPng() ensures IsImageFile("y.png")
  {
    NameTest("y.png", 1, 0, ".png");
  }

  lemma DroppedTxt() ensures !IsImageFile("z.txt")
  {
    NameTest("z.txt", 1, 0, ".txt");
  }

  /** One step of the filter: the head is kept exactly when it is an image file. */
  lemma FilterCons(x: string, rest: seq<string>)
    ensures GetImageFiles([x] + rest) == (if IsImageFile(x) then [x] else []) + GetImageFiles(rest)
  {
    assert ([x] + rest)[1..] == rest;
  }

  /** The extension test ignores case and looks at the last dot only. */
  lemma {:induction false} ExtensionScenarios()
    ensures IsImageFile("SCAN.JPEG") && IsImageFile(".hidden.png")
    ensures !IsImageFile("photo.png.bak")
  {
    KeptUpperCase();
    KeptAfterLeadingDot();
    DroppedInnerExtension();
  }

  lemma KeptUpperCase() ensures IsImageFile("SCAN.JPEG")
  {
    NameTest("SCAN.JPEG", 4, 0, ".jpeg");
  }

  lemma KeptAfterLeadingDot() ensures IsImageFile(".hidden.png")
  {
    NameTest(".hidden.png", 7, 1, ".png");
  }

  lemma DroppedInnerExtension() ensures !IsImageFile("photo.png.bak")
  {
    NameTest("photo.png.bak", 9, 0, ".bak");
  }

  /** For a concrete name: the filter's test is whether its lower-cased extension is an image one. */
  lemma NameTest(p: string, d: int, w: int, lowered: string)
    requires 0 <= w < d < |p| && p[d] == ExtSep && p[w] != ExtSep
    requires forall j :: 0 <= j < |p| ==> p[j] != Sep
    requires forall j :: d < j < |p| ==> p[j] != ExtSep
    requires Lower(p[d..]) == lowered
    ensures IsImageFile(p) <==> lowered in ImageExtensions
  {
    ShowExt(p, d, w);
  }

  /** For a concrete name: the last dot, preceded by a non-dot, starts the extension. */
  lemma ShowExt(p: string, d: int, w: int)
    requires 0 <= w < d < |p| && p[d] == ExtSep && p[w] != ExtSep
    requires forall j :: 0 <= j < |p| ==> p[j] != Sep
    requires forall j :: d < j < |p| ==> p[j] != ExtSep
    ensures Ext(p) == p[d..]
  {
    assert NoSepIn(p, w, d);
    ExtAt(p, d);
  }
}
