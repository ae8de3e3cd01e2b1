/** The type icon (src/components/atoms/FileIcon.jsx): two chains of tests
    on the MIME string, one picking the icon and one the colour, where the
    first test that matches decides. */
module FileIcon {
  import opened Common

  /** The eight tests, in the order both chains apply them; 8 means none
      matched. */
  function RuleIndex(t: string): (k: nat)
    ensures k <= 8
  {
    if StartsWith(t, "image/") then 0
    else if StartsWith(t, "video/") then 1
    else if StartsWith(t, "audio/") then 2
    else if t == "application/pdf" then 3
    else if Contains(t, "zip") || Contains(t, "rar") then 4
    else if Contains(t, "word") then 5
    else if Contains(t, "sheet") || Contains(t, "excel") then 6
    else if Contains(t, "presentation") || Contains(t, "powerpoint") then 7
    else 8
  }

  /** The icon each rule gives, by rule index. */
  const Icons: seq<string> :=
    ["Image", "Video", "Music", "FileText", "Archive", "FileText", "Calculator", "Presentation", "File"]

  /** The colour class each rule gives, by rule index. */
  const Colors: seq<string> :=
    ["text-green-400", "text-red-400", "text-purple-400", "text-red-500", "text-yellow-400",
     "text-blue-400", "text-green-500", "text-orange-400", "text-surface-400"]

  /** `getIconForType`. */
  function IconForType(t: string): (icon: string)
    ensures icon == Icons[RuleIndex(t)]
  {
    if StartsWith(t, "image/") then "Image"
    else if StartsWith(t, "video/") then "Video"
    else if StartsWith(t, "audio/") then "Music"
    else if t == "application/pdf" then "FileText"
    else if Contains(t, "zip") || Contains(t, "rar") then "Archive"
    else if Contains(t, "word") then "FileText"
    else if Contains(t, "sheet") || Contains(t, "excel") then "Calculator"
    else if Contains(t, "presentation") || Contains(t, "powerpoint") then "Presentation"
    else "File"
  }

  /** `getColorForType`. */
  function ColorForType(t: string): (color: string)
    ensures color == Colors[RuleIndex(t)]
  {
    if StartsWith(t, "image/") then "text-green-400"
    else if StartsWith(t, "video/") then "text-red-400"
    else if StartsWith(t, "audio/") then "text-purple-400"
    else if t == "application/pdf" then "text-red-500"
    else if Contains(t, "zip") || Contains(t, "rar") then "text-yellow-400"
    else if Contains(t, "word") then "text-blue-400"
    else if Contains(t, "sheet") || Contains(t, "excel") then "text-green-500"
    else if Contains(t, "presentation") || Contains(t, "powerpoint") then "text-orange-400"
    else "text-surface-400"
  }

  /** The colour alone tells which rule fired, so the two chains never pick
      different branches for the same type. */
  lemma ColorDeterminesRule(t: string, u: string)
    requires ColorForType(t) == ColorForType(u)
    ensures RuleIndex(t) == RuleIndex(u)
  {
    var i, j := RuleIndex(t), RuleIndex(u);
    assert Colors[i] == Colors[j];
    assert forall a, b :: 0 <= a < b < |Colors| ==> Colors[a] != Colors[b];
  }

  /** The first rule wins: an `image/` type is an image whatever else it
      contains. */
  lemma ImageWins(t: string)
    requires StartsWith(t, "image/")
    ensures IconForType(t) == "Image" && ColorForType(t) == "text-green-400"
  {
  }

  /** The fallback applies exactly when no test matches. */
  lemma FallbackIffNoRule(t: string)
    ensures IconForType(t) == "File" <==> RuleIndex(t) == 8
    ensures ColorForType(t) == "text-surface-400" <==> RuleIndex(t) == 8
  {
    assert forall a :: 0 <= a < 8 ==> Icons[a] != "File";
    assert forall a :: 0 <= a < 8 ==> Colors[a] != "text-surface-400";
  }

  /** `application/pdf` is a red document. */
  lemma PdfRule()
    ensures IconForType("application/pdf") == "FileText" && ColorForType("application/pdf") == "text-red-500"
  {
    var pdf := "application/pdf";
    assert pdf[0] == 'a' && pdf[1] == 'p';
  }

  /** A type that fails the first three tests and is not `application/pdf`
      goes to the zip/rar test and, failing that, the `word` test. */
  lemma AfterPrefixTests(t: string)
    requires !StartsWith(t, "image/") && !StartsWith(t, "video/") && !StartsWith(t, "audio/")
    requires t != "application/pdf"
    ensures Contains(t, "zip") ==> IconForType(t) == "Archive" && ColorForType(t) == "text-yellow-400"
    ensures !Contains(t, "zip") && !Contains(t, "rar") && Contains(t, "word") ==>
              IconForType(t) == "FileText" && ColorForType(t) == "text-blue-400"
  {
  }

  lemma {:induction false} NotPrefixed(t: string)
    requires |t| > 1 && t[0] == 'a' && t[1] == 'p'
    ensures !StartsWith(t, "image/") && !StartsWith(t, "video/") && !StartsWith(t, "audio/")
  {
  }

  /** What the tests see in `application/msword`. */
  lemma WordFacts(doc: string)
    requires doc == "application/msword"
    ensures !Contains(doc, "zip") && !Contains(doc, "rar") && Contains(doc, "word")
  {
    NotContains(doc, "zip");
    NotContains(doc, "rar");
    ContainsAt(doc, "word", 14);
  }

  /** A Word type is a document too, but blue: the `word` test is reached
      only after the zip/rar test fails. */
  lemma WordRule(doc: string)
    requires doc == "application/msword"
    ensures IconForType(doc) == "FileText" && ColorForType(doc) == "text-blue-400"
  {
    WordFacts(doc);
    NotPrefixed(doc);
    assert doc != "application/pdf" by {
      assert |doc| != |"application/pdf"|;
    }
    AfterPrefixTests(doc);
  }

  /** What the tests see in the two zip types. */
  lemma ZipFacts()
    ensures Contains("application/zip", "zip")
    ensures Contains("application/x-zip-compressed", "zip")
  {
    ContainsAt("application/zip", "zip", 12);
    ContainsAt("application/x-zip-compressed", "zip", 14);
  }

  /** Both zip types are archives. */
  lemma ZipRule(z: string, x: string)
    requires z == "application/zip" && x == "application/x-zip-compressed"
    ensures IconForType(z) == "Archive" && IconForType(x) == "Archive"
  {
    ZipFacts();
    NotPrefixed(z);
    NotPrefixed(x);
    assert z != "application/pdf" by {
      assert z[12] != "application/pdf"[12];
    }
    assert x != "application/pdf" by {
      assert |x| != |"application/pdf"|;
    }
    AfterPrefixTests(z);
    AfterPrefixTests(x);
  }

  /** A `video/` type that mentions zip is still a video. */
  lemma VideoBeforeZip()
    ensures IconForType("video/zip") == "Video"
  {
    var v := "video/zip";
    assert v[0] == 'v';
    assert StartsWith(v, "video/");
  }
}
