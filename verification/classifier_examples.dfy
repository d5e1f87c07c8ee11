/**
 Concrete file names: some on which the `.*.ext` patterns behave differently
 from an "ends with .ext" test, and some on which they agree with it, showing
 the precedence of video over photo, the missing `.sav` case and that case
 does not matter.
 */
module ClassifierExamples {
  import opened AsciiCase
  import opened Classifier

  /** The pattern is not anchored at the end: text after the extension is ignored. */
  lemma TrailingTextStillVideo()
    ensures Classify("a.mp4.bak") == Video
  {
    var s := "a.mp4.bak";
    assert LowerStr(s) == s;
    assert MatchesAt(s, VideoExtensions[0], 2);
    ClassifyIff(s);
  }

  /** The second `.` of the pattern is a wildcard, so no literal dot is needed. */
  lemma WildcardDotStillVideo()
    ensures Classify("xmp4") == Video
  {
    var s := "xmp4";
    assert LowerStr(s) == s;
    assert MatchesAt(s, VideoExtensions[0], 1);
    ClassifyIff(s);
  }

  /** The bare extension has nothing in front of it and is of unknown format. */
  lemma BareExtensionUnknown()
    ensures Classify("mp4") == Unknown
  {
    ShortNameUnknown("mp4");
  }

  /** A name that both sets match is routed to the video branch only. */
  lemma VideoTakesPrecedence()
    ensures IsVideoFile("x.mp4.jpg") && IsPhotoFile("x.mp4.jpg")
    ensures Classify("x.mp4.jpg") == Video
  {
    var s := "x.mp4.jpg";
    assert LowerStr(s) == s;
    assert MatchesAt(s, VideoExtensions[0], 2);
    assert MatchesAt(s, PhotoExtensions[0], 6);
    FileTestsIff(s);
  }

  /** Camera status files (`.sav`) have no special case and are of unknown format. */
  lemma SavFileUnknown()
    ensures Classify("C.sav") == Unknown
  {
    var s := LowerStr("C.sav");
    assert s == "c.sav";
    forall e, i | e in VideoExtensions + PhotoExtensions && 1 <= i <= |s|
      ensures !MatchesAt(s, e, i)
    {
      if i == 1 {
        assert s[1..4] == ".sa";
      } else if i == 2 {
        assert s[2..5] == "sav";
      }
    }
    assert forall j | 0 <= j < |VideoExtensions| :: VideoExtensions[j] in VideoExtensions + PhotoExtensions;
    assert forall j | 0 <= j < |PhotoExtensions| :: PhotoExtensions[j] in VideoExtensions + PhotoExtensions;
    ClassifyIff("C.sav");
  }

  /** `.` does not match a newline, so a newline before the extension hides it. */
  lemma NewlineHidesExtension()
    ensures Classify("a\nb.mp4") == Unknown
  {
    var s := "a\nb.mp4";
    assert LowerStr(s) == s;
    forall e, i | e in VideoExtensions + PhotoExtensions && 1 <= i <= |s|
      ensures !MatchesAt(s, e, i)
    {
      if i == 1 {
        assert s[1..1 + |e|][0] == '\n';
      } else {
        assert s[..i][1] == '\n';
      }
    }
    assert forall j | 0 <= j < |VideoExtensions| :: VideoExtensions[j] in VideoExtensions + PhotoExtensions;
    assert forall j | 0 <= j < |PhotoExtensions| :: PhotoExtensions[j] in VideoExtensions + PhotoExtensions;
    ClassifyIff(s);
  }

  /** A newline hides an extension only when it comes before it: here the
      first `mp4` precedes the newline, so the name is a video. */
  lemma NewlineAfterExtensionStillVideo()
    ensures Classify("x.mp4\ny.mp4") == Video
  {
    var s := "x.mp4\ny.mp4";
    assert LowerStr(s) == s;
    assert s[..2] == "x.";
    assert MatchesAt(s, VideoExtensions[0], 2);
    ClassifyIff(s);
  }

  /** An extension whose last character does not occur late enough in the
      name cannot match it. */
  lemma LastCharAbsentNoMatch(s: string, e: string)
    requires |e| > 0 && |s| >= |e| && e[|e| - 1] !in s[|e|..]
    ensures !ExtensionMatch(s, e)
  {
    forall i | 1 <= i <= |s| ensures !MatchesAt(s, e, i) {
      if i + |e| <= |s| {
        assert s[i..i + |e|][|e| - 1] == s[|e|..][i - 1];
      }
    }
  }

  /** A lower-case photo name that no video pattern matches. */
  lemma LowerCasePhoto()
    ensures Classify("img_0001.jpg") == Photo
  {
    var s := "img_0001.jpg";
    assert LowerStr(s) == s;
    assert MatchesAt(s, PhotoExtensions[0], 9);
    assert s[3..] == "_0001.jpg";
    LastCharAbsentNoMatch(s, VideoExtensions[0]);
    LastCharAbsentNoMatch(s, VideoExtensions[1]);
    LastCharAbsentNoMatch(s, VideoExtensions[2]);
    ClassifyIff(s);
  }

  /** Any spelling of that photo name that differs only in case is a photo too. */
  lemma CaseVariantIsPhoto(name: string)
    requires SameIgnoringCase(name, "img_0001.jpg")
    ensures Classify(name) == Photo
  {
    LowerCasePhoto();
    ClassifyIgnoresCase(name, "img_0001.jpg");
  }

  /** The upper-case and the mixed-case spellings. */
  lemma CaseVariantsArePhotos()
    ensures Classify("IMG_0001.JPG") == Photo
    ensures Classify("Img_0001.Jpg") == Photo
  {
    var upper, mixed := "IMG_0001.JPG", "Img_0001.Jpg";
    assert SameIgnoringCase(upper, "img_0001.jpg");
    assert SameIgnoringCase(mixed, "img_0001.jpg");
    CaseVariantIsPhoto(upper);
    CaseVariantIsPhoto(mixed);
  }
}
