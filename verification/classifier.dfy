/**
 The file-name classifier of the camera importer: `is_video_file`,
 `is_photo_file` and the three-way choice that `main` makes for every file.

 Each test lower-cases the name and tries the kind's regular expressions one
 after another with `re.match`, stopping at the first that matches. The
 patterns all have the shape `.*.ext`, which does NOT mean "ends in .ext":
 `re.match` anchors only at the start, the second `.` is a wildcard, and
 nothing anchors the end. `ExtensionMatch` states in closed form what such a
 pattern accepts, and `ExtensionPatternMatch` proves it equal to the regular
 expression semantics of the `Regex` module.
 */
module Classifier {
  import opened AsciiCase
  import opened Regex

  /** The regular expressions of the source, verbatim. */
  const VideoPatterns: seq<string> := [".*.mp4", ".*.thm", ".*.lrv"]
  const PhotoPatterns: seq<string> := [".*.jpg", ".*.gpr"]

  /** The literal tail of each pattern, in the same order. */
  const VideoExtensions: seq<string> := ["mp4", "thm", "lrv"]
  const PhotoExtensions: seq<string> := ["jpg", "gpr"]

  datatype Kind = Video | Photo | Unknown

  /** `re.match(pattern, s, re.M | re.I)` succeeds. A pattern outside the
      supported fragment is treated as never matching. */
  predicate PatternMatches(pattern: string, s: string) {
    match Compile(pattern)
    case Some(tokens) => MatchPrefix(tokens, s)
    case None => false
  }

  /** The loop of `is_video_file` / `is_photo_file`: try each pattern in
      order and return true at the first match, false when none matches. */
  function FirstMatch(patterns: seq<string>, s: string): (found: bool)
    ensures found <==> exists j | 0 <= j < |patterns| :: PatternMatches(patterns[j], s)
    decreases |patterns|
  {
    if patterns == [] then false
    else if PatternMatches(patterns[0], s) then true
    else
      var rest := FirstMatch(patterns[1..], s);
      assert forall j | 1 <= j < |patterns| :: patterns[j] == patterns[1..][j - 1];
      rest
  }

  predicate IsVideoFile(name: string) {
    FirstMatch(VideoPatterns, LowerStr(name))
  }

  predicate IsPhotoFile(name: string) {
    FirstMatch(PhotoPatterns, LowerStr(name))
  }

  /** The branch `main` takes for a file: the video test comes first, then photo,
      and everything else is reported as an unknown format. */
  function Classify(name: string): Kind {
    if IsVideoFile(name) then Video
    else if IsPhotoFile(name) then Photo
    else Unknown
  }

  // ---------------------------------------------------------------------
  // Closed form of what a pattern `.*.ext` accepts

  /** `.*.ext` can match with `ext` starting at index `i` of `s`: at least one
      character precedes it, and none of those characters is a newline. */
  predicate MatchesAt(s: string, ext: string, i: int) {
    1 <= i && i + |ext| <= |s| && s[i..i + |ext|] == ext && '\n' !in s[..i]
  }

  predicate ExtensionMatch(s: string, ext: string) {
    exists i | 1 <= i <= |s| :: MatchesAt(s, ext, i)
  }

  predicate MatchesAnyExtension(s: string, exts: seq<string>) {
    exists j | 0 <= j < |exts| :: ExtensionMatch(s, exts[j])
  }

  /** A valid extension: a non-empty lower-case literal run. */
  predicate IsExtension(ext: string) {
    |ext| > 0 && IsPlain(ext) && IsLowerStr(ext)
  }

  /** On a lower-cased subject, `re.match(".*." + ext, s)` succeeds exactly
      when `ext` occurs after at least one character with no newline before it. */
  lemma {:induction false} ExtensionPatternMatch(ext: string, s: string)
    requires IsExtension(ext) && IsLowerStr(s)
    ensures PatternMatches(".*." + ext, s) <==> ExtensionMatch(s, ext)
  {
    ExtensionPatternTokens(ext);
    var q := [Dot] + Lits(ext);
    assert [DotStar, Dot] + Lits(ext) == [DotStar] + q;
    assert PatternMatches(".*." + ext, s) == MatchPrefix([DotStar] + q, s);
    DotStarSplit(q, s);
    if k :| 0 <= k <= |s| && '\n' !in s[..k] && MatchPrefix(q, s[k..]) {
      SplitGivesMatchAt(ext, s, k);
    }
    if i :| 1 <= i <= |s| && MatchesAt(s, ext, i) {
      MatchAtGivesSplit(ext, s, i);
    }
  }

  lemma {:induction false} SplitGivesMatchAt(ext: string, s: string, k: nat)
    requires IsExtension(ext) && IsLowerStr(s)
    requires k <= |s| && '\n' !in s[..k] && MatchPrefix([Dot] + Lits(ext), s[k..])
    ensures k + 1 <= |s| && MatchesAt(s, ext, k + 1)
  {
    IsLowerStrDrop(s, k);
    DotLitsMatchPrefix(ext, s[k..]);
    assert s[k..][1..1 + |ext|] == s[k + 1..k + 1 + |ext|];
    assert s[..k + 1] == s[..k] + [s[k]];
  }

  lemma {:induction false} MatchAtGivesSplit(ext: string, s: string, i: int)
    requires IsExtension(ext) && IsLowerStr(s) && MatchesAt(s, ext, i)
    ensures '\n' !in s[..i - 1] && MatchPrefix([Dot] + Lits(ext), s[i - 1..])
  {
    var k := i - 1;
    assert s[..i] == s[..k] + [s[k]];
    IsLowerStrDrop(s, k);
    DotLitsMatchPrefix(ext, s[k..]);
    assert s[k..][1..1 + |ext|] == s[i..i + |ext|];
  }

  /** Trying a list of `.*.ext` patterns in order succeeds exactly when one of
      the extensions matches in closed form. */
  lemma FirstMatchExtensions(patterns: seq<string>, exts: seq<string>, s: string)
    requires |patterns| == |exts| && IsLowerStr(s)
    requires forall j | 0 <= j < |exts| :: IsExtension(exts[j]) && patterns[j] == ".*." + exts[j]
    ensures FirstMatch(patterns, s) <==> MatchesAnyExtension(s, exts)
  {
    forall j | 0 <= j < |exts|
      ensures PatternMatches(patterns[j], s) <==> ExtensionMatch(s, exts[j])
    {
      ExtensionPatternMatch(exts[j], s);
    }
  }

  /** Each constant pattern is `.*.` followed by its extension. */
  lemma PatternsAreExtensions()
    ensures forall j | 0 <= j < |VideoExtensions| ::
      IsExtension(VideoExtensions[j]) && VideoPatterns[j] == ".*." + VideoExtensions[j]
    ensures forall j | 0 <= j < |PhotoExtensions| ::
      IsExtension(PhotoExtensions[j]) && PhotoPatterns[j] == ".*." + PhotoExtensions[j]
  {
  }

  /** `is_video_file` and `is_photo_file` in closed form. */
  lemma FileTestsIff(name: string)
    ensures IsVideoFile(name) <==> MatchesAnyExtension(LowerStr(name), VideoExtensions)
    ensures IsPhotoFile(name) <==> MatchesAnyExtension(LowerStr(name), PhotoExtensions)
  {
    PatternsAreExtensions();
    FirstMatchExtensions(VideoPatterns, VideoExtensions, LowerStr(name));
    FirstMatchExtensions(PhotoPatterns, PhotoExtensions, LowerStr(name));
  }

  /** The three branches of `main` as a partition of all names, in closed form:
      every name gets exactly one kind, and video wins over photo. */
  lemma ClassifyIff(name: string)
    ensures Classify(name) == Video <==> MatchesAnyExtension(LowerStr(name), VideoExtensions)
    ensures Classify(name) == Photo <==>
      !MatchesAnyExtension(LowerStr(name), VideoExtensions)
      && MatchesAnyExtension(LowerStr(name), PhotoExtensions)
    ensures Classify(name) == Unknown <==>
      !MatchesAnyExtension(LowerStr(name), VideoExtensions)
      && !MatchesAnyExtension(LowerStr(name), PhotoExtensions)
  {
    FileTestsIff(name);
  }

  // ---------------------------------------------------------------------
  // Properties of the classifier

  /** The order of the patterns in a list does not change the outcome of the
      first-match loop: only which patterns are present matters. */
  lemma FirstMatchOrderIrrelevant(ps: seq<string>, qs: seq<string>, s: string)
    requires forall p :: p in ps <==> p in qs
    ensures FirstMatch(ps, s) == FirstMatch(qs, s)
  {
    if FirstMatch(ps, s) {
      var j :| 0 <= j < |ps| && PatternMatches(ps[j], s);
      assert ps[j] in qs;
      var j' :| 0 <= j' < |qs| && qs[j'] == ps[j];
    }
    if FirstMatch(qs, s) {
      var j :| 0 <= j < |qs| && PatternMatches(qs[j], s);
      assert qs[j] in ps;
      var j' :| 0 <= j' < |ps| && ps[j'] == qs[j];
    }
  }

  /** Classification ignores the case of the letters in a name. */
  lemma ClassifyIgnoresCase(a: string, b: string)
    requires SameIgnoringCase(a, b)
    ensures Classify(a) == Classify(b)
  {
    SameIgnoringCaseLowerEqual(a, b);
  }

  /** A name needs at least one character before a three-letter extension, so
      every name shorter than four characters is of unknown format. */
  lemma ShortNameUnknown(name: string)
    requires |name| < 4
    ensures Classify(name) == Unknown
  {
    ClassifyIff(name);
    var s := LowerStr(name);
    forall j, i | 0 <= j < |VideoExtensions| && 1 <= i <= |s|
      ensures !MatchesAt(s, VideoExtensions[j], i)
    {
    }
    forall j, i | 0 <= j < |PhotoExtensions| && 1 <= i <= |s|
      ensures !MatchesAt(s, PhotoExtensions[j], i)
    {
    }
  }

  /** A newline-free name whose lower-case form ends in a video extension is a video. */
  lemma EndsWithVideoExtension(name: string, j: nat)
    requires j < |VideoExtensions| && '\n' !in name
    requires EndsWithDotExt(LowerStr(name), VideoExtensions[j])
    ensures Classify(name) == Video
  {
    EndsWithMatches(LowerStr(name), VideoExtensions[j]);
    ClassifyIff(name);
  }

  /** A newline-free name whose lower-case form ends in a photo extension, and
      that no video pattern matches, is a photo. */
  lemma EndsWithPhotoExtension(name: string, j: nat)
    requires j < |PhotoExtensions| && '\n' !in name
    requires EndsWithDotExt(LowerStr(name), PhotoExtensions[j])
    requires !IsVideoFile(name)
    ensures Classify(name) == Photo
  {
    EndsWithMatches(LowerStr(name), PhotoExtensions[j]);
    ClassifyIff(name);
  }

  predicate EndsWithDotExt(s: string, ext: string) {
    |s| >= |ext| + 1 && s[|s| - |ext| - 1..] == "." + ext
  }

  /** An extension at the very end, after a dot, is a match of `.*.ext`. */
  lemma EndsWithMatches(s: string, ext: string)
    requires EndsWithDotExt(s, ext) && '\n' !in s
    ensures ExtensionMatch(s, ext)
  {
    var i := |s| - |ext|;
    assert s[i..i + |ext|] == s[|s| - |ext| - 1..][1..];
    assert forall c | c in s[..i] :: c in s;
    assert MatchesAt(s, ext, i);
  }
}
