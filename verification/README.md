# GoPro-Import: file classifier and import-ledger lookup

This project models the two decision procedures of the GoPro importer in Dafny and proves properties about them.

- **File classifier** (`copy_from_cam.py`).
  - `is_video_file` and `is_photo_file` lower-case a file name.
  - Each then tries its kind's regular expressions with `re.match(regex, name.lower(), re.M | re.I)`. Video uses `.*.mp4`, `.*.thm` and `.*.lrv`. Photo uses `.*.jpg` and `.*.gpr`.
  - `main` sends every file name to exactly one of three branches: video, photo, or "unknown file format". The video test comes first.
- **Import-ledger lookup** (`db_helper.py`).
  - `file_found` asks SQLite whether the `files` table holds a row with the given `file_name` and `date_created`.
  - It turns the single 0/1 cell of the answer into a boolean.

Modules:

- `AsciiCase` (`ascii_case.dfy`): `str.lower()` and the `re.I` case fold, restricted to ASCII.
- `Regex` (`regex.dfy`): the part of Python's `re` that the patterns use. It covers `.`, `.*`, literal characters, and `re.match` semantics. The match is anchored at the start only, `.` does not match a newline, and literals compare after case folding.
- `Classifier` (`classifier.dfy`): the pattern constants, the first-match loop, `is_video_file`, `is_photo_file` and the three-way choice (`Classify`).
  - It also gives a closed form, `ExtensionMatch`, of what a pattern `.*.ext` accepts. Literal `ext` must occur at some index `i >= 1` of the lower-cased name, with no newline among the first `i` characters.
  - `ExtensionPatternMatch` proves this closed form equal to the regular-expression semantics.
- `ClassifierExamples` (`classifier_examples.dfy`): concrete names: some on which the patterns differ from an "ends with .ext" test (`a.mp4.bak`, `xmp4`, `mp4`, newlines), and some that show the precedence of video over photo, the missing `.sav` case and case-insensitivity.
- `Dispatch` (`dispatch.dfy`): the loop of `main` over the file names, with the count of each branch.
- `Ledger` (`ledger.dfy`): the `files` table as a sequence of `Row`s, with `SELECT EXISTS` and `file_found`.
  - `FileFound` is a pure function of the rows, so the lookup leaves the table as it was, just as the plain `SELECT` does.

The matching rule is different from "ends with the extension". `a.mp4.bak` and `xmp4` are videos. `mp4` is not. An occurrence of the extension counts only when at least one character comes before it and none of those characters is a newline. So `mp4` and `a\nb.mp4` are of unknown format, while `x.mp4\ny.mp4` is still a video.

This revision classifies by `re.match`, not by a suffix test, and has no case for `.sav` files: a `.sav` file takes the unknown-format branch like any other unmatched name.

## Model

| member | source | states |
|---|---|---|
| AsciiCase.LowerStr | copy_from_cam.py:48 | `name.lower()` keeps the length, differs from the name only in letter case, returns an all-lower-case string, contains a newline exactly when the name does, and leaves an already lower-case name unchanged |
| AsciiCase.SameIgnoringCaseLowerEqual | copy_from_cam.py:48 | two names that differ only in letter case have the same lower-case form |
| Regex.Compile | copy_from_cam.py:7-8 | parses a pattern of the fragment into tokens; `ExtensionPatternTokens` states what the source's patterns parse to |
| Regex.MatchPrefix | copy_from_cam.py:48 | `re.match` on token patterns: some prefix of the subject matches; `DotStarSplit`, `LitsMatchPrefix` and `DotLitsMatchPrefix` state its meaning |
| Regex.ExtensionPatternTokens | copy_from_cam.py:7-8 | a pattern `.*.` followed by a plain extension parses as "any run of characters, one wildcard, the extension's letters" |
| Regex.DotStarSplit | copy_from_cam.py:48 | `.*` followed by the rest of a pattern matches a prefix of `s` exactly when the rest matches at some position reached without crossing a newline |
| Regex.LitsMatchPrefix | copy_from_cam.py:48 | a run of literal characters matches at the start of a lower-case string exactly when the string begins with that run |
| Regex.DotLitsMatchPrefix | copy_from_cam.py:48 | one wildcard plus an extension matches at the start exactly when the first character is not a newline and the extension follows it |
| Classifier.PatternMatches | copy_from_cam.py:48 | one `re.match(regex, name.lower(), re.M \| re.I)` call succeeds; `ExtensionPatternMatch` states what it accepts for every pattern of the source |
| Classifier.IsVideoFile | copy_from_cam.py:46-52 | `is_video_file`; `FileTestsIff` states it holds exactly when mp4, thm or lrv matches in closed form |
| Classifier.IsPhotoFile | copy_from_cam.py:55-61 | `is_photo_file`; `FileTestsIff` states it holds exactly when jpg or gpr matches in closed form |
| Classifier.Classify | copy_from_cam.py:14-19 | the if/elif/else of `main`; `ClassifyIff` states the resulting three-way partition with video first |
| Classifier.ExtensionMatch | copy_from_cam.py:48 | closed form of `.*.ext`: `ext` at some index `i >= 1` with no newline in `s[..i]`; `ExtensionPatternMatch` proves it equal to the regular-expression semantics |
| Classifier.FirstMatch | copy_from_cam.py:46-52 | the loop over a kind's patterns returns true exactly when at least one pattern of the list matches the name |
| Classifier.ExtensionPatternMatch | copy_from_cam.py:48 | `re.match(".*." + ext, s)` succeeds on lower-cased `s` exactly when `ext` occurs at some index `i >= 1` with no newline in `s[..i]` |
| Classifier.FirstMatchExtensions | copy_from_cam.py:46-61 | trying a list of `.*.ext` patterns succeeds exactly when the name matches one of the extensions in closed form |
| Classifier.PatternsAreExtensions | copy_from_cam.py:7-8 | each of the five patterns is `.*.` followed by a plain lower-case extension: mp4, thm, lrv for video and jpg, gpr for photo |
| Classifier.FileTestsIff | copy_from_cam.py:46-61 | `is_video_file` holds exactly when one of mp4/thm/lrv matches in closed form; `is_photo_file` the same for jpg/gpr |
| Classifier.ClassifyIff | copy_from_cam.py:14-19 | every name gets exactly one of Video, Photo, Unknown: Video iff a video extension matches, Photo iff no video one and a photo one does, Unknown iff neither |
| Classifier.FirstMatchOrderIrrelevant | copy_from_cam.py:7-8 | the outcome of the first-match loop depends only on which patterns are in the list, not on their order |
| Classifier.ClassifyIgnoresCase | copy_from_cam.py:57 | a name and any spelling of it that differs only in letter case are classified alike |
| Classifier.ShortNameUnknown | copy_from_cam.py:7-8 | a name shorter than four characters takes the unknown-format branch, since a pattern needs a character before the three-letter extension |
| Classifier.EndsWithVideoExtension | copy_from_cam.py:7 | a newline-free name whose lower-case form ends in `.mp4`, `.thm` or `.lrv` is a video |
| Classifier.EndsWithPhotoExtension | copy_from_cam.py:8 | a newline-free name ending in `.jpg` or `.gpr` that no video pattern matches is a photo |
| Classifier.EndsWithMatches | copy_from_cam.py:48 | a dot and the extension at the very end of a newline-free string form a match of `.*.ext` |
| ClassifierExamples.TrailingTextStillVideo | copy_from_cam.py:7 | `a.mp4.bak` is a video, because nothing anchors the end of the pattern |
| ClassifierExamples.WildcardDotStillVideo | copy_from_cam.py:7 | `xmp4` is a video, because the second `.` of the pattern is a wildcard |
| ClassifierExamples.BareExtensionUnknown | copy_from_cam.py:7 | `mp4` on its own has no character before the extension and is of unknown format |
| ClassifierExamples.VideoTakesPrecedence | copy_from_cam.py:14-17 | `x.mp4.jpg` satisfies both tests but goes only to the video branch |
| ClassifierExamples.SavFileUnknown | copy_from_cam.py:14-19 | `C.sav` takes the unknown-format branch, because this revision has no special case for `.sav` |
| ClassifierExamples.NewlineHidesExtension | copy_from_cam.py:48 | `a\nb.mp4` is of unknown format, because `.` does not match the newline |
| ClassifierExamples.NewlineAfterExtensionStillVideo | copy_from_cam.py:48 | `x.mp4\ny.mp4` is a video: the newline comes after the first occurrence of the extension |
| ClassifierExamples.LastCharAbsentNoMatch | copy_from_cam.py:48 | an extension whose last character does not occur at index `|ext|` or later cannot match |
| ClassifierExamples.LowerCasePhoto | copy_from_cam.py:55-61 | `img_0001.jpg` is a photo |
| ClassifierExamples.CaseVariantIsPhoto | copy_from_cam.py:57 | every case variant of `img_0001.jpg` is a photo |
| ClassifierExamples.CaseVariantsArePhotos | copy_from_cam.py:57 | `IMG_0001.JPG` and `Img_0001.Jpg` are photos |
| Dispatch.Dispatch | copy_from_cam.py:13-19 | the pass produces one action per file name, in the given order, carrying that name and the branch its classification selects |
| Dispatch.CountsPartition | copy_from_cam.py:13-19 | the numbers of video, photo and unknown names add up to the number of names |
| Dispatch.DispatchCounts | copy_from_cam.py:13-19 | for each kind, the pass takes that branch exactly as often as there are names of that kind |
| Dispatch.DispatchAppend | copy_from_cam.py:12-13 | handling the files of several directories one after another is handling each directory's files in turn |
| Ledger.SelectExists | db_helper.py:2-3 | the `SELECT EXISTS` cell is 0 or 1, and it is 1 exactly when some row has both the file name and the creation date |
| Ledger.FileFound | db_helper.py:1-7 | `file_found` is true exactly when some row has `file_name == name` and `date_created == date_created`; on an empty table it is false |
| Ledger.FileFoundIffKey | db_helper.py:2 | the lookup is true exactly when the (name, date) pair is in the set of keys of the table |
| Ledger.SameKeysSameAnswer | db_helper.py:2 | two tables with the same set of keys answer every lookup alike |
| Ledger.KeysOfSameRows | db_helper.py:2 | tables that hold the same rows have the same set of keys |
| Ledger.PermutationSameAnswer | db_helper.py:2 | reordering the rows does not change the answer |
| Ledger.DuplicateRowSameAnswer | db_helper.py:2 | adding a copy of an existing row does not change the answer |
| Ledger.NonKeyColumnsIrrelevant | test/test_db_helper.py:22 | the `date_copied` and `size` columns never affect the answer |
| Ledger.AppendKeyFound | db_helper.py:2 | after a row with the queried key is appended, the lookup is true |
| Ledger.AppendMonotone | db_helper.py:2 | appending any row never turns a true answer into false |
| Ledger.AppendNonKeyRowSameAnswer | db_helper.py:2 | appending a row with the right name but another date, or the right date but another name, leaves the answer unchanged |
| Ledger.KeysAreCaseSensitive | db_helper.py:2 | keys compare exactly: a stored `img.jpg` answers a lookup of `img.jpg` but not one of `IMG.JPG` |

## Left out

- EXIF reading in `process_video_file` / `process_photo_file` (copy_from_cam.py:22-43) is left out. It decodes images with PIL and prints the result, which is a foreign library plus I/O. A branch is modelled only as the `Action` chosen.
- The `os.walk` traversal and the hard-coded `cam_path` (copy_from_cam.py:5, 12) are left out. The file names are an input sequence instead, so walk order is the order of that sequence.
- Printed text is not modelled. This covers the unknown-format message, which joins the directory and name with `os.path.join`, and every other message.
- The sqlite connection and cursor, `execute`, and the tuple shape that `fetchall()` returns (db_helper.py:2-4) are abstracted. The table is a sequence of rows and the answer is the single cell.
- The unit test passes no cursor, so as written it never reaches the query. Only its intent is modelled, as an `ensures` of `FileFound`: an empty table gives false.
- Unicode `str.lower()` is modelled only for ASCII. Only 'A'..'Z' are folded. Python's full Unicode lowering, some of which changes string length, is not modelled.
- Classifier.PatternMatches treats a pattern outside the supported fragment (anything using a metacharacter other than `.` and `.*`, such as `a*`, `[ab]` or `(x)`) as never matching, where Python would match it with its full semantics. No such pattern occurs in the source: all five are inside the fragment (`PatternsAreExtensions`, `ExtensionPatternTokens`).
- Classifier.EndsWithVideoExtension and Classifier.EndsWithPhotoExtension require a newline-free name. That is a sufficient condition, not a necessary one (`x.mp4\ny.mp4` is a video, `NewlineAfterExtensionStillVideo`). It cannot simply be dropped, because a newline before the only occurrence hides the extension (`NewlineHidesExtension`).
- Dispatch.Dispatch gives the branch chosen for every name, but not that the loop reaches every name. `process_video_file` and `process_photo_file` catch only `OSError` (copy_from_cam.py:30, 42). Any other exception raised while PIL opens a file or reads its EXIF data leaves `main` and ends the loop early. Such an exception is not modelled.
- The following features do not exist in this code and are not modelled:
  - a silently ignored `.sav` kind;
  - processed-file and warning counters;
  - file copying and per-date destination directories;
  - ledger inserts and size in megabytes;
  - progress reporting.
