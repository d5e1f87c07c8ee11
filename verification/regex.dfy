/**
 The fragment of Python's `re` module the classifier relies on: patterns built
 from `.`, `.*` and literal characters, matched with `re.match` under the flags
 `re.M | re.I`.

 - `re.match` anchors at the start of the subject only: a pattern succeeds
   when it matches some PREFIX of the string.
 - `.` matches any single character except a newline (no `re.S`).
 - `re.I` compares literal characters after case folding.
 - `re.M` changes only `^` and `$`, which the fragment does not contain.
 */
module Regex {
  import opened AsciiCase

  datatype Option<T> = None | Some(value: T)

  /** One element of a compiled pattern. */
  datatype Token = Dot | DotStar | Lit(c: char)

  /** Characters with a special meaning in a Python pattern that the fragment does not support. */
  predicate IsMeta(c: char) {
    c in "*+?[](){}|^$\\"
  }

  /** A literal run: no character is `.` or another metacharacter. */
  predicate IsPlain(t: string) {
    forall k | 0 <= k < |t| :: t[k] != '.' && !IsMeta(t[k])
  }

  function Prepend(t: Token, rest: Option<seq<Token>>): Option<seq<Token>> {
    match rest
    case Some(ts) => Some([t] + ts)
    case None => None
  }

  /** Parses a pattern of the fragment; `None` for anything outside it. */
  function Compile(p: string): Option<seq<Token>>
    decreases |p|
  {
    if p == [] then Some([])
    else if p[0] == '.' then
      if |p| >= 2 && p[1] == '*' then Prepend(DotStar, Compile(p[2..]))
      else Prepend(Dot, Compile(p[1..]))
    else if IsMeta(p[0]) then None
    else Prepend(Lit(p[0]), Compile(p[1..]))
  }

  /** `re.match(p, s, re.M | re.I)` is truthy: `p` matches some prefix of `s`. */
  function MatchPrefix(p: seq<Token>, s: string): bool
    decreases |s|, |p|
  {
    if p == [] then true
    else match p[0]
      case Dot => |s| > 0 && s[0] != '\n' && MatchPrefix(p[1..], s[1..])
      case Lit(c) => |s| > 0 && Lower(s[0]) == Lower(c) && MatchPrefix(p[1..], s[1..])
      case DotStar =>
        MatchPrefix(p[1..], s) || (|s| > 0 && s[0] != '\n' && MatchPrefix(p, s[1..]))
  }

  /** The tokens of a literal run. */
  function Lits(t: string): (p: seq<Token>)
    ensures |p| == |t|
  {
    if t == [] then [] else [Lit(t[0])] + Lits(t[1..])
  }

  /** A literal run compiles to its literal tokens. */
  lemma {:induction false} CompilePlain(t: string)
    requires IsPlain(t)
    ensures Compile(t) == Some(Lits(t))
    decreases |t|
  {
    if t != [] {
      assert t[0] != '.' && !IsMeta(t[0]);
      assert IsPlain(t[1..]) by {
        forall k | 0 <= k < |t[1..]| ensures t[1..][k] != '.' && !IsMeta(t[1..][k]) {
          assert t[1..][k] == t[k + 1];
        }
      }
      CompilePlain(t[1..]);
    }
  }

  /** The pattern `.*.` followed by a literal run compiles to `DotStar, Dot, Lit...`. */
  lemma ExtensionPatternTokens(ext: string)
    requires IsPlain(ext)
    ensures Compile(".*." + ext) == Some([DotStar, Dot] + Lits(ext))
  {
    var p := ".*." + ext;
    assert p[2..] == "." + ext;
    assert ("." + ext)[1..] == ext;
    CompilePlain(ext);
    if |ext| > 0 {
      assert ("." + ext)[1] == ext[0];
    }
    assert [DotStar] + ([Dot] + Lits(ext)) == [DotStar, Dot] + Lits(ext);
  }

  /** Literal tokens match a prefix exactly when that prefix spells the run. */
  lemma {:induction false} LitsMatchPrefix(t: string, s: string)
    requires IsLowerStr(t) && IsLowerStr(s)
    ensures MatchPrefix(Lits(t), s) <==> |t| <= |s| && s[..|t|] == t
    decreases |t|
  {
    if t != [] {
      var p := Lits(t);
      assert p[0] == Lit(t[0]) && p[1..] == Lits(t[1..]);
      if |s| > 0 {
        assert Lower(s[0]) == s[0] && Lower(t[0]) == t[0];
        IsLowerStrDrop(t, 1);
        IsLowerStrDrop(s, 1);
        LitsMatchPrefix(t[1..], s[1..]);
        if |t| <= |s| {
          assert s[..|t|] == [s[0]] + s[1..][..|t| - 1];
          assert t == [t[0]] + t[1..];
        }
      }
    }
  }

  /** `.*` followed by `q` matches a prefix of `s` exactly when `q` matches
      a prefix of some suffix of `s` that is reached without crossing a newline. */
  lemma {:induction false} DotStarSplit(q: seq<Token>, s: string)
    ensures MatchPrefix([DotStar] + q, s) <==>
      exists k | 0 <= k <= |s| :: '\n' !in s[..k] && MatchPrefix(q, s[k..])
    decreases |s|
  {
    var p := [DotStar] + q;
    assert p[0] == DotStar && p[1..] == q;
    if MatchPrefix(p, s) {
      if MatchPrefix(q, s) {
        assert s[..0] == [] && s[0..] == s;
        assert '\n' !in s[..0] && MatchPrefix(q, s[0..]);
      } else {
        assert |s| > 0 && s[0] != '\n' && MatchPrefix(p, s[1..]);
        DotStarSplit(q, s[1..]);
        var k :| 0 <= k <= |s[1..]| && '\n' !in s[1..][..k] && MatchPrefix(q, s[1..][k..]);
        assert s[..k + 1] == [s[0]] + s[1..][..k];
        assert s[k + 1..] == s[1..][k..];
        assert '\n' !in s[..k + 1] && MatchPrefix(q, s[k + 1..]);
      }
    }
    if k :| 0 <= k <= |s| && '\n' !in s[..k] && MatchPrefix(q, s[k..]) {
      if k == 0 {
        assert s[0..] == s;
      } else {
        assert s[0] == s[..k][0];
        assert s[..k] == [s[0]] + s[1..][..k - 1];
        assert s[1..][k - 1..] == s[k..];
        DotStarSplit(q, s[1..]);
        assert MatchPrefix(p, s[1..]);
      }
      assert MatchPrefix(p, s);
    }
  }

  /** `.` followed by a literal run matches a prefix of `t` exactly when the
      first character is not a newline and the run follows it. */
  lemma {:induction false} DotLitsMatchPrefix(ext: string, t: string)
    requires IsLowerStr(ext) && IsLowerStr(t)
    ensures MatchPrefix([Dot] + Lits(ext), t) <==>
      1 <= |t| && t[0] != '\n' && 1 + |ext| <= |t| && t[1..1 + |ext|] == ext
  {
    var p := [Dot] + Lits(ext);
    assert p[0] == Dot && p[1..] == Lits(ext);
    if |t| > 0 {
      assert MatchPrefix(p, t) == (t[0] != '\n' && MatchPrefix(Lits(ext), t[1..]));
      IsLowerStrDrop(t, 1);
      LitsMatchPrefix(ext, t[1..]);
      if 1 + |ext| <= |t| {
        assert t[1..][..|ext|] == t[1..1 + |ext|];
      }
    } else {
      assert !MatchPrefix(p, t);
    }
  }
}
