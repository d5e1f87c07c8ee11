/**
 ASCII case folding, the model of Python's `str.lower()` and of the `re.I`
 flag on the file names a camera produces. Only 'A'..'Z' are folded; every
 other character is its own lower-case form.
 */
module AsciiCase {

  /** Lower-case form of one character. */
  function Lower(c: char): (d: char)
    ensures !('A' <= d <= 'Z')
    ensures d == '\n' <==> c == '\n'
    ensures c != d ==> 'A' <= c <= 'Z'
  {
    if 'A' <= c <= 'Z' then (c as int + 32) as char else c
  }

  /** True when no character of `s` changes under lower-casing. */
  predicate IsLowerStr(s: string) {
    forall i | 0 <= i < |s| :: Lower(s[i]) == s[i]
  }

  /** `name.lower()` for an ASCII name. */
  function LowerStr(s: string): (t: string)
    ensures |t| == |s|
    ensures IsLowerStr(t)
    ensures '\n' in t <==> '\n' in s
    ensures IsLowerStr(s) ==> t == s
    ensures SameIgnoringCase(s, t)
  {
    var t := seq(|s|, i requires 0 <= i < |s| => Lower(s[i]));
    assert '\n' in t ==> '\n' in s by {
      if '\n' in t {
        var i :| 0 <= i < |t| && t[i] == '\n';
        assert s[i] == '\n';
      }
    }
    assert '\n' in s ==> '\n' in t by {
      if '\n' in s {
        var i :| 0 <= i < |s| && s[i] == '\n';
        assert t[i] == '\n';
      }
    }
    t
  }

  /** Two names that differ only in the case of their letters. */
  predicate SameIgnoringCase(a: string, b: string) {
    |a| == |b| && forall i | 0 <= i < |a| :: Lower(a[i]) == Lower(b[i])
  }

  /** Names that differ only in case have the same lower-case form. */
  lemma SameIgnoringCaseLowerEqual(a: string, b: string)
    requires SameIgnoringCase(a, b)
    ensures LowerStr(a) == LowerStr(b)
  {
  }

  /** Every suffix of a lower-case string is lower-case. */
  lemma IsLowerStrDrop(s: string, k: nat)
    requires IsLowerStr(s) && k <= |s|
    ensures IsLowerStr(s[k..])
  {
    forall i | 0 <= i < |s[k..]|
      ensures Lower(s[k..][i]) == s[k..][i]
    {
      assert s[k..][i] == s[k + i];
    }
  }
}
