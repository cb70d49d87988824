/** The JavaScript string operations the core relies on, over `seq<char>`.
    `StartsWith`, `EndsWith` and `Includes` follow the ECMAScript definitions
    of `String.prototype.startsWith`, `endsWith` and `includes` (searching
    from position 0); `LastIndexOf` and `SubstringFrom` those of
    `lastIndexOf` with one argument and `substring` with one argument. */
module Text {

  /** `s.startsWith(p)`. */
  predicate StartsWith(s: string, p: string) {
    |p| <= |s| && s[..|p|] == p
  }

  /** `s.endsWith(p)`. */
  predicate EndsWith(s: string, p: string) {
    |p| <= |s| && s[|s| - |p|..] == p
  }

  /** `p` occurs in `s` at position `i`. */
  ghost predicate OccursAt(s: string, p: string, i: int) {
    0 <= i && i + |p| <= |s| && s[i..i + |p|] == p
  }

  /** `p` is a prefix of `s`, character by character. */
  ghost predicate IsPrefix(p: string, s: string) {
    |p| <= |s| && forall i :: 0 <= i < |p| ==> s[i] == p[i]
  }

  /** `p` is a suffix of `s`, character by character. */
  ghost predicate IsSuffix(p: string, s: string) {
    |p| <= |s| && forall i :: 0 <= i < |p| ==> s[|s| - |p| + i] == p[i]
  }

  /** `s.includes(p)`: try every starting position from the left. */
  predicate Includes(s: string, p: string)
    decreases |s|
  {
    if StartsWith(s, p) then true
    else if |s| == 0 then false
    else Includes(s[1..], p)
  }

  /** `s.lastIndexOf(c)`: the last position holding `c`, or -1. */
  function LastIndexOf(s: string, c: char): (r: int)
    ensures -1 <= r < |s|
    ensures r >= 0 ==> s[r] == c
    ensures forall j :: r < j < |s| ==> s[j] != c
    decreases |s|
  {
    if |s| == 0 then -1
    else if s[|s| - 1] == c then |s| - 1
    else LastIndexOf(s[..|s| - 1], c)
  }

  /** `s.substring(start)`: the suffix of `s` that drops the first `start`
      characters, with `start` clamped to `0..|s|`. */
  function SubstringFrom(s: string, start: int): (r: string)
    ensures |r| == |s| - (if start < 0 then 0 else if start > |s| then |s| else start)
    ensures IsSuffix(r, s)
  {
    if start <= 0 then s else if start >= |s| then [] else s[start..]
  }

  lemma StartsWithIsPrefix(s: string, p: string)
    ensures StartsWith(s, p) <==> IsPrefix(p, s)
  {
  }

  lemma EndsWithIsSuffix(s: string, p: string)
    ensures EndsWith(s, p) <==> IsSuffix(p, s)
  {
  }

  /** `includes` finds `p` exactly when `p` occurs somewhere in `s`. */
  lemma {:induction false} IncludesIffOccurs(s: string, p: string)
    ensures Includes(s, p) <==> exists i :: OccursAt(s, p, i)
    decreases |s|
  {
    if StartsWith(s, p) {
      assert OccursAt(s, p, 0);
    } else if |s| > 0 {
      IncludesIffOccurs(s[1..], p);
      if Includes(s[1..], p) {
        var i :| OccursAt(s[1..], p, i);
        assert s[1..][i..i + |p|] == s[i + 1..i + 1 + |p|];
        assert OccursAt(s, p, i + 1);
      } else {
        if |p| <= |s| {
          assert s[0..|p|] == s[..|p|];
        }
        forall i | 0 < i && OccursAt(s, p, i) ensures OccursAt(s[1..], p, i - 1) {
          assert s[1..][i - 1..i - 1 + |p|] == s[i..i + |p|];
        }
      }
    }
  }
}
