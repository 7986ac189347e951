/**
 * The JavaScript string operations the scripts rely on, with their edge cases:
 * `indexOf` and `lastIndexOf` with a starting position, `substring` (which
 * clamps its arguments and swaps them when they are out of order), `includes`,
 * and `Array.prototype.join` for arrays of strings.
 */
module Text {

  /** `p` occurs in `s` starting at index `i`. */
  predicate MatchAt(s: string, p: string, i: int) {
    0 <= i && i + |p| <= |s| && s[i..i + |p|] == p
  }

  /** Clamps a position to `[0, n]`, as JavaScript does with string positions. */
  function Clamp(i: int, n: nat): (r: nat)
    ensures r <= n
    ensures 0 <= i <= n ==> r == i
  {
    if i < 0 then 0 else if i > n then n else i
  }

  function FirstMatchFrom(s: string, p: string, i: nat): (r: int)
    requires i <= |s|
    ensures r == -1 || (i <= r && MatchAt(s, p, r))
    ensures r == -1 ==> forall j :: i <= j <= |s| ==> !MatchAt(s, p, j)
    ensures r != -1 ==> forall j :: i <= j < r ==> !MatchAt(s, p, j)
    decreases |s| - i
  {
    if MatchAt(s, p, i) then i
    else if i == |s| then -1
    else FirstMatchFrom(s, p, i + 1)
  }

  /** `s.indexOf(p, from)`: the first occurrence of `p` at or after `from`, or -1. */
  function IndexOf(s: string, p: string, from: int): (r: int)
    ensures r == -1 || (Clamp(from, |s|) <= r && MatchAt(s, p, r))
    ensures r == -1 ==> forall j :: Clamp(from, |s|) <= j <= |s| ==> !MatchAt(s, p, j)
    ensures r != -1 ==> forall j :: Clamp(from, |s|) <= j < r ==> !MatchAt(s, p, j)
  {
    FirstMatchFrom(s, p, Clamp(from, |s|))
  }

  function LastMatchUpTo(s: string, p: string, k: int): (r: int)
    ensures r == -1 || (0 <= r <= k && MatchAt(s, p, r))
    ensures r == -1 ==> forall j :: 0 <= j <= k ==> !MatchAt(s, p, j)
    ensures forall j :: r < j <= k ==> !MatchAt(s, p, j)
    decreases k + 1
  {
    if k < 0 then -1
    else if MatchAt(s, p, k) then k
    else LastMatchUpTo(s, p, k - 1)
  }

  /** `s.lastIndexOf(p, from)`: the last occurrence of `p` starting at or before `from`, or -1. */
  function LastIndexOf(s: string, p: string, from: int): (r: int)
    ensures r == -1 || (0 <= r <= Clamp(from, |s|) && MatchAt(s, p, r))
    ensures forall j :: r < j <= Clamp(from, |s|) ==> !MatchAt(s, p, j)
  {
    LastMatchUpTo(s, p, Clamp(from, |s|))
  }

  /** `s.includes(p)`. */
  predicate Includes(s: string, p: string)
    ensures Includes(s, p) <==> exists i :: MatchAt(s, p, i)
  {
    IndexOf(s, p, 0) != -1
  }

  /** `s.substring(a, b)`: both ends clamped to the string, swapped if out of order. */
  function Substring(s: string, a: int, b: int): (r: string)
    ensures var lo, hi := Clamp(a, |s|), Clamp(b, |s|);
            r == if lo <= hi then s[lo..hi] else s[hi..lo]
  {
    var lo, hi := Clamp(a, |s|), Clamp(b, |s|);
    if lo <= hi then s[lo..hi] else s[hi..lo]
  }

  /** `xs.join(sep)`. */
  function Join(xs: seq<string>, sep: string): string
    decreases |xs|
  {
    if |xs| == 0 then ""
    else if |xs| == 1 then xs[0]
    else xs[0] + sep + Join(xs[1..], sep)
  }

  /** Splits `s` at every occurrence of `sep`, left to right (`s.split(sep)`). */
  function Split(s: string, sep: string): (r: seq<string>)
    requires |sep| > 0
    ensures |r| > 0
    decreases |s|
  {
    var i := IndexOf(s, sep, 0);
    if i == -1 then [s] else [s[..i]] + Split(s[i + |sep|..], sep)
  }

  /** An occurrence of a non-empty `p` starts with `p`'s first character. */
  lemma MatchHead(s: string, p: string, i: int)
    requires |p| > 0
    ensures MatchAt(s, p, i) ==> i < |s| && s[i] == p[0]
  {
    if MatchAt(s, p, i) {
      assert s[i..i + |p|][0] == p[0];
    }
  }

  /** An occurrence of `p` of length two or more has `p`'s second character one place on. */
  lemma MatchSecond(s: string, p: string, i: int)
    requires |p| > 1
    ensures MatchAt(s, p, i) ==> i + 1 < |s| && s[i + 1] == p[1]
  {
    if MatchAt(s, p, i) {
      assert s[i..i + |p|][1] == p[1];
    }
  }

  /**
   * Splitting a joined list gives the list back, provided that the separator
   * starts with two different characters and no element contains the second
   * of them (for `" | "`: no element contains `'|'`).
   */
  lemma {:induction false} SplitJoin(xs: seq<string>, sep: string)
    requires |xs| > 0 && |sep| > 1 && sep[0] != sep[1]
    requires forall i :: 0 <= i < |xs| ==> sep[1] !in xs[i]
    ensures Split(Join(xs, sep), sep) == xs
    decreases |xs|
  {
    var s := Join(xs, sep);
    if |xs| == 1 {
      forall j | 0 <= j <= |s| ensures !MatchAt(s, sep, j) {
        MatchSecond(s, sep, j);
        assert j + 1 < |s| ==> s[j + 1] != sep[1];
      }
    } else {
      var x := xs[0];
      var rest := Join(xs[1..], sep);
      assert s == x + sep + rest;
      assert s[|x|..|x| + |sep|] == sep;
      assert MatchAt(s, sep, |x|);
      forall j | 0 <= j < |x| ensures !MatchAt(s, sep, j) {
        MatchSecond(s, sep, j);
        if j + 1 < |x| {
          assert s[j + 1] == x[j + 1];
        } else {
          assert s[j + 1] == sep[0];
        }
      }
      assert IndexOf(s, sep, 0) == |x|;
      assert s[..|x|] == x;
      assert s[|x| + |sep|..] == rest;
      SplitJoin(xs[1..], sep);
      assert xs == [x] + xs[1..];
    }
  }
}
