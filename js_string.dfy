/** The three `String.prototype` methods the class uses to split its wire
    format, with their ECMAScript treatment of out-of-range positions. */
module JsString {

  /** `s.indexOf(c)`: the position of the first `c`, or -1 when there is none. */
  function IndexOf(s: string, c: char): (i: int)
    ensures -1 <= i < |s|
    ensures i == -1 <==> c !in s
    ensures 0 <= i ==> s[i] == c && c !in s[..i]
  {
    if s == [] then -1
    else if s[0] == c then 0
    else
      var j := IndexOf(s[1..], c);
      if j == -1 then -1
      else
        assert s[..j + 1] == [s[0]] + s[1..][..j];
        j + 1
  }

  /** `indexOf` finds the first occurrence and no later one. */
  lemma {:induction false} IndexOfFirst(s: string, c: char, i: nat)
    requires i < |s| && s[i] == c && c !in s[..i]
    ensures IndexOf(s, c) == i
  {
    if i > 0 {
      assert s[0] == s[..i][0];
      assert s[1..][..i - 1] == s[1..i];
      IndexOfFirst(s[1..], c, i - 1);
    }
  }

  /** A position clamped into `[0, n]`. */
  function Clamp(x: int, n: nat): (r: nat)
    ensures r <= n
    ensures 0 <= x <= n ==> r == x
  {
    if x < 0 then 0 else if x > n then n else x
  }

  /** `s.substring(start, end)`: both ends clamped into the string, and
      swapped when `start` lies after `end`. */
  function Substring(s: string, start: int, end: int): (r: string)
    ensures |r| <= |s|
    ensures 0 <= start <= end <= |s| ==> r == s[start..end]
    ensures 0 <= end <= start <= |s| ==> r == s[end..start]
    ensures end <= 0 && 0 <= start <= |s| ==> r == s[..start]
  {
    var a, b := Clamp(start, |s|), Clamp(end, |s|);
    if a <= b then s[a..b] else s[b..a]
  }

  /** `s.substring(start)`: from `start` to the end of the string. */
  function SubstringFrom(s: string, start: int): (r: string)
    ensures 0 <= start <= |s| ==> r == s[start..]
    ensures start < 0 ==> r == s
    ensures |s| < start ==> r == []
  {
    Substring(s, start, |s|)
  }

  /** `s.substr(start)`: a negative `start` counts back from the end. */
  function Substr(s: string, start: int): (r: string)
    ensures 0 <= start <= |s| ==> r == s[start..]
    ensures -|s| <= start < 0 ==> r == s[|s| + start..]
    ensures start < -|s| ==> r == s
    ensures |s| < start ==> r == []
  {
    var a := if start < 0 then Clamp(|s| + start, |s|) else Clamp(start, |s|);
    s[a..]
  }

  /** Both one-argument forms agree on a start that is not negative, so the
      TypeScript and the JavaScript `decrypt` read the same body. */
  lemma SubstrAgreesWithSubstring(s: string, start: int)
    requires 0 <= start
    ensures Substr(s, start) == SubstringFrom(s, start)
  {
  }

  /** Around a position inside the string, `substring` and `substr` are the
      plain slices before and after it. */
  lemma SlicesAround(s: string, i: nat)
    requires i < |s|
    ensures Substring(s, 0, i) == s[..i]
    ensures SubstringFrom(s, i + 1) == s[i + 1..]
    ensures Substr(s, i + 1) == s[i + 1..]
  {
    assert Clamp(0, |s|) == 0 && Clamp(i, |s|) == i && Clamp(i + 1, |s|) == i + 1;
  }

  /** With no separator, `s.substring(0, s.indexOf(c))` is empty and
      `s.substring(s.indexOf(c) + 1)` is the whole string. */
  lemma SplitWithoutSeparator(s: string, c: char)
    requires c !in s
    ensures Substring(s, 0, IndexOf(s, c)) == []
    ensures SubstringFrom(s, IndexOf(s, c) + 1) == s
  {
    assert IndexOf(s, c) == -1;
    assert Clamp(0, |s|) == 0 && Clamp(-1, |s|) == 0;
    assert s[0..] == s;
  }
}
