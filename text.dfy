/** String helpers standing in for the Python built-ins the game uses:
    `str.isalpha` and `str.lower` (restricted to ASCII), substring search
    (`x in s`), `sep.join(chars)` and `str(n)` for integers. */
module Text {

  /** `c.isalpha()`, restricted to the ASCII letters. */
  predicate IsAlpha(c: char) {
    'a' <= c <= 'z' || 'A' <= c <= 'Z'
  }

  predicate IsLower(c: char) {
    'a' <= c <= 'z'
  }

  /** `c.lower()` on one ASCII character. */
  function Lower(c: char): (r: char)
    ensures IsAlpha(r) <==> IsAlpha(c)
    ensures IsAlpha(c) ==> IsLower(r)
    ensures IsLower(c) || !IsAlpha(c) ==> r == c
    ensures 'A' <= c <= 'Z' ==> r as int - 'a' as int == c as int - 'A' as int
  {
    if 'A' <= c <= 'Z' then (c as int + 32) as char else c
  }

  /** `w in s` for strings: `w` is a contiguous piece of `s`. */
  ghost predicate Occurs(w: string, s: string) {
    exists i :: OccursAt(w, s, i)
  }

  predicate OccursAt(w: string, s: string, i: int) {
    0 <= i <= |s| - |w| && s[i..i + |w|] == w
  }

  lemma OccursInMiddle(pre: string, w: string, post: string)
    ensures Occurs(w, pre + w + post)
  {
    var s := pre + w + post;
    assert OccursAt(w, s, |pre|);
  }

  lemma OccursBefore(w: string, s: string, post: string)
    requires Occurs(w, s)
    ensures Occurs(w, s + post)
  {
    var i :| OccursAt(w, s, i);
    assert (s + post)[i..i + |w|] == s[i..i + |w|];
    assert OccursAt(w, s + post, i);
  }

  lemma OccursAfter(w: string, pre: string, s: string)
    requires Occurs(w, s)
    ensures Occurs(w, pre + s)
  {
    var i :| OccursAt(w, s, i);
    assert (pre + s)[|pre| + i..|pre| + i + |w|] == s[i..i + |w|];
    assert OccursAt(w, pre + s, |pre| + i);
  }

  /** `sep.join(d)` where every element of `d` is a one-character string. */
  function Interleave(d: seq<char>, sep: string): (s: string)
    ensures |d| == 0 ==> s == []
    ensures |d| > 0 ==> |s| == |d| + (|d| - 1) * |sep|
    ensures forall c :: c in d ==> c in s
    ensures forall c :: c in s ==> c in d || c in sep
    decreases |d|
  {
    if |d| <= 1 then d else [d[0]] + sep + Interleave(d[1..], sep)
  }

  /** With a one-character separator the elements sit at the even positions
      and the separator at the odd ones. */
  lemma {:induction false} InterleaveLayout(d: seq<char>, sep: char, i: int)
    requires 0 <= i < |d|
    ensures Interleave(d, [sep])[2 * i] == d[i]
    ensures i < |d| - 1 ==> Interleave(d, [sep])[2 * i + 1] == sep
  {
    if i > 0 {
      InterleaveLayout(d[1..], sep, i - 1);
    }
  }

  function Digit(n: nat): (c: char)
    requires n < 10
    ensures '0' <= c <= '9' && c as int - '0' as int == n
  {
    (n + '0' as int) as char
  }

  /** `str(n)` for a natural number: its decimal digits, most significant first. */
  function NatToString(n: nat): (s: string)
    ensures |s| > 0
    ensures forall k :: 0 <= k < |s| ==> '0' <= s[k] <= '9'
    ensures s[0] == '0' <==> n == 0
    decreases n
  {
    if n < 10 then [Digit(n)] else NatToString(n / 10) + [Digit(n % 10)]
  }

  /** `str(i)` for any integer. */
  function IntToString(i: int): (s: string)
    ensures |s| > 0
    ensures s[0] == '-' <==> i < 0
  {
    if i < 0 then "-" + NatToString(-i) else NatToString(i)
  }

  /** The number a string of decimal digits denotes. */
  function DecimalValue(s: string): nat
    requires forall k :: 0 <= k < |s| ==> '0' <= s[k] <= '9'
    decreases |s|
  {
    if s == [] then 0 else DecimalValue(s[..|s| - 1]) * 10 + (s[|s| - 1] as int - '0' as int)
  }

  lemma {:induction false} DecimalRoundTrip(n: nat)
    ensures DecimalValue(NatToString(n)) == n
  {
    if n >= 10 {
      var s := NatToString(n);
      assert s[..|s| - 1] == NatToString(n / 10);
      DecimalRoundTrip(n / 10);
    }
  }
}
