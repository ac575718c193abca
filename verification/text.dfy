/** String helpers with the meaning the modelled program's runtime gives them:
 whitespace stripping, decimal rendering and parsing of natural numbers,
 substring containment, and joining and splitting text at line feeds.
 */
module Text {

  /** A character the runtime's `str.isspace` accepts (and so `str.strip`
      removes). */
  predicate IsSpace(c: char) {
    || ('\U{0009}' <= c <= '\U{000D}')
    || ('\U{001C}' <= c <= '\U{0020}')
    || c == '\U{0085}' || c == '\U{00A0}' || c == '\U{1680}'
    || ('\U{2000}' <= c <= '\U{200A}')
    || c == '\U{2028}' || c == '\U{2029}' || c == '\U{202F}'
    || c == '\U{205F}' || c == '\U{3000}'
  }

  /** The first index at or after `i` whose character is not whitespace,
      or `|s|`. */
  function SkipSpace(s: string, i: nat): (k: nat)
    requires i <= |s|
    ensures i <= k <= |s|
    ensures forall j :: i <= j < k ==> IsSpace(s[j])
    ensures k == |s| || !IsSpace(s[k])
    decreases |s| - i
  {
    if i < |s| && IsSpace(s[i]) then SkipSpace(s, i + 1) else i
  }

  /** The least index `m` in `lo..j` such that `s[m..j]` is all whitespace. */
  function SkipSpaceBack(s: string, lo: nat, j: nat): (m: nat)
    requires lo <= j <= |s|
    ensures lo <= m <= j
    ensures forall k :: m <= k < j ==> IsSpace(s[k])
    ensures m == lo || !IsSpace(s[m - 1])
    decreases j
  {
    if lo < j && IsSpace(s[j - 1]) then SkipSpaceBack(s, lo, j - 1) else j
  }

  /** `r` is the infix of `s` at index `i` and everything of `s` around it
      is whitespace. */
  predicate InfixInSpace(s: string, r: string, i: nat) {
    && i + |r| <= |s| && s[i..i + |r|] == r
    && (forall k :: 0 <= k < i ==> IsSpace(s[k]))
    && (forall k :: i + |r| <= k < |s| ==> IsSpace(s[k]))
  }

  /** `str.strip()` with no argument: the longest infix of `s` that neither
      starts nor ends with whitespace, cut out of a whitespace-only prefix
      and suffix. */
  function Strip(s: string): (r: string)
    ensures exists i: nat :: InfixInSpace(s, r, i)
    ensures r == [] || (!IsSpace(r[0]) && !IsSpace(r[|r| - 1]))
  {
    var i := SkipSpace(s, 0);
    var j := SkipSpaceBack(s, i, |s|);
    assert InfixInSpace(s, s[i..j], i);
    s[i..j]
  }

  /** A text with no whitespace at either end is its own stripping. */
  lemma StripNoEdgeSpace(s: string)
    requires |s| > 0 && !IsSpace(s[0]) && !IsSpace(s[|s| - 1])
    ensures Strip(s) == s
  {
    assert SkipSpace(s, 0) == 0;
    assert SkipSpaceBack(s, 0, |s|) == |s|;
  }

  predicate IsDigit(c: char) {
    '0' <= c <= '9'
  }

  predicate AllDigits(s: string) {
    forall k :: 0 <= k < |s| ==> IsDigit(s[k])
  }

  /** A character of a `\w` class restricted to ASCII: a letter, a digit or
      the underscore. */
  predicate IsWordChar(c: char) {
    IsDigit(c) || ('a' <= c <= 'z') || ('A' <= c <= 'Z') || c == '_'
  }

  function DigitValue(c: char): (d: nat)
    requires IsDigit(c)
    ensures d < 10
  {
    (c as int) - ('0' as int)
  }

  function DigitChar(d: nat): (c: char)
    requires d < 10
    ensures IsDigit(c) && DigitValue(c) == d
  {
    (('0' as int) + d) as char
  }

  /** `int(ds)` for a non-empty run of ASCII digits (leading zeros allowed).
      The empty run, where `int` would raise, is only the base of the
      recursion: every caller passes at least one digit. */
  function DecimalValue(ds: string): nat
    requires AllDigits(ds)
    decreases |ds|
  {
    if ds == [] then 0
    else DecimalValue(ds[..|ds| - 1]) * 10 + DigitValue(ds[|ds| - 1])
  }

  /** `str(n)`: the shortest decimal rendering of `n`, so without a leading
      zero unless it is the single digit of zero. */
  function Decimal(n: nat): (r: string)
    ensures |r| > 0 && AllDigits(r)
    ensures r[0] != '0' || n == 0
    ensures n == 0 ==> r == "0"
    decreases n
  {
    if n < 10 then [DigitChar(n)] else Decimal(n / 10) + [DigitChar(n % 10)]
  }

  /** Parsing the rendering of `n` gives `n` back. */
  lemma {:induction false} DecimalRoundTrip(n: nat)
    ensures DecimalValue(Decimal(n)) == n
  {
    if n >= 10 {
      var ds := Decimal(n);
      assert ds[..|ds| - 1] == Decimal(n / 10);
      DecimalRoundTrip(n / 10);
    }
  }

  /** `sub` occurs in `s` starting at index `k`. */
  predicate OccursAt(s: string, sub: string, k: nat) {
    k + |sub| <= |s| && s[k..k + |sub|] == sub
  }

  /** `sub in s` for strings: `sub` occurs somewhere inside `s`. */
  predicate Contains(s: string, sub: string) {
    exists k: nat | k <= |s| - |sub| :: OccursAt(s, sub, k)
  }

  /** `'\n'.join(ls)`. */
  function JoinLines(ls: seq<string>): string
    decreases |ls|
  {
    if |ls| == 0 then ""
    else if |ls| == 1 then ls[0]
    else ls[0] + "\n" + JoinLines(ls[1..])
  }

  /** Index of the first line feed of `s`, or `|s|` when there is none. */
  function FirstNewline(s: string): (k: nat)
    ensures k <= |s|
    ensures forall j :: 0 <= j < k ==> s[j] != '\n'
    ensures k < |s| ==> s[k] == '\n'
  {
    if |s| == 0 || s[0] == '\n' then 0 else 1 + FirstNewline(s[1..])
  }

  /** `s.split('\n')`: the lines a text buffer shows for `s`. */
  function SplitLines(s: string): (r: seq<string>)
    ensures |r| > 0
    decreases |s|
  {
    var k := FirstNewline(s);
    if k == |s| then [s] else [s[..k]] + SplitLines(s[k + 1..])
  }

  predicate NoNewline(s: string) {
    '\n' !in s
  }

  /** `s` with each line feed replaced by a space. */
  function Unwrap(s: string): (r: string)
    ensures |r| == |s| && NoNewline(r)
    ensures forall i :: 0 <= i < |s| && s[i] != '\n' ==> r[i] == s[i]
  {
    seq(|s|, i requires 0 <= i < |s| => if s[i] == '\n' then ' ' else s[i])
  }

  /** Unwrapping changes nothing in a text without line feeds. */
  lemma UnwrapNewlineFree(s: string)
    requires NoNewline(s)
    ensures Unwrap(s) == s
  {
    assert forall i :: 0 <= i < |s| ==> s[i] != '\n';
  }

  function NewlineCount(s: string): nat {
    multiset(s)['\n']
  }

  /** Splitting undoes joining when no joined piece holds a line feed. */
  lemma {:induction false} SplitJoin(ls: seq<string>)
    requires |ls| > 0
    requires forall i :: 0 <= i < |ls| ==> NoNewline(ls[i])
    ensures SplitLines(JoinLines(ls)) == ls
    decreases |ls|
  {
    var s := JoinLines(ls);
    if |ls| == 1 {
      assert FirstNewline(s) == |s|;
    } else {
      var rest := JoinLines(ls[1..]);
      assert s == ls[0] + "\n" + rest;
      assert FirstNewline(s) == |ls[0]| by {
        assert s[|ls[0]|] == '\n';
        forall j | 0 <= j < |ls[0]| ensures s[j] != '\n' {
          assert s[j] == ls[0][j];
        }
      }
      assert s[..|ls[0]|] == ls[0];
      assert s[|ls[0]| + 1..] == rest;
      SplitJoin(ls[1..]);
    }
  }

  /** A sequence is its part before `k`, element `k`, and its part after. */
  lemma SplitAround<T>(s: seq<T>, k: nat)
    requires k < |s|
    ensures s == s[..k] + [s[k]] + s[k + 1..]
  {
  }

  /** Joining undoes splitting, for every text. */
  lemma {:induction false} JoinSplit(s: string)
    ensures JoinLines(SplitLines(s)) == s
    decreases |s|
  {
    var k := FirstNewline(s);
    if k < |s| {
      var rest := SplitLines(s[k + 1..]);
      JoinSplit(s[k + 1..]);
      var ls := [s[..k]] + rest;
      assert SplitLines(s) == ls;
      assert ls[0] == s[..k] && ls[1..] == rest;
      assert JoinLines(ls) == s[..k] + "\n" + JoinLines(rest);
      SplitAround(s, k);
    }
  }

  /** A text has one more buffer line than it has line feeds. */
  lemma {:induction false} SplitLinesCount(s: string)
    ensures |SplitLines(s)| == NewlineCount(s) + 1
    decreases |s|
  {
    var k := FirstNewline(s);
    if k == |s| {
      assert '\n' !in multiset(s);
    } else {
      assert s == s[..k] + "\n" + s[k + 1..];
      assert multiset(s) == multiset(s[..k]) + multiset{'\n'} + multiset(s[k + 1..]);
      assert '\n' !in multiset(s[..k]);
      SplitLinesCount(s[k + 1..]);
    }
  }
}
