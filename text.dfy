/**
 * The three Python `str` methods the catalog relies on: `strip()`, `split()`
 * (no separator: split on runs of whitespace) and `lower()`.
 */
module Text {

  /** `c.isspace()`: the characters Python treats as whitespace. */
  predicate IsSpace(c: char) {
    || ('\t' <= c <= '\r')
    || ('\U{1C}' <= c <= '\U{1F}')
    || c == ' '
    || c == '\U{85}'
    || c == '\U{A0}'
    || c == '\U{1680}'
    || ('\U{2000}' <= c <= '\U{200A}')
    || c == '\U{2028}'
    || c == '\U{2029}'
    || c == '\U{202F}'
    || c == '\U{205F}'
    || c == '\U{3000}'
  }

  ghost predicate AllSpace(s: string) {
    forall i :: 0 <= i < |s| ==> IsSpace(s[i])
  }

  /** Number of whitespace characters at the start of `s`. */
  function LeadingSpace(s: string): (n: nat)
    ensures n <= |s| && AllSpace(s[..n])
    ensures n < |s| ==> !IsSpace(s[n])
  {
    if s != [] && IsSpace(s[0]) then 1 + LeadingSpace(s[1..]) else 0
  }

  /** Number of whitespace characters at the end of `s`. */
  function TrailingSpace(s: string): (n: nat)
    ensures n <= |s| && AllSpace(s[|s| - n..])
    ensures n < |s| ==> !IsSpace(s[|s| - n - 1])
  {
    if s != [] && IsSpace(s[|s| - 1]) then 1 + TrailingSpace(s[..|s| - 1]) else 0
  }

  /**
   * `s.strip()`: `s` without its leading and trailing whitespace. The result is
   * empty exactly when `s` is all whitespace; otherwise it neither starts nor
   * ends with whitespace, and it is what lies between two all-whitespace ends of `s`.
   */
  function Strip(s: string): (t: string)
    ensures t == [] <==> AllSpace(s)
    ensures t != [] ==> !IsSpace(t[0]) && !IsSpace(t[|t| - 1])
    ensures exists a, b :: 0 <= a <= b <= |s| && t == s[a..b] && AllSpace(s[..a]) && AllSpace(s[b..])
  {
    var a := LeadingSpace(s);
    var u := s[a..];
    var b := TrailingSpace(u);
    assert AllSpace(s) ==> a == |s|;
    assert u[..|u| - b] == s[a..|s| - b];
    assert u[|u| - b..] == s[|s| - b..];
    s[a..|s| - b]
  }

  /** Stripping twice is stripping once. */
  lemma StripIdempotent(s: string)
    ensures Strip(Strip(s)) == Strip(s)
  {
    var t := Strip(s);
    assert LeadingSpace(t) == 0;
    assert TrailingSpace(t) == 0;
  }

  /** `c.lower()` for the ASCII capitals; every other character is left as it is. */
  function LowerChar(c: char): char {
    if 'A' <= c <= 'Z' then (c as int + 32) as char else c
  }

  /** `s.lower()` */
  function Lower(s: string): (t: string)
    ensures |t| == |s| && forall i :: 0 <= i < |s| ==> t[i] == LowerChar(s[i])
  {
    seq(|s|, i requires 0 <= i < |s| => LowerChar(s[i]))
  }

  /**
   * `s[a..b]` is one of the words `split()` finds: a non-empty run of
   * non-whitespace characters with whitespace or an end of `s` on each side.
   */
  ghost predicate IsWordAt(s: string, a: int, b: int) {
    && 0 <= a < b <= |s|
    && (forall k :: a <= k < b ==> !IsSpace(s[k]))
    && (a == 0 || IsSpace(s[a - 1]))
    && (b == |s| || IsSpace(s[b]))
  }

  /** The end of the run of non-whitespace characters that starts at `i`. */
  function RunEnd(s: string, i: nat): (j: nat)
    requires i <= |s|
    ensures i <= j <= |s|
    ensures forall k :: i <= k < j ==> !IsSpace(s[k])
    ensures j == |s| || IsSpace(s[j])
    decreases |s| - i
  {
    if i == |s| || IsSpace(s[i]) then i else RunEnd(s, i + 1)
  }

  /** The words of `s` from position `i` on, `i` not being inside a word. */
  function WordsFrom(s: string, i: nat): (ws: seq<string>)
    requires i <= |s|
    ensures forall w :: w in ws ==> w != [] && forall k :: 0 <= k < |w| ==> !IsSpace(w[k])
    decreases |s| - i
  {
    if i == |s| then []
    else if IsSpace(s[i]) then WordsFrom(s, i + 1)
    else
      var j := RunEnd(s, i);
      [s[i..j]] + WordsFrom(s, j)
  }

  /** `s.split()`: the whitespace-separated words of `s`, in order. */
  function Words(s: string): (ws: seq<string>)
    ensures forall w :: w in ws ==> w != [] && forall k :: 0 <= k < |w| ==> !IsSpace(w[k])
  {
    WordsFrom(s, 0)
  }

  /** From a position that is not inside a word, `WordsFrom` yields exactly the words starting there or later. */
  lemma {:induction false} WordsFromExactly(s: string, i: nat, w: string)
    requires i <= |s|
    requires i == 0 || i == |s| || IsSpace(s[i - 1]) || IsSpace(s[i])
    ensures w in WordsFrom(s, i) <==> exists a, b :: i <= a && IsWordAt(s, a, b) && s[a..b] == w
    decreases |s| - i
  {
    if i == |s| {
    } else if IsSpace(s[i]) {
      WordsFromExactly(s, i + 1, w);
      if exists a, b :: i <= a && IsWordAt(s, a, b) && s[a..b] == w {
        var a, b :| i <= a && IsWordAt(s, a, b) && s[a..b] == w;
        assert a != i;
      }
    } else {
      var j := RunEnd(s, i);
      WordsFromExactly(s, j, w);
      assert IsWordAt(s, i, j);
      if exists a, b :: i <= a && IsWordAt(s, a, b) && s[a..b] == w {
        var a, b :| i <= a && IsWordAt(s, a, b) && s[a..b] == w;
        if a == i {
          assert b == j;
        } else {
          assert IsSpace(s[a - 1]);
        }
      }
    }
  }

  /**
   * Whole-word membership: `w` is among `s.split()` exactly when it is a
   * maximal run of non-whitespace characters of `s`.
   */
  lemma WordsExactly(s: string, w: string)
    ensures w in Words(s) <==> exists a, b :: IsWordAt(s, a, b) && s[a..b] == w
  {
    WordsFromExactly(s, 0, w);
  }
}
