/**
  The string operations the helm chart webview relies on, modelled on
  `seq<char>`:
  - `toUpperCase`/`toLowerCase` as ASCII case maps;
  - `localeCompare` as lexicographic order on character codes;
  - `includes` as a substring test;
  - `split(sep)` / `join(sep)` on one character, and `split(/\s+/)` on
    runs of JavaScript white space.
 */
module Strings {

  /** ASCII model of `toUpperCase` on one character. */
  function Upper(c: char): char
  {
    if 'a' <= c <= 'z' then (c as int - 32) as char else c
  }

  /** ASCII model of `toLowerCase` on one character. */
  function LowerChar(c: char): char
  {
    if 'A' <= c <= 'Z' then (c as int + 32) as char else c
  }

  /** ASCII model of `toLowerCase` on a string. */
  function Lower(s: string): string
  {
    seq(|s|, i requires 0 <= i < |s| => LowerChar(s[i]))
  }

  /** The characters the regular-expression class `\s` matches in JavaScript. */
  predicate IsWhitespace(c: char)
  {
    var n := c as int;
    (9 <= n <= 13) || n == 32 || n == 0xA0 || n == 0x1680 ||
    (0x2000 <= n <= 0x200A) || n == 0x2028 || n == 0x2029 ||
    n == 0x202F || n == 0x205F || n == 0x3000 || n == 0xFEFF
  }

  // ---------------------------------------------------------------------
  // localeCompare, modelled as lexicographic order on character codes

  /** `a.localeCompare(b) <= 0`. */
  predicate LessEq(a: string, b: string)
    decreases |a|
  {
    |a| == 0 ||
    (|b| > 0 && (a[0] < b[0] || (a[0] == b[0] && LessEq(a[1..], b[1..]))))
  }

  lemma {:induction false} LessEqReflexive(a: string)
    ensures LessEq(a, a)
    decreases |a|
  {
    if |a| > 0 {
      LessEqReflexive(a[1..]);
    }
  }

  lemma {:induction false} LessEqTotal(a: string, b: string)
    ensures LessEq(a, b) || LessEq(b, a)
    decreases |a|
  {
    if |a| > 0 && |b| > 0 && a[0] == b[0] {
      LessEqTotal(a[1..], b[1..]);
    }
  }

  lemma {:induction false} LessEqAntisymmetric(a: string, b: string)
    requires LessEq(a, b) && LessEq(b, a)
    ensures a == b
    decreases |a|
  {
    if |a| > 0 {
      LessEqAntisymmetric(a[1..], b[1..]);
      assert a == [a[0]] + a[1..] && b == [b[0]] + b[1..];
    }
  }

  lemma {:induction false} LessEqTransitive(a: string, b: string, c: string)
    requires LessEq(a, b) && LessEq(b, c)
    ensures LessEq(a, c)
    decreases |a|
  {
    if |a| > 0 && a[0] == b[0] && b[0] == c[0] {
      LessEqTransitive(a[1..], b[1..], c[1..]);
    }
  }

  /** `a.localeCompare(b)`: negative, zero or positive. */
  function Compare(a: string, b: string): (r: int)
    ensures r == 0 <==> a == b
    ensures r <= 0 <==> LessEq(a, b)
    ensures -1 <= r <= 1
  {
    LessEqReflexive(a);
    if a == b then 0
    else if LessEq(a, b) then -1
    else 1
  }

  /** Swapping the arguments of `localeCompare` flips the sign of its result. */
  lemma CompareAntisymmetric(a: string, b: string)
    ensures Compare(a, b) == -Compare(b, a)
  {
    LessEqTotal(a, b);
    if LessEq(a, b) && LessEq(b, a) {
      LessEqAntisymmetric(a, b);
    }
  }

  // ---------------------------------------------------------------------
  // includes

  /** `hay` starts with `needle`. */
  predicate IsPrefix(needle: string, hay: string)
  {
    |needle| <= |hay| && hay[..|needle|] == needle
  }

  /** `hay.includes(needle)`: `needle` occurs in `hay` at some position. */
  predicate Contains(hay: string, needle: string)
    decreases |hay|
  {
    IsPrefix(needle, hay) || (|hay| > 0 && Contains(hay[1..], needle))
  }

  /** `Contains` finds exactly the positions at which `needle` occurs. */
  lemma {:induction false} ContainsAt(hay: string, needle: string, k: nat)
    requires k + |needle| <= |hay| && hay[k..k + |needle|] == needle
    ensures Contains(hay, needle)
    decreases k
  {
    if k > 0 {
      assert hay[1..][k - 1..k - 1 + |needle|] == hay[k..k + |needle|];
      ContainsAt(hay[1..], needle, k - 1);
    } else {
      assert IsPrefix(needle, hay);
    }
  }

  /** ... and only those. */
  lemma {:induction false} ContainsWitness(hay: string, needle: string) returns (k: nat)
    requires Contains(hay, needle)
    ensures k + |needle| <= |hay| && hay[k..k + |needle|] == needle
    decreases |hay|
  {
    if IsPrefix(needle, hay) {
      k := 0;
    } else {
      var j := ContainsWitness(hay[1..], needle);
      assert hay[1..][j..j + |needle|] == hay[j + 1..j + 1 + |needle|];
      k := j + 1;
    }
  }

  /** Every string includes the empty string. */
  lemma ContainsEmpty(hay: string)
    ensures Contains(hay, "")
  {
    assert IsPrefix("", hay);
  }

  // ---------------------------------------------------------------------
  // split and join on one character

  /** The index of the first occurrence of `c` in `s` (`s.indexOf(c)`). */
  function IndexOf(s: string, c: char): (i: nat)
    requires c in s
    ensures i < |s| && s[i] == c && c !in s[..i]
  {
    if s[0] == c then 0
    else
      var j := IndexOf(s[1..], c);
      assert s[..j + 1] == [s[0]] + s[1..][..j];
      j + 1
  }

  /** `s.split(sep)`: the pieces between the occurrences of `sep`, empty ones included. */
  function SplitOn(s: string, sep: char): (r: seq<string>)
    ensures |r| >= 1
    ensures forall k :: 0 <= k < |r| ==> sep !in r[k]
    decreases |s|
  {
    if sep !in s then [s]
    else
      var i := IndexOf(s, sep);
      [s[..i]] + SplitOn(s[i + 1..], sep)
  }

  /** `words.join(sep)`. */
  function Join(words: seq<string>, sep: char): string
    requires |words| >= 1
  {
    if |words| == 1 then words[0]
    else words[0] + [sep] + Join(words[1..], sep)
  }

  /** Joining the pieces of a split with the same separator gives the string back. */
  lemma {:induction false} JoinSplit(s: string, sep: char)
    ensures Join(SplitOn(s, sep), sep) == s
    decreases |s|
  {
    if sep in s {
      var i := IndexOf(s, sep);
      var rest := SplitOn(s[i + 1..], sep);
      assert ([s[..i]] + rest)[1..] == rest;
      JoinSplit(s[i + 1..], sep);
      assert s == s[..i] + [sep] + s[i + 1..];
    }
  }

  // ---------------------------------------------------------------------
  // split(/\s+/)

  /**
    The length of the longest prefix of `s` made of white space (`ws`) or
    of characters other than white space (`!ws`).
   */
  function Span(s: string, ws: bool): (n: nat)
    ensures n <= |s|
    ensures forall k :: 0 <= k < n ==> IsWhitespace(s[k]) == ws
    ensures n < |s| ==> IsWhitespace(s[n]) != ws
  {
    if |s| == 0 || IsWhitespace(s[0]) != ws then 0
    else 1 + Span(s[1..], ws)
  }

  /** `w` holds no white-space character. */
  predicate NoWhitespace(w: string)
  {
    forall j :: 0 <= j < |w| ==> !IsWhitespace(w[j])
  }

  /**
    `s.split(/\s+/)`: the pieces between maximal runs of white space. White
    space at either end yields an empty first or last piece, and the empty
    string yields one empty piece.
   */
  function SplitWhitespace(s: string): (r: seq<string>)
    ensures |r| >= 1
    ensures forall k :: 0 <= k < |r| ==> NoWhitespace(r[k])
    decreases |s|
  {
    var i := Span(s, false);
    if i == |s| then
      assert NoWhitespace(s);
      [s]
    else
      var j := i + Span(s[i..], true);
      assert NoWhitespace(s[..i]);
      [s[..i]] + SplitWhitespace(s[j..])
  }

  /** A string made of white space alone splits into empty pieces only. */
  lemma {:induction false} SplitBlank(s: string)
    requires forall k :: 0 <= k < |s| ==> IsWhitespace(s[k])
    ensures forall k :: 0 <= k < |SplitWhitespace(s)| ==> SplitWhitespace(s)[k] == ""
  {
    if |s| > 0 {
      assert Span(s, false) == 0;
      assert Span(s, true) == |s|;
      assert SplitWhitespace(s[|s|..]) == [""];
    }
  }

  /**
    `s` with every maximal run of white space replaced by one space: a white
    space character followed by another is dropped, the last one of a run
    becomes `' '`, and every other character is kept.
   */
  function Collapse(s: string): string
  {
    if |s| == 0 then ""
    else if IsWhitespace(s[0]) && |s| > 1 && IsWhitespace(s[1]) then Collapse(s[1..])
    else [if IsWhitespace(s[0]) then ' ' else s[0]] + Collapse(s[1..])
  }

  /** A prefix without white space passes through `Collapse` unchanged. */
  lemma {:induction false} CollapseNoWhitespace(w: string, t: string)
    requires NoWhitespace(w)
    ensures Collapse(w + t) == w + Collapse(t)
  {
    if |w| == 0 {
      assert w + t == t;
    } else {
      CollapseNoWhitespace(w[1..], t);
      assert (w + t)[0] == w[0];
      assert (w + t)[1..] == w[1..] + t;
      assert w == [w[0]] + w[1..];
    }
  }

  /** A maximal run of white space at the front collapses to one space. */
  lemma {:induction false} CollapseRun(s: string, m: nat)
    requires 1 <= m <= |s|
    requires forall k :: 0 <= k < m ==> IsWhitespace(s[k])
    requires m < |s| ==> !IsWhitespace(s[m])
    ensures Collapse(s) == [' '] + Collapse(s[m..])
  {
    if m > 1 {
      CollapseRun(s[1..], m - 1);
      assert s[1..][m - 1..] == s[m..];
    }
  }

  /**
    The text collapsed: its first word, one space for the run of white space
    after it, then the rest collapsed.
   */
  lemma CollapseFirstWord(s: string, i: nat, m: nat)
    requires 1 <= m && i + m <= |s|
    requires forall k :: 0 <= k < i ==> !IsWhitespace(s[k])
    requires forall k :: i <= k < i + m ==> IsWhitespace(s[k])
    requires i + m < |s| ==> !IsWhitespace(s[i + m])
    ensures Collapse(s) == s[..i] + [' '] + Collapse(s[i + m..])
  {
    var head, tail := s[..i], s[i..];
    assert head + tail == s;
    CollapseNoWhitespace(head, tail);
    CollapseRun(tail, m);
    assert tail[m..] == s[i + m..];
  }

  /**
    Joining the pieces of `split(/\s+/)` with single spaces gives the text
    with its white-space runs collapsed; since no piece holds white space,
    this fixes the pieces (see `SplitWhitespaceOfCollapse`).
   */
  lemma {:induction false} JoinSplitWhitespace(s: string)
    ensures Join(SplitWhitespace(s), ' ') == Collapse(s)
    decreases |s|
  {
    var i := Span(s, false);
    if i == |s| {
      CollapseNoWhitespace(s, "");
      assert s + "" == s;
    } else {
      var m := Span(s[i..], true);
      var rest := SplitWhitespace(s[i + m..]);
      assert SplitWhitespace(s) == [s[..i]] + rest;
      assert ([s[..i]] + rest)[1..] == rest;
      JoinSplitWhitespace(s[i + m..]);
      assert IsWhitespace(s[i..][0]);
      CollapseFirstWord(s, i, m);
    }
  }

  /** Splitting a join on a separator that no word holds gives the words back. */
  lemma {:induction false} SplitJoin(words: seq<string>, sep: char)
    requires |words| >= 1
    requires forall k :: 0 <= k < |words| ==> sep !in words[k]
    ensures SplitOn(Join(words, sep), sep) == words
  {
    if |words| > 1 {
      var w := words[0];
      var t := Join(words[1..], sep);
      var s := w + [sep] + t;
      assert s[|w|] == sep;
      assert s[..|w|] == w;
      var i := IndexOf(s, sep);
      assert i == |w|;
      assert s[..i] == w;
      assert s[i + 1..] == t;
      SplitJoin(words[1..], sep);
      assert words == [w] + words[1..];
    }
  }

  /** `split(/\s+/)` is `split(' ')` of the collapsed text. */
  lemma SplitWhitespaceOfCollapse(s: string)
    ensures SplitWhitespace(s) == SplitOn(Collapse(s), ' ')
  {
    var r := SplitWhitespace(s);
    forall k | 0 <= k < |r|
      ensures ' ' !in r[k]
    {
      assert NoWhitespace(r[k]);
    }
    JoinSplitWhitespace(s);
    SplitJoin(r, ' ');
  }
}
