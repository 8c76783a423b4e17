/** The Python `str` operations the forms and validators rely on:
    `isspace`, `strip()`, `split()` with no argument, `" ".join`,
    `lower()` and `rfind`. */
module PyText {

  /** Python's whitespace (`str.isspace`, which is also what `\s` matches in
      a `str` regular expression): U+0009..U+000D, U+001C..U+0020, U+0085,
      U+00A0, U+1680, U+2000..U+200A, U+2028, U+2029, U+202F, U+205F, U+3000. */
  predicate IsSpace(c: char) {
    || ('\t' <= c <= '\r')
    || ('\U{1C}' <= c <= ' ')
    || c == '\U{85}' || c == '\U{A0}' || c == '\U{1680}'
    || ('\U{2000}' <= c <= '\U{200A}')
    || c == '\U{2028}' || c == '\U{2029}' || c == '\U{202F}' || c == '\U{205F}'
    || c == '\U{3000}'
  }

  /** A token `split()` can produce: non-empty and free of whitespace. */
  predicate IsWord(w: string) {
    w != [] && forall i :: 0 <= i < |w| ==> !IsSpace(w[i])
  }

  predicate AllSpace(s: string) {
    forall i :: 0 <= i < |s| ==> IsSpace(s[i])
  }

  /** Length of the leading run of non-whitespace characters of `s`. */
  function WordEnd(s: string): (n: nat)
    ensures n <= |s|
    ensures forall k :: 0 <= k < n ==> !IsSpace(s[k])
    ensures n < |s| ==> IsSpace(s[n])
  {
    if s == [] || IsSpace(s[0]) then 0 else 1 + WordEnd(s[1..])
  }

  /** `s.split()`: the maximal runs of non-whitespace, left to right. */
  function Split(s: string): seq<string>
    decreases |s|
  {
    if s == [] then []
    else if IsSpace(s[0]) then Split(s[1..])
    else
      var n := WordEnd(s);
      [s[..n]] + Split(s[n..])
  }

  /** `" ".join(ws)` */
  function Join(ws: seq<string>): string {
    if |ws| == 0 then ""
    else if |ws| == 1 then ws[0]
    else ws[0] + " " + Join(ws[1..])
  }

  function TrimLeft(s: string): string {
    if s != [] && IsSpace(s[0]) then TrimLeft(s[1..]) else s
  }

  function TrimRight(s: string): string {
    if s != [] && IsSpace(s[|s| - 1]) then TrimRight(s[..|s| - 1]) else s
  }

  /** `s.strip()` */
  function Strip(s: string): string {
    TrimRight(TrimLeft(s))
  }

  /** `str.lower()` restricted to ASCII: every other character is kept. */
  function LowerChar(c: char): char {
    if 'A' <= c <= 'Z' then (c as int + 32) as char else c
  }

  function Lower(s: string): string {
    seq(|s|, i requires 0 <= i < |s| => LowerChar(s[i]))
  }

  /** `s.rfind(c)`: the last index holding `c`, or -1. */
  function LastIndexOf(s: string, c: char): (i: int)
    ensures -1 <= i < |s|
    ensures i >= 0 ==> s[i] == c
    ensures forall k :: i < k < |s| ==> s[k] != c
  {
    if s == [] then -1
    else if s[|s| - 1] == c then |s| - 1
    else LastIndexOf(s[..|s| - 1], c)
  }

  // ---------------------------------------------------------------------
  // split()

  /** Every token `split()` returns is a non-empty run without whitespace. */
  lemma {:induction false} SplitYieldsWords(s: string)
    ensures forall i :: 0 <= i < |Split(s)| ==> IsWord(Split(s)[i])
    decreases |s|
  {
    if s == [] {
    } else if IsSpace(s[0]) {
      SplitYieldsWords(s[1..]);
    } else {
      var n := WordEnd(s);
      SplitYieldsWords(s[n..]);
    }
  }

  /** Whitespace only splits into nothing. */
  lemma {:induction false} SplitAllSpace(s: string)
    requires AllSpace(s)
    ensures Split(s) == []
    decreases |s|
  {
    if s != [] {
      SplitAllSpace(s[1..]);
    }
  }

  /** A word followed by whitespace (or nothing) splits off as one token. */
  lemma SplitWordThen(w: string, s: string)
    requires IsWord(w)
    requires s == [] || IsSpace(s[0])
    ensures Split(w + s) == [w] + Split(s)
  {
    var t := w + s;
    var n := WordEnd(t);
    assert forall k :: 0 <= k < |w| ==> t[k] == w[k];
    assert |w| < |t| ==> t[|w|] == s[0];
    assert n == |w|;
    assert t[..n] == w;
    assert t[n..] == s;
  }

  /** Trailing whitespace does not change what `split()` returns. */
  lemma {:induction false} SplitAppendSpace(a: string, b: string)
    requires AllSpace(b)
    ensures Split(a + b) == Split(a)
    decreases |a|
  {
    var t := a + b;
    if a == [] {
      assert t == b;
      SplitAllSpace(b);
    } else if IsSpace(a[0]) {
      assert t[1..] == a[1..] + b;
      SplitAppendSpace(a[1..], b);
    } else {
      var n := WordEnd(a);
      var m := WordEnd(t);
      assert forall k :: 0 <= k < |a| ==> t[k] == a[k];
      assert |a| < |t| ==> t[|a|] == b[0];
      assert m == n;
      assert t[..n] == a[..n];
      assert t[n..] == a[n..] + b;
      SplitAppendSpace(a[n..], b);
    }
  }

  lemma {:induction false} SplitTrimLeft(s: string)
    ensures Split(TrimLeft(s)) == Split(s)
    decreases |s|
  {
    if s != [] && IsSpace(s[0]) {
      SplitTrimLeft(s[1..]);
    }
  }

  lemma {:induction false} SplitTrimRight(s: string)
    ensures Split(TrimRight(s)) == Split(s)
    decreases |s|
  {
    if s != [] && IsSpace(s[|s| - 1]) {
      var init := s[..|s| - 1];
      assert s == init + [s[|s| - 1]];
      SplitAppendSpace(init, [s[|s| - 1]]);
      SplitTrimRight(init);
    }
  }

  /** `s.strip().split() == s.split()`: the strip before a split is redundant. */
  lemma SplitIgnoresStrip(s: string)
    ensures Split(Strip(s)) == Split(s)
  {
    SplitTrimLeft(s);
    SplitTrimRight(TrimLeft(s));
  }

  /** `split()` inverts `" ".join` on words: the round trip gives back the
      tokens exactly. */
  lemma {:induction false} SplitJoin(ws: seq<string>)
    requires forall i :: 0 <= i < |ws| ==> IsWord(ws[i])
    ensures Split(Join(ws)) == ws
    decreases |ws|
  {
    if |ws| == 1 {
      assert ws[0] + "" == ws[0];
      SplitWordThen(ws[0], "");
    } else if |ws| > 1 {
      var rest := Join(ws[1..]);
      assert Join(ws) == ws[0] + (" " + rest);
      SplitWordThen(ws[0], " " + rest);
      assert (" " + rest)[1..] == rest;
      SplitJoin(ws[1..]);
    }
  }

  /** Every character of every token of `split()` occurs in the string. */
  lemma {:induction false} SplitTokensFromText(s: string)
    ensures forall i, k :: 0 <= i < |Split(s)| && 0 <= k < |Split(s)[i]| ==> Split(s)[i][k] in s
    decreases |s|
  {
    if s == [] {
    } else if IsSpace(s[0]) {
      SplitTokensFromText(s[1..]);
      assert forall c :: c in s[1..] ==> c in s;
    } else {
      var n := WordEnd(s);
      SplitTokensFromText(s[n..]);
      assert forall i :: 0 < i < |Split(s)| ==> Split(s)[i] == Split(s[n..])[i - 1];
      assert forall c :: c in s[n..] ==> c in s;
      assert forall k :: 0 <= k < n ==> s[..n][k] in s;
    }
  }

  // ---------------------------------------------------------------------
  // strip()

  /** What `TrimLeft` leaves does not start with whitespace. */
  lemma {:induction false} TrimLeftStarts(s: string)
    ensures TrimLeft(s) == [] || !IsSpace(TrimLeft(s)[0])
    decreases |s|
  {
    if s != [] && IsSpace(s[0]) {
      TrimLeftStarts(s[1..]);
    }
  }

  /** `TrimRight` keeps a prefix that does not end with whitespace. */
  lemma {:induction false} TrimRightPrefix(s: string)
    ensures |TrimRight(s)| <= |s| && TrimRight(s) == s[..|TrimRight(s)|]
    ensures TrimRight(s) == [] || !IsSpace(TrimRight(s)[|TrimRight(s)| - 1])
    decreases |s|
  {
    if s != [] && IsSpace(s[|s| - 1]) {
      var init := s[..|s| - 1];
      TrimRightPrefix(init);
      assert init[..|TrimRight(init)|] == s[..|TrimRight(init)|];
    }
  }

  /** `s.strip().strip() == s.strip()` */
  lemma StripIdempotent(s: string)
    ensures Strip(Strip(s)) == Strip(s)
  {
    var l := TrimLeft(s);
    var y := TrimRight(l);
    TrimLeftStarts(s);
    TrimRightPrefix(l);
    assert y != [] ==> y[0] == l[0];
    assert TrimLeft(y) == y;
    assert TrimRight(y) == y;
  }

  /** `"\0" in s` */
  predicate ContainsNul(s: string) {
    '\0' in s
  }

  // ---------------------------------------------------------------------
  // lower() and rfind()

  /** Two strings with the same characters `c` at the same places give the
      same `rfind(c)`. */
  lemma LastIndexOfSamePlaces(a: string, b: string, c: char)
    requires |a| == |b|
    requires forall k :: 0 <= k < |a| ==> (a[k] == c <==> b[k] == c)
    ensures LastIndexOf(a, c) == LastIndexOf(b, c)
  {
    var i, j := LastIndexOf(a, c), LastIndexOf(b, c);
    assert j >= 0 ==> a[j] == c;
    assert i >= 0 ==> b[i] == c;
  }

  /** A tail without `c` does not move `rfind(c)`. */
  lemma LastIndexOfAppend(a: string, b: string, c: char)
    requires forall k :: 0 <= k < |b| ==> b[k] != c
    ensures LastIndexOf(a + b, c) == LastIndexOf(a, c)
  {
    var i, j := LastIndexOf(a + b, c), LastIndexOf(a, c);
    assert forall k :: |a| <= k < |a + b| ==> (a + b)[k] == b[k - |a|];
    assert i < |a|;
    assert j >= 0 ==> (a + b)[j] == c;
    assert i >= 0 ==> a[i] == c;
  }

  lemma LowerSlice(s: string, i: int, j: int)
    requires 0 <= i <= j <= |s|
    ensures Lower(s[i..j]) == Lower(s)[i..j]
  {
  }
}
