/** Python string primitives the quiz code relies on: `str.isspace`,
    `strip()`, `lower()`, `split()` with no separator, `' '.join(...)`
    and the substring test `a in b`. */
module Text {

  /** Python's `str.isspace()` for one character: the ASCII whitespace and
      separator controls plus the Unicode space separators. The same class
      is matched by `\s` in a `re` pattern over `str`. */
  predicate IsSpace(c: char) {
    var n := c as int;
    (9 <= n <= 13) || (28 <= n <= 32) || n == 0x85 || n == 0xA0 || n == 0x1680
    || (0x2000 <= n <= 0x200A) || n == 0x2028 || n == 0x2029 || n == 0x202F
    || n == 0x205F || n == 0x3000
  }

  /** No character of `s` is whitespace. */
  predicate NoSpace(s: string) {
    forall i :: 0 <= i < |s| ==> !IsSpace(s[i])
  }

  /** `s` is one word as `split()` produces it: non-empty, no whitespace. */
  predicate IsWord(s: string) {
    |s| > 0 && NoSpace(s)
  }

  /** Every element of `ws` is a word. */
  predicate AllWords(ws: seq<string>) {
    forall i :: 0 <= i < |ws| ==> IsWord(ws[i])
  }

  /** `s.lstrip()`: drops the leading whitespace. */
  function TrimLeft(s: string): (r: string)
    ensures |r| <= |s|
    ensures |r| > 0 ==> !IsSpace(r[0])
  {
    if |s| > 0 && IsSpace(s[0]) then TrimLeft(s[1..]) else s
  }

  /** `lstrip()` returns a suffix of its input. */
  lemma {:induction false} TrimLeftSuffix(s: string)
    ensures TrimLeft(s) == s[|s| - |TrimLeft(s)|..]
  {
    if |s| > 0 && IsSpace(s[0]) {
      TrimLeftSuffix(s[1..]);
    }
  }

  /** Only whitespace is dropped by `lstrip()`. */
  lemma {:induction false} TrimLeftDropsSpace(s: string)
    ensures forall i :: 0 <= i < |s| - |TrimLeft(s)| ==> IsSpace(s[i])
  {
    if |s| > 0 && IsSpace(s[0]) {
      TrimLeftDropsSpace(s[1..]);
    }
  }

  /** `s.rstrip()`: drops the trailing whitespace. */
  function TrimRight(s: string): (r: string)
    ensures |r| <= |s| && r == s[..|r|]
    ensures |r| > 0 ==> !IsSpace(r[|r| - 1])
  {
    if |s| > 0 && IsSpace(s[|s| - 1]) then TrimRight(s[..|s| - 1]) else s
  }

  /** Only whitespace is dropped by `rstrip()`. */
  lemma {:induction false} TrimRightDropsSpace(s: string)
    ensures forall i :: |TrimRight(s)| <= i < |s| ==> IsSpace(s[i])
  {
    if |s| > 0 && IsSpace(s[|s| - 1]) {
      TrimRightDropsSpace(s[..|s| - 1]);
    }
  }

  /** `s.strip()`: drops whitespace at both ends and nothing else. */
  function Strip(s: string): (r: string)
    ensures |r| <= |s|
    ensures |r| > 0 ==> !IsSpace(r[0]) && !IsSpace(r[|r| - 1])
    ensures (|s| > 0 ==> !IsSpace(s[0]) && !IsSpace(s[|s| - 1])) ==> r == s
  {
    var l := TrimLeft(s);
    var r := TrimRight(l);
    assert |r| > 0 ==> r[0] == l[0];
    assert |s| > 0 && !IsSpace(s[0]) ==> l == s;
    r
  }

  /** What `strip()` keeps is one contiguous slice of its input, and every
      character outside the slice is whitespace. */
  lemma StripSlice(s: string)
    ensures exists i, j ::
      && 0 <= i <= j <= |s| && Strip(s) == s[i..j]
      && (forall k :: 0 <= k < i ==> IsSpace(s[k]))
      && (forall k :: j <= k < |s| ==> IsSpace(s[k]))
  {
    var l := TrimLeft(s);
    var r := TrimRight(l);
    var i := |s| - |l|;
    TrimLeftSuffix(s);
    TrimLeftDropsSpace(s);
    TrimRightDropsSpace(l);
    assert Strip(s) == r == s[i..i + |r|];
    forall k | i + |r| <= k < |s| ensures IsSpace(s[k]) {
      assert s[k] == l[k - i];
    }
  }

  /** `strip()` returns the empty string exactly when the input is all
      whitespace. */
  lemma StripEmptyIffBlank(s: string)
    ensures Strip(s) == [] <==> forall i :: 0 <= i < |s| ==> IsSpace(s[i])
  {
    var l := TrimLeft(s);
    TrimLeftDropsSpace(s);
    TrimLeftSuffix(s);
    TrimRightDropsSpace(l);
    assert Strip(s) == TrimRight(l);
    if Strip(s) == [] && |l| > 0 {
      assert false;
    }
  }

  /** `lower()` on one character, for the ASCII letters. */
  function LowerChar(c: char): char {
    if 'A' <= c <= 'Z' then (c as int + 32) as char else c
  }

  /** `s.lower()`, character by character. */
  function Lower(s: string): (r: string)
    ensures |r| == |s|
    ensures forall i :: 0 <= i < |s| ==> r[i] == LowerChar(s[i])
  {
    seq(|s|, i requires 0 <= i < |s| => LowerChar(s[i]))
  }

  /** The longest prefix of `s` that holds no whitespace. */
  function TakeWord(s: string): (r: string)
    ensures |r| <= |s|
    ensures forall i :: 0 <= i < |r| ==> !IsSpace(s[i])
    ensures |r| < |s| ==> IsSpace(s[|r|])
    ensures |s| > 0 && !IsSpace(s[0]) ==> |r| > 0
  {
    if |s| == 0 || IsSpace(s[0]) then [] else [s[0]] + TakeWord(s[1..])
  }

  /** The word taken is a prefix of the input. */
  lemma {:induction false} TakeWordPrefix(s: string)
    ensures TakeWord(s) == s[..|TakeWord(s)|]
    ensures NoSpace(TakeWord(s))
  {
    if |s| > 0 && !IsSpace(s[0]) {
      TakeWordPrefix(s[1..]);
    }
  }

  /** `s.split()`: the maximal runs of non-whitespace, in order. */
  function Split(s: string): seq<string>
    decreases |s|
  {
    var t := TrimLeft(s);
    if |t| == 0 then []
    else
      var w := TakeWord(t);
      if |w| == 0 then [] // t starts with a non-space, so w is never empty
      else [w] + Split(t[|w|..])
  }

  /** Every piece `split()` returns is a word. */
  lemma {:induction false} SplitWords(s: string)
    ensures AllWords(Split(s))
    decreases |s|
  {
    var t := TrimLeft(s);
    if |t| > 0 {
      var w := TakeWord(t);
      TakeWordPrefix(t);
      SplitWords(t[|w|..]);
      var r := Split(s);
      assert r == [w] + Split(t[|w|..]);
      forall i | 0 <= i < |r| ensures IsWord(r[i]) {
        if i > 0 { assert r[i] == Split(t[|w|..])[i - 1]; }
      }
    }
  }

  /** A string has no words exactly when it is all whitespace. */
  lemma SplitEmptyIffBlank(s: string)
    ensures Split(s) == [] <==> forall i :: 0 <= i < |s| ==> IsSpace(s[i])
  {
    var t := TrimLeft(s);
    TrimLeftDropsSpace(s);
    TrimLeftSuffix(s);
    if |t| > 0 {
      assert !IsSpace(s[|s| - |t|]);
    }
  }

  /** `' '.join(ws)`. */
  function Join(ws: seq<string>): (r: string)
    ensures |ws| > 0 ==> |r| == Width(ws) - 1
    ensures |ws| == 0 ==> r == []
  {
    if |ws| == 0 then []
    else if |ws| == 1 then ws[0]
    else ws[0] + " " + Join(ws[1..])
  }

  /** The summed size of `ws` counting one separator per word,
      `sum(len(w) + 1 for w in ws)`. */
  function Width(ws: seq<string>): (n: nat)
    ensures |ws| > 0 ==> n >= |ws|
  {
    if |ws| == 0 then 0 else |ws[0]| + 1 + Width(ws[1..])
  }

  lemma {:induction false} WidthAppend(a: seq<string>, b: seq<string>)
    ensures Width(a + b) == Width(a) + Width(b)
  {
    if |a| == 0 {
      assert a + b == b;
    } else {
      assert (a + b)[1..] == a[1..] + b;
      WidthAppend(a[1..], b);
    }
  }

  /** Python's `a in b` for strings: `a` occurs contiguously in `b`.
      The empty string occurs in every string. */
  predicate IsSubstring(a: string, b: string) {
    a <= b || (|b| > 0 && IsSubstring(a, b[1..]))
  }

  /** `set(s.split())`. */
  function WordSet(s: string): set<string> {
    set w | w in Split(s)
  }

  lemma {:induction false} TakeWordOfWord(w: string, rest: string)
    requires NoSpace(w)
    requires |rest| > 0 ==> IsSpace(rest[0])
    ensures TakeWord(w + rest) == w
  {
    if |w| > 0 {
      assert (w + rest)[1..] == w[1..] + rest;
      TakeWordOfWord(w[1..], rest);
      assert [w[0]] + w[1..] == w;
    } else {
      assert w + rest == rest;
    }
  }

  /** A word followed by nothing or by whitespace splits off as the first word. */
  lemma SplitWordThen(w: string, rest: string)
    requires IsWord(w)
    requires |rest| > 0 ==> IsSpace(rest[0])
    ensures Split(w + rest) == [w] + Split(rest)
  {
    var s := w + rest;
    assert s[0] == w[0];
    assert TrimLeft(s) == s;
    TakeWordOfWord(w, rest);
    assert s[|w|..] == rest;
  }

  lemma SplitSpaceThen(rest: string)
    ensures Split(" " + rest) == Split(rest)
  {
    SplitSpaceCons(' ', rest);
  }

  /** A leading whitespace character does not change the words. */
  lemma SplitSpaceCons(c: char, rest: string)
    requires IsSpace(c)
    ensures Split([c] + rest) == Split(rest)
  {
    assert ([c] + rest)[1..] == rest;
    assert TrimLeft([c] + rest) == TrimLeft(rest);
  }

  /** A leading non-space character starts the first word: it becomes a word
      of its own when whitespace or the end follows, and is glued to the
      front of the first word otherwise. */
  lemma SplitWordCons(c: char, rest: string)
    requires !IsSpace(c)
    ensures |rest| == 0 || IsSpace(rest[0]) ==> Split([c] + rest) == [[c]] + Split(rest)
    ensures |rest| > 0 && !IsSpace(rest[0]) ==>
      |Split(rest)| > 0 && Split([c] + rest) == [[c] + Split(rest)[0]] + Split(rest)[1..]
  {
    if |rest| > 0 && !IsSpace(rest[0]) {
      SplitWordGlue(c, rest);
    } else {
      SplitWordAlone(c, rest);
    }
  }

  lemma SplitWordAlone(c: char, rest: string)
    requires !IsSpace(c) && (|rest| == 0 || IsSpace(rest[0]))
    ensures Split([c] + rest) == [[c]] + Split(rest)
  {
    var s := [c] + rest;
    assert s[1..] == rest;
    assert TrimLeft(s) == s;
    assert TakeWord(rest) == [];
    assert TakeWord(s) == [c];
    assert s[1..] == rest;
  }

  lemma SplitWordGlue(c: char, rest: string)
    requires !IsSpace(c) && |rest| > 0 && !IsSpace(rest[0])
    ensures |Split(rest)| > 0 && Split([c] + rest) == [[c] + Split(rest)[0]] + Split(rest)[1..]
  {
    var s := [c] + rest;
    assert s[1..] == rest;
    assert TrimLeft(s) == s;
    assert TrimLeft(rest) == rest;
    var w := TakeWord(rest);
    TakeWordPrefix(rest);
    assert TakeWord(s) == [c] + w;
    assert s[|[c] + w|..] == rest[|w|..];
  }

  /** Putting the same character in front of two strings with the same
      words, which both start a word or both do not, gives the same words. */
  lemma SplitConsCongruent(c: char, a: string, b: string)
    requires Split(a) == Split(b)
    requires (|a| > 0 && !IsSpace(a[0])) <==> (|b| > 0 && !IsSpace(b[0]))
    ensures Split([c] + a) == Split([c] + b)
  {
    if IsSpace(c) {
      SplitSpaceCons(c, a);
      SplitSpaceCons(c, b);
    } else {
      SplitWordCons(c, a);
      SplitWordCons(c, b);
    }
  }

  /** Trailing whitespace does not change the words. */
  lemma {:induction false} SplitTrailingSpace(x: string, z: string)
    requires forall i :: 0 <= i < |z| ==> IsSpace(z[i])
    ensures Split(x + z) == Split(x)
  {
    if |x| == 0 {
      SplitBlank(x, z);
    } else {
      var tail := x[1..];
      SplitTrailingSpace(tail, z);
      SplitTrailingStep(x[0], tail, z);
      HeadTail(x);
    }
  }

  lemma SplitBlank(x: string, z: string)
    requires |x| == 0
    requires forall i :: 0 <= i < |z| ==> IsSpace(z[i])
    ensures Split(x + z) == Split(x)
  {
    assert x + z == z;
    SplitEmptyIffBlank(z);
    SplitEmptyIffBlank(x);
  }

  lemma SplitTrailingStep(c: char, tail: string, z: string)
    requires Split(tail + z) == Split(tail)
    requires |z| > 0 ==> IsSpace(z[0])
    ensures Split([c] + tail + z) == Split([c] + tail)
  {
    ConcatFacts(c, tail, z);
    SplitConsCongruent(c, tail + z, tail);
  }

  lemma HeadTail(x: string)
    requires |x| > 0
    ensures x == [x[0]] + x[1..]
  {
  }

  lemma ConcatFacts(c: char, a: string, b: string)
    ensures [c] + a + b == [c] + (a + b)
    ensures |a| > 0 ==> (a + b)[0] == a[0]
    ensures |a| == 0 ==> a + b == b
  {
  }

  /** Stripping whitespace at either end does not change the words. */
  lemma SplitStrip(x: string)
    ensures Split(Strip(x)) == Split(x)
  {
    var l := TrimLeft(x);
    assert Strip(x) == TrimRight(l);
    SplitTrimLeft(x);
    SplitTrimRight(l);
  }

  lemma SplitTrimLeft(x: string)
    ensures Split(TrimLeft(x)) == Split(x)
  {
    assert TrimLeft(TrimLeft(x)) == TrimLeft(x);
  }

  lemma SplitTrimRight(l: string)
    ensures Split(TrimRight(l)) == Split(l)
  {
    var r := TrimRight(l);
    var z := l[|r|..];
    assert l == r + z;
    TrimRightDropsSpace(l);
    forall i | 0 <= i < |z|
      ensures IsSpace(z[i])
    {
      assert z[i] == l[|r| + i];
    }
    SplitTrailingSpace(r, z);
  }

  /** Joining words with single spaces and splitting again gives the
      words back. */
  lemma {:induction false} SplitJoin(ws: seq<string>)
    requires AllWords(ws)
    ensures Split(Join(ws)) == ws
  {
    if |ws| == 0 {
    } else if |ws| == 1 {
      SplitWordThen(ws[0], "");
      assert ws[0] + "" == ws[0];
    } else {
      var tail := ws[1..];
      AllWordsTail(ws);
      SplitJoin(tail);
      SplitJoinStep(ws[0], Join(tail));
      JoinCons(ws);
    }
  }

  lemma AllWordsTail(ws: seq<string>)
    requires AllWords(ws) && |ws| > 0
    ensures IsWord(ws[0]) && AllWords(ws[1..])
  {
    forall i | 0 <= i < |ws| - 1 ensures IsWord(ws[1..][i]) {
      assert ws[1..][i] == ws[i + 1];
    }
  }

  /** Words joined by single spaces start and end with a non-space. */
  lemma {:induction false} JoinEnds(ws: seq<string>)
    requires AllWords(ws) && |ws| > 0
    ensures |Join(ws)| > 0 && !IsSpace(Join(ws)[0]) && !IsSpace(Join(ws)[|Join(ws)| - 1])
  {
    AllWordsTail(ws);
    if |ws| > 1 {
      JoinEnds(ws[1..]);
      JoinCons(ws);
      var j := Join(ws);
      var rest := Join(ws[1..]);
      assert j[0] == ws[0][0];
      assert j[|j| - 1] == rest[|rest| - 1];
    }
  }

  lemma JoinCons(ws: seq<string>)
    requires |ws| > 1
    ensures Join(ws) == ws[0] + " " + Join(ws[1..])
    ensures ws == [ws[0]] + ws[1..]
  {
  }

  lemma SplitJoinStep(w: string, rest: string)
    requires IsWord(w)
    ensures Split(w + " " + rest) == [w] + Split(rest)
  {
    var sp := " " + rest;
    assert w + " " + rest == w + sp;
    assert IsSpace(sp[0]);
    SplitWordThen(w, sp);
    SplitSpaceThen(rest);
  }
}
