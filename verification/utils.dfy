/** The pure text helpers: `clean_text`, which normalises whitespace and
    drops NUL characters, and `chunk_text`, which cuts a long text into
    pieces of whole words for the question generator. */
module Utils {
  import opened Text
  import opened Seqs

  const Nul: char := '\0'

  predicate NotNul(c: char) {
    c != Nul
  }

  /** `s` holds no NUL character. */
  predicate NoNul(s: string) {
    forall i :: 0 <= i < |s| ==> s[i] != Nul
  }

  /** No two neighbouring characters of `s` are both whitespace. */
  predicate NoDoubleSpace(s: string) {
    forall i :: 0 <= i < |s| - 1 ==> !(IsSpace(s[i]) && IsSpace(s[i + 1]))
  }

  // ---------------------------------------------------------------------
  // clean_text
  // ---------------------------------------------------------------------

  /** `re.sub(r'\s+', ' ', s)` as a left-to-right scan. `inRun` says that
      the character before `s` was whitespace, already replaced by the one
      space its run becomes. */
  function CollapseRun(s: string, inRun: bool): string
    decreases |s|
  {
    if |s| == 0 then []
    else if IsSpace(s[0]) then
      if inRun then CollapseRun(s[1..], true) else " " + CollapseRun(s[1..], true)
    else [s[0]] + CollapseRun(s[1..], false)
  }

  /** `re.sub(r'\s+', ' ', s)`: every maximal run of whitespace becomes a
      single space and every other character is copied. */
  function Collapse(s: string): string {
    CollapseRun(s, false)
  }

  /** `s.replace('\x00', '')`. */
  function RemoveNul(s: string): (r: string)
    ensures NoNul(r)
    ensures |r| <= |s|
    ensures forall c :: c != Nul ==> multiset(r)[c] == multiset(s)[c]
    ensures NoNul(s) ==> r == s
  {
    FilterNoNul(s);
    Filter(NotNul, s)
  }

  lemma FilterNoNul(s: string)
    ensures NoNul(s) ==> Filter(NotNul, s) == s
    ensures forall c :: c != Nul ==> multiset(Filter(NotNul, s))[c] == multiset(s)[c]
  {
    if NoNul(s) {
      FilterAll(NotNul, s);
    }
    forall c | c != Nul ensures multiset(Filter(NotNul, s))[c] == multiset(s)[c] {
      FilterCounts(NotNul, s, c);
    }
  }

  /** `clean_text(text)`: empty input gives the empty string; otherwise
      whitespace runs are collapsed first, NULs removed second and the
      result stripped. */
  function CleanText(text: string): (r: string)
    ensures |text| == 0 ==> r == []
    ensures NoNul(r)
    ensures |r| > 0 ==> !IsSpace(r[0]) && !IsSpace(r[|r| - 1])
  {
    if |text| == 0 then []
    else
      var x := RemoveNul(Collapse(text));
      StripNoNul(x);
      Strip(x)
  }

  /** The only whitespace in `s` is the plain space, never two in a row:
      the shape `re.sub(r'\s+', ' ', ...)` leaves behind. */
  predicate Collapsed(s: string) {
    && (forall i :: 0 <= i < |s| && IsSpace(s[i]) ==> s[i] == ' ')
    && NoDoubleSpace(s)
  }

  predicate StartsWithSpace(s: string) {
    |s| > 0 && IsSpace(s[0])
  }

  lemma NoNulSlice(s: string, a: nat, b: nat)
    requires NoNul(s) && a <= b <= |s|
    ensures NoNul(s[a..b])
  {
    forall i | 0 <= i < b - a ensures s[a..b][i] != Nul {
      assert s[a..b][i] == s[a + i];
    }
  }

  lemma NoNulCons(c: char, r: string)
    requires c != Nul && NoNul(r)
    ensures NoNul([c] + r)
  {
    forall i | 0 <= i < |[c] + r| ensures ([c] + r)[i] != Nul {
      if i > 0 {
        assert ([c] + r)[i] == r[i - 1];
      }
    }
  }

  /** Stripping never brings a NUL back. */
  lemma StripNoNul(x: string)
    requires NoNul(x)
    ensures NoNul(Strip(x))
  {
    var l := TrimLeft(x);
    TrimLeftSuffix(x);
    NoNulSlice(x, |x| - |l|, |x|);
    var r := TrimRight(l);
    NoNulSlice(l, 0, |r|);
    assert Strip(x) == r;
  }

  /** Collapsing whitespace adds no NUL. */
  lemma {:induction false} CollapseNoNul(s: string, inRun: bool)
    requires NoNul(s)
    ensures NoNul(CollapseRun(s, inRun))
    decreases |s|
  {
    if |s| > 0 {
      NoNulSlice(s, 1, |s|);
      if IsSpace(s[0]) {
        CollapseNoNul(s[1..], true);
        if !inRun {
          NoNulCons(' ', CollapseRun(s[1..], true));
        }
      } else {
        CollapseNoNul(s[1..], false);
        NoNulCons(s[0], CollapseRun(s[1..], false));
      }
    }
  }

  /** Putting one character in front of a collapsed text keeps it
      collapsed when the character is a non-space, or a plain space not
      followed by whitespace. */
  lemma CollapsedCons(c: char, r: string)
    requires Collapsed(r)
    requires IsSpace(c) ==> c == ' ' && !StartsWithSpace(r)
    ensures Collapsed([c] + r)
  {
    var s := [c] + r;
    forall i | 0 <= i < |s| && i > 0 ensures s[i] == r[i - 1] {
    }
  }

  /** The scan's output is collapsed, and starts with a non-space when the
      scan starts inside a run. */
  lemma {:induction false} CollapseRunCollapsed(s: string, inRun: bool)
    ensures Collapsed(CollapseRun(s, inRun))
    ensures inRun ==> !StartsWithSpace(CollapseRun(s, inRun))
    decreases |s|
  {
    if |s| > 0 {
      if IsSpace(s[0]) {
        CollapseRunCollapsed(s[1..], true);
        if !inRun {
          CollapsedCons(' ', CollapseRun(s[1..], true));
        }
      } else {
        CollapseRunCollapsed(s[1..], false);
        CollapsedCons(s[0], CollapseRun(s[1..], false));
      }
    }
  }

  lemma CollapsedTail(s: string)
    requires Collapsed(s) && |s| > 0
    ensures Collapsed(s[1..])
    ensures IsSpace(s[0]) ==> s[0] == ' ' && !StartsWithSpace(s[1..])
  {
    forall i | 0 <= i < |s| - 1 ensures s[1..][i] == s[i + 1] {
    }
  }

  /** A collapsed text scans to itself. */
  lemma {:induction false} CollapseFixed(x: string, inRun: bool)
    requires Collapsed(x)
    requires inRun ==> !StartsWithSpace(x)
    ensures CollapseRun(x, inRun) == x
    decreases |x|
  {
    if |x| > 0 {
      CollapsedTail(x);
      if IsSpace(x[0]) {
        CollapseFixed(x[1..], true);
        assert x == [' '] + x[1..];
      } else {
        CollapseFixed(x[1..], false);
        assert x == [x[0]] + x[1..];
      }
    }
  }

  lemma CollapsedSlice(s: string, a: nat, b: nat)
    requires Collapsed(s) && a <= b <= |s|
    ensures Collapsed(s[a..b])
  {
    var t := s[a..b];
    forall i | 0 <= i < |t| ensures t[i] == s[a + i] {
    }
  }

  /** Stripping a collapsed text keeps it collapsed. */
  lemma StripCollapsed(x: string)
    requires Collapsed(x)
    ensures Collapsed(Strip(x))
  {
    var l := TrimLeft(x);
    TrimLeftSuffix(x);
    CollapsedSlice(x, |x| - |l|, |x|);
    var r := TrimRight(l);
    CollapsedSlice(l, 0, |r|);
    assert Strip(x) == r;
  }

  /** For NUL-free input the NUL removal step changes nothing. */
  lemma CleanTextNoNul(t: string)
    requires NoNul(t) && |t| > 0
    ensures CleanText(t) == Strip(Collapse(t))
  {
    CollapseNoNul(t, false);
    FilterAll(NotNul, Collapse(t));
  }

  /** Without NULs in the input, the output is collapsed: its only
      whitespace is single plain spaces. */
  lemma CleanTextCollapsed(t: string)
    requires NoNul(t)
    ensures Collapsed(CleanText(t))
    ensures NoDoubleSpace(CleanText(t))
  {
    if |t| > 0 {
      CleanTextNoNul(t);
      CollapseRunCollapsed(t, false);
      StripCollapsed(Collapse(t));
    }
  }

  /** Without NULs in the input, cleaning twice is cleaning once. */
  lemma CleanTextIdempotent(t: string)
    requires NoNul(t)
    ensures CleanText(CleanText(t)) == CleanText(t)
  {
    var x := CleanText(t);
    CleanTextCollapsed(t);
    if |x| > 0 {
      CleanTextNoNul(x);
      CollapseFixed(x, false);
    }
  }

  /** With a non-space first character, the scan outside a run starts with
      a non-space, and with whitespace first it starts with a space. */
  lemma CollapseStartsWord(s: string)
    ensures (|CollapseRun(s, false)| > 0 && !IsSpace(CollapseRun(s, false)[0])) <==> (|s| > 0 && !IsSpace(s[0]))
  {
  }

  /** Collapsing whitespace keeps the words. */
  lemma {:induction false} CollapseKeepsWords(s: string, inRun: bool)
    ensures Split(CollapseRun(s, inRun)) == Split(s)
    decreases |s|
  {
    if |s| > 0 {
      var c := s[0];
      var tail := s[1..];
      HeadTail(s);
      if IsSpace(c) {
        CollapseKeepsWords(tail, true);
        SplitSpaceCons(c, tail);
        if !inRun {
          SplitSpaceThen(CollapseRun(tail, true));
        }
      } else {
        CollapseKeepsWords(tail, false);
        CollapseStartsWord(tail);
        SplitConsCongruent(c, CollapseRun(tail, false), tail);
      }
    }
  }

  /** Cleaning keeps the words: `clean_text(t).split() == t.split()` for
      NUL-free `t`. */
  lemma CleanTextKeepsWords(t: string)
    requires NoNul(t)
    ensures Split(CleanText(t)) == Split(t)
  {
    if |t| > 0 {
      CleanTextNoNul(t);
      SplitStrip(Collapse(t));
      CollapseKeepsWords(t, false);
    }
  }

  /** A run of non-space characters is copied as it is. */
  lemma {:induction false} CollapseWordPrefix(a: string, rest: string)
    requires NoSpace(a)
    ensures CollapseRun(a + rest, false) == a + CollapseRun(rest, false)
  {
    if |a| > 0 {
      var s := a + rest;
      assert s[0] == a[0];
      assert s[1..] == a[1..] + rest;
      CollapseWordPrefix(a[1..], rest);
      assert a == [a[0]] + a[1..];
    } else {
      assert a + rest == rest;
    }
  }

  /** A space outside a run becomes one space and opens a run. */
  lemma CollapseSpaceOpens(rest: string)
    ensures CollapseRun([' '] + rest, false) == " " + CollapseRun(rest, true)
  {
    assert ([' '] + rest)[1..] == rest;
  }

  /** A space inside a run is dropped. */
  lemma CollapseSpaceInRun(rest: string)
    ensures CollapseRun([' '] + rest, true) == CollapseRun(rest, true)
  {
    assert ([' '] + rest)[1..] == rest;
  }

  /** A non-space is copied and closes any run. */
  lemma CollapseCharCloses(c: char, rest: string, inRun: bool)
    requires !IsSpace(c)
    ensures CollapseRun([c] + rest, inRun) == [c] + CollapseRun(rest, false)
  {
    assert ([c] + rest)[1..] == rest;
  }

  /** A word scanned from inside a run is copied as it is. */
  lemma CollapseWordInRun(b: string)
    requires IsWord(b)
    ensures CollapseRun(b, true) == b
  {
    CollapseCharCloses(b[0], b[1..], true);
    CollapseWordPrefix(b[1..], []);
    assert b[1..] + [] == b[1..];
    assert b == [b[0]] + b[1..];
  }

  /** A NUL standing alone between two spaces survives the collapsing step
      and is removed only afterwards, so the output holds two neighbouring
      spaces and a second cleaning changes it. */
  lemma CleanTextNulLeavesDoubleSpace(a: string, b: string)
    requires IsWord(a) && IsWord(b) && NoNul(a) && NoNul(b)
    ensures CleanText(a + [' ', Nul, ' '] + b) == a + [' ', ' '] + b
    ensures CleanText(CleanText(a + [' ', Nul, ' '] + b)) == a + [' '] + b
  {
    var t := a + [' ', Nul, ' '] + b;
    var x := a + [' ', ' '] + b;
    CollapseWithNul(a, b);
    RemoveNulAround(a, b);
    StripWordEnds(x, a, b);
    CleanTextSteps(t, x);
    CleanTwice(a, b);
  }

  lemma CleanTextSteps(t: string, x: string)
    requires |t| > 0 && Collapse(t) == t && RemoveNul(t) == x && Strip(x) == x
    ensures CleanText(t) == x
  {
  }

  lemma CollapseWithNul(a: string, b: string)
    requires IsWord(a) && IsWord(b)
    ensures Collapse(a + [' ', Nul, ' '] + b) == a + [' ', Nul, ' '] + b
  {
    var r1 := [Nul] + ([' '] + b);
    var r0 := [' '] + r1;
    assert a + [' ', Nul, ' '] + b == a + r0;
    CollapseWordPrefix(a, r0);
    CollapseSpaceOpens(r1);
    CollapseCharCloses(Nul, [' '] + b, true);
    CollapseSpaceOpens(b);
    CollapseWordInRun(b);
    assert a + (" " + ([Nul] + (" " + b))) == a + [' ', Nul, ' '] + b;
  }

  lemma FilterGap()
    ensures Filter(NotNul, [' ', Nul, ' ']) == [' ', ' ']
  {
    var g := [' ', Nul, ' '];
    assert g[1..] == [Nul, ' '];
    assert g[1..][1..] == [' '];
    assert [' '][1..] == [];
  }

  lemma RemoveNulAround(a: string, b: string)
    requires NoNul(a) && NoNul(b)
    ensures RemoveNul(a + [' ', Nul, ' '] + b) == a + [' ', ' '] + b
  {
    var g := [' ', Nul, ' '];
    FilterAppend(NotNul, a + g, b);
    FilterAppend(NotNul, a, g);
    FilterAll(NotNul, a);
    FilterAll(NotNul, b);
    FilterGap();
  }

  /** Text between two words is left alone by `strip()`. */
  lemma StripWordEnds(x: string, a: string, b: string)
    requires IsWord(a) && IsWord(b)
    requires exists m :: x == a + m + b
    ensures Strip(x) == x
  {
    var m :| x == a + m + b;
    assert x[0] == a[0];
    assert x[|x| - 1] == b[|b| - 1];
  }

  lemma CollapseDoubleSpace(a: string, b: string)
    requires IsWord(a) && IsWord(b)
    ensures Collapse(a + [' ', ' '] + b) == a + [' '] + b
  {
    assert a + [' ', ' '] + b == a + ([' '] + ([' '] + b));
    CollapseWordPrefix(a, [' '] + ([' '] + b));
    CollapseSpaceOpens([' '] + b);
    CollapseSpaceInRun(b);
    CollapseWordInRun(b);
    assert a + (" " + b) == a + [' '] + b;
  }

  lemma CleanTwice(a: string, b: string)
    requires IsWord(a) && IsWord(b) && NoNul(a) && NoNul(b)
    ensures CleanText(a + [' ', ' '] + b) == a + [' '] + b
  {
    var x := a + [' ', ' '] + b;
    var y := a + [' '] + b;
    NoNulDoubleSpace(a, b);
    CleanTextNoNul(x);
    CollapseDoubleSpace(a, b);
    StripWordEnds(y, a, b);
  }

  lemma NoNulDoubleSpace(a: string, b: string)
    requires NoNul(a) && NoNul(b)
    ensures NoNul(a + [' ', ' '] + b)
  {
    NoNulCons(' ', b);
    NoNulCons(' ', [' '] + b);
    assert a + [' ', ' '] + b == a + ([' '] + ([' '] + b));
    NoNulAppend(a, [' '] + ([' '] + b));
  }

  lemma NoNulAppend(a: string, b: string)
    requires NoNul(a) && NoNul(b)
    ensures NoNul(a + b)
  {
    forall i | 0 <= i < |a + b| ensures (a + b)[i] != Nul {
      if i >= |a| {
        assert (a + b)[i] == b[i - |a|];
      }
    }
  }

  // ---------------------------------------------------------------------
  // chunk_text
  // ---------------------------------------------------------------------

  /** The word groups of the `chunk_text` loop, from the current group `cur`
      whose width `sum(len(w) + 1)` is `size`: a word that would push the
      width past `maxSize` closes the current group (even an empty one) and
      opens a new one; otherwise it joins the current group. A non-empty
      group left at the end is closed too. */
  function ChunkGroups(words: seq<string>, maxSize: int, cur: seq<string>, size: int): seq<seq<string>>
    decreases |words|
  {
    if |words| == 0 then (if |cur| > 0 then [cur] else [])
    else
      var width := |words[0]| + 1;
      if size + width > maxSize then [cur] + ChunkGroups(words[1..], maxSize, [words[0]], width)
      else ChunkGroups(words[1..], maxSize, cur + [words[0]], size + width)
  }

  /** `chunk_text(text, max_chunk_size)`: the text itself when it fits,
      otherwise each word group joined by single spaces. */
  function ChunkText(text: string, maxSize: int): (r: seq<string>)
    ensures |text| <= maxSize ==> r == [text]
    ensures |text| > maxSize ==> |r| == |ChunkGroups(Split(text), maxSize, [], 0)|
  {
    if |text| <= maxSize then [text]
    else
      var gs := ChunkGroups(Split(text), maxSize, [], 0);
      seq(|gs|, i requires 0 <= i < |gs| => Join(gs[i]))
  }

  /** Flattening a list of word lists. */
  function Concat(gs: seq<seq<string>>): seq<string> {
    if |gs| == 0 then [] else gs[0] + Concat(gs[1..])
  }

  lemma ConcatCons(g: seq<string>, gs: seq<seq<string>>)
    ensures Concat([g] + gs) == g + Concat(gs)
  {
    assert ([g] + gs)[1..] == gs;
  }

  /** Grouping loses, adds and reorders no word. */
  lemma {:induction false} GroupsConcat(words: seq<string>, maxSize: int, cur: seq<string>, size: int)
    ensures Concat(ChunkGroups(words, maxSize, cur, size)) == cur + words
    decreases |words|
  {
    if |words| == 0 {
      if |cur| > 0 {
        ConcatCons(cur, []);
      }
      assert cur + words == cur;
    } else {
      var width := |words[0]| + 1;
      assert words == [words[0]] + words[1..];
      if size + width > maxSize {
        GroupsConcat(words[1..], maxSize, [words[0]], width);
        ConcatCons(cur, ChunkGroups(words[1..], maxSize, [words[0]], width));
      } else {
        GroupsConcat(words[1..], maxSize, cur + [words[0]], size + width);
        assert cur + [words[0]] + words[1..] == cur + words;
      }
    }
  }

  lemma AllWordsAppend(a: seq<string>, b: seq<string>)
    requires AllWords(a) && AllWords(b)
    ensures AllWords(a + b)
  {
    forall i | 0 <= i < |a + b| ensures IsWord((a + b)[i]) {
      if i >= |a| {
        assert (a + b)[i] == b[i - |a|];
      }
    }
  }

  /** Every group of words is a list of words. */
  lemma {:induction false} GroupsAreWords(words: seq<string>, maxSize: int, cur: seq<string>, size: int)
    requires AllWords(cur) && AllWords(words)
    ensures forall i :: 0 <= i < |ChunkGroups(words, maxSize, cur, size)| ==>
      AllWords(ChunkGroups(words, maxSize, cur, size)[i])
    decreases |words|
  {
    if |words| > 0 {
      var width := |words[0]| + 1;
      AllWordsTail(words);
      if size + width > maxSize {
        var rest := ChunkGroups(words[1..], maxSize, [words[0]], width);
        GroupsAreWords(words[1..], maxSize, [words[0]], width);
        var gs := [cur] + rest;
        forall i | 0 <= i < |gs| ensures AllWords(gs[i]) {
          if i > 0 {
            assert gs[i] == rest[i - 1];
          }
        }
      } else {
        AllWordsAppend(cur, [words[0]]);
        GroupsAreWords(words[1..], maxSize, cur + [words[0]], size + width);
      }
    }
  }

  lemma WidthSnoc(ws: seq<string>, w: string)
    ensures Width(ws + [w]) == Width(ws) + |w| + 1
  {
    WidthAppend(ws, [w]);
    assert [w][1..] == [];
  }

  /** A group of two or more words fits: its width is at most `maxSize`. */
  lemma {:induction false} GroupsFit(words: seq<string>, maxSize: int, cur: seq<string>, size: int)
    requires size == Width(cur)
    requires |cur| >= 2 ==> Width(cur) <= maxSize
    ensures forall i :: 0 <= i < |ChunkGroups(words, maxSize, cur, size)| ==>
      |ChunkGroups(words, maxSize, cur, size)[i]| >= 2 ==> Width(ChunkGroups(words, maxSize, cur, size)[i]) <= maxSize
    decreases |words|
  {
    if |words| > 0 {
      var width := |words[0]| + 1;
      if size + width > maxSize {
        var rest := ChunkGroups(words[1..], maxSize, [words[0]], width);
        assert Width([words[0]]) == width;
        GroupsFit(words[1..], maxSize, [words[0]], width);
        var gs := [cur] + rest;
        forall i | 0 <= i < |gs| && |gs[i]| >= 2 ensures Width(gs[i]) <= maxSize {
          if i > 0 {
            assert gs[i] == rest[i - 1];
          }
        }
      } else {
        WidthSnoc(cur, words[0]);
        GroupsFit(words[1..], maxSize, cur + [words[0]], size + width);
      }
    }
  }

  /** Starting from a non-empty group, every group is non-empty. */
  lemma {:induction false} GroupsNonEmpty(words: seq<string>, maxSize: int, cur: seq<string>, size: int)
    requires |cur| > 0
    ensures forall i :: 0 <= i < |ChunkGroups(words, maxSize, cur, size)| ==>
      |ChunkGroups(words, maxSize, cur, size)[i]| > 0
    decreases |words|
  {
    if |words| > 0 {
      var width := |words[0]| + 1;
      if size + width > maxSize {
        var rest := ChunkGroups(words[1..], maxSize, [words[0]], width);
        GroupsNonEmpty(words[1..], maxSize, [words[0]], width);
        var gs := [cur] + rest;
        forall i | 0 <= i < |gs| ensures |gs[i]| > 0 {
          if i > 0 {
            assert gs[i] == rest[i - 1];
          }
        }
      } else {
        GroupsNonEmpty(words[1..], maxSize, cur + [words[0]], size + width);
      }
    }
  }

  /** From the loop's start, the first group is empty exactly when the first
      word alone is wider than `maxSize`, and no later group is empty. */
  lemma GroupsStart(words: seq<string>, maxSize: int)
    requires |words| > 0
    ensures var gs := ChunkGroups(words, maxSize, [], 0);
      && |gs| > 0
      && (|gs[0]| == 0 <==> |words[0]| + 1 > maxSize)
      && forall i :: 0 < i < |gs| ==> |gs[i]| > 0
  {
    var width := |words[0]| + 1;
    var gs := ChunkGroups(words, maxSize, [], 0);
    if width > maxSize {
      var rest := ChunkGroups(words[1..], maxSize, [words[0]], width);
      GroupsNonEmpty(words[1..], maxSize, [words[0]], width);
      assert gs == [[]] + rest;
      forall i | 0 < i < |gs| ensures |gs[i]| > 0 {
        assert gs[i] == rest[i - 1];
      }
    } else {
      assert [] + [words[0]] == [words[0]];
      GroupsNonEmpty(words[1..], maxSize, [words[0]], width);
      GroupsConcat(words[1..], maxSize, [words[0]], width);
      assert |Concat(gs)| > 0;
    }
  }

  /** The words of each chunk, as `chunk.split()` finds them. */
  function ChunkWords(chunks: seq<string>): (r: seq<seq<string>>)
    ensures |r| == |chunks|
  {
    seq(|chunks|, i requires 0 <= i < |chunks| => Split(chunks[i]))
  }

  /** Splitting each chunk gives back the word groups. */
  lemma ChunksSplitToGroups(text: string, maxSize: int)
    requires |text| > maxSize
    ensures ChunkWords(ChunkText(text, maxSize)) == ChunkGroups(Split(text), maxSize, [], 0)
  {
    var gs := ChunkGroups(Split(text), maxSize, [], 0);
    var r := ChunkText(text, maxSize);
    SplitWords(text);
    assert AllWords([]);
    GroupsAreWords(Split(text), maxSize, [], 0);
    forall i | 0 <= i < |gs| ensures Split(r[i]) == gs[i] {
      SplitJoin(gs[i]);
    }
  }

  /** A text too long for one chunk is cut at word boundaries only: the
      words of the chunks, in order, are the words of the text. */
  lemma ChunkTextKeepsWords(text: string, maxSize: int)
    requires |text| > maxSize
    ensures Concat(ChunkWords(ChunkText(text, maxSize))) == Split(text)
  {
    ChunksSplitToGroups(text, maxSize);
    GroupsConcat(Split(text), maxSize, [], 0);
    assert [] + Split(text) == Split(text);
  }

  /** Every chunk of two or more words is at most `maxSize - 1` long. */
  lemma ChunkTextFits(text: string, maxSize: int)
    requires |text| > maxSize
    ensures forall i :: 0 <= i < |ChunkText(text, maxSize)| ==>
      |Split(ChunkText(text, maxSize)[i])| >= 2 ==> |ChunkText(text, maxSize)[i]| <= maxSize - 1
  {
    var gs := ChunkGroups(Split(text), maxSize, [], 0);
    var r := ChunkText(text, maxSize);
    ChunksSplitToGroups(text, maxSize);
    GroupsFit(Split(text), maxSize, [], 0);
    forall i | 0 <= i < |r| && |Split(r[i])| >= 2 ensures |r[i]| <= maxSize - 1 {
      assert Split(r[i]) == ChunkWords(r)[i] == gs[i];
      assert r[i] == Join(gs[i]);
    }
  }

  /** A text too long for one chunk opens with an empty chunk exactly when
      its first word alone does not fit; no other chunk is empty. */
  lemma ChunkTextLeadingEmpty(text: string, maxSize: int)
    requires |text| > maxSize && |Split(text)| > 0
    ensures |ChunkText(text, maxSize)| > 0
    ensures ChunkText(text, maxSize)[0] == "" <==> |Split(text)[0]| + 1 > maxSize
    ensures forall i :: 0 < i < |ChunkText(text, maxSize)| ==> ChunkText(text, maxSize)[i] != ""
  {
    var words := Split(text);
    var gs := ChunkGroups(words, maxSize, [], 0);
    var r := ChunkText(text, maxSize);
    GroupsStart(words, maxSize);
    SplitWords(text);
    assert AllWords([]);
    GroupsAreWords(words, maxSize, [], 0);
    forall i | 0 <= i < |r| ensures r[i] == "" <==> |gs[i]| == 0 {
      assert r[i] == Join(gs[i]);
      if |gs[i]| > 0 {
        JoinEnds(gs[i]);
      }
    }
  }

  /** A whitespace-only text too long for one chunk gives no chunk at all. */
  lemma ChunkTextBlank(text: string, maxSize: int)
    requires |text| > maxSize
    requires forall i :: 0 <= i < |text| ==> IsSpace(text[i])
    ensures ChunkText(text, maxSize) == []
  {
    SplitEmptyIffBlank(text);
  }
}
