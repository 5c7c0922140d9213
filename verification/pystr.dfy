/**
 The Python `str` methods the roster normalisation is built from:
 `upper`, `lower`, `capitalize`, `rstrip()`, `split()` (whitespace runs),
 `split(sep)` for a one-character separator, and `sep.join`.
 */
module PyStr {
  import opened PyChar

  /** `s.upper()`, one character at a time. */
  function UpperStr(s: string): (r: string)
    ensures |r| == |s|
    ensures forall i :: 0 <= i < |s| ==> r[i] == Upper(s[i])
  {
    seq(|s|, i requires 0 <= i < |s| => Upper(s[i]))
  }

  /** `s.lower()`, one character at a time. */
  function LowerStr(s: string): (r: string)
    ensures |r| == |s|
    ensures forall i :: 0 <= i < |s| ==> r[i] == Lower(s[i])
  {
    seq(|s|, i requires 0 <= i < |s| => Lower(s[i]))
  }

  /** Every character of `s` is already upper case. */
  predicate IsUpperCased(s: string) {
    forall i :: 0 <= i < |s| ==> Upper(s[i]) == s[i]
  }

  /** Every character of `s` is already lower case. */
  predicate IsLowerCased(s: string) {
    forall i :: 0 <= i < |s| ==> Lower(s[i]) == s[i]
  }

  /** `upper()` yields an upper-cased string, and applying it again changes nothing. */
  lemma UpperStrShape(s: string)
    ensures IsUpperCased(UpperStr(s))
    ensures UpperStr(UpperStr(s)) == UpperStr(s)
    ensures IsUpperCased(s) <==> UpperStr(s) == s
  {
    forall i | 0 <= i < |s| {
      CaseIdempotent(s[i]);
    }
  }

  /** `lower()` yields a lower-cased string, and applying it again changes nothing. */
  lemma LowerStrShape(s: string)
    ensures IsLowerCased(LowerStr(s))
    ensures LowerStr(LowerStr(s)) == LowerStr(s)
    ensures IsLowerCased(s) <==> LowerStr(s) == s
  {
    forall i | 0 <= i < |s| {
      CaseIdempotent(s[i]);
    }
  }

  /** `w.capitalize()`: the first character upper case, the rest lower case. */
  function Capitalize(w: string): (r: string)
    ensures |r| == |w|
  {
    if w == [] then [] else [Upper(w[0])] + LowerStr(w[1..])
  }

  /** The shape `capitalize()` produces. */
  predicate IsCapitalized(w: string) {
    && (|w| > 0 ==> Upper(w[0]) == w[0])
    && (forall i :: 0 < i < |w| ==> Lower(w[i]) == w[i])
  }

  /** A non-empty run of non-whitespace characters: one item of `str.split()`. */
  predicate IsWord(w: string) {
    |w| > 0 && forall i :: 0 <= i < |w| ==> !IsSpace(w[i])
  }

  /** `capitalize()` maps each character position to its case partner, yields the
      capitalized shape, fixes exactly the strings already of that shape, and
      keeps a word a word. */
  lemma CapitalizeShape(w: string)
    ensures |w| > 0 ==> Capitalize(w)[0] == Upper(w[0])
    ensures forall i :: 0 < i < |w| ==> Capitalize(w)[i] == Lower(w[i])
    ensures IsCapitalized(Capitalize(w))
    ensures Capitalize(Capitalize(w)) == Capitalize(w)
    ensures IsCapitalized(w) <==> Capitalize(w) == w
    ensures IsWord(w) ==> IsWord(Capitalize(w))
  {
    if w != [] {
      var r := Capitalize(w);
      CaseIdempotent(w[0]);
      CaseKeepsSpace(w[0]);
      forall i | 0 < i < |w|
        ensures Lower(Lower(w[i])) == Lower(w[i])
        ensures IsSpace(Lower(w[i])) == IsSpace(w[i])
      {
        CaseIdempotent(w[i]);
        CaseKeepsSpace(w[i]);
      }
      if IsCapitalized(w) {
        assert r == w;
      }
    }
  }

  /** `s.rstrip()`: drop the longest all-whitespace suffix. */
  function RStrip(s: string): (r: string)
    ensures |r| <= |s| && r == s[..|r|]
    ensures forall i :: |r| <= i < |s| ==> IsSpace(s[i])
    ensures r == [] || !IsSpace(r[|r| - 1])
  {
    if |s| > 0 && IsSpace(s[|s| - 1]) then RStrip(s[..|s| - 1]) else s
  }

  /** Length of the maximal run of non-whitespace characters at the front of `s`. */
  function WordEnd(s: string): (n: nat)
    ensures n <= |s|
    ensures forall i :: 0 <= i < n ==> !IsSpace(s[i])
    ensures n == |s| || IsSpace(s[n])
  {
    if s == [] || IsSpace(s[0]) then 0 else 1 + WordEnd(s[1..])
  }

  /** `s.split()`: the maximal runs of non-whitespace characters, in order. */
  function Words(s: string): (ws: seq<string>)
    ensures forall i :: 0 <= i < |ws| ==> IsWord(ws[i])
    decreases |s|
  {
    if s == [] then []
    else if IsSpace(s[0]) then Words(s[1..])
    else
      var n := WordEnd(s);
      [s[..n]] + Words(s[n..])
  }

  /** `sep.join(ws)`. */
  function Join(sep: string, ws: seq<string>): string {
    if |ws| == 0 then ""
    else if |ws| == 1 then ws[0]
    else ws[0] + sep + Join(sep, ws[1..])
  }

  /** Number of occurrences of `d` in `s`. */
  function Count(s: string, d: char): nat {
    if s == [] then 0 else (if s[0] == d then 1 else 0) + Count(s[1..], d)
  }

  /** `s.split(d)` for a one-character separator: always one more piece than
      there are separators, and no piece contains the separator. */
  function Split(s: string, d: char): (parts: seq<string>)
    ensures |parts| == Count(s, d) + 1
    ensures forall i :: 0 <= i < |parts| ==> d !in parts[i]
  {
    if s == [] then [""]
    else
      var rest := Split(s[1..], d);
      if s[0] == d then [""] + rest
      else [[s[0]] + rest[0]] + rest[1..]
  }

  /** The characters of `s` that are not whitespace, in order. */
  function NonSpace(s: string): (r: string)
    ensures forall i :: 0 <= i < |r| ==> !IsSpace(r[i])
  {
    if s == [] then [] else (if IsSpace(s[0]) then [] else [s[0]]) + NonSpace(s[1..])
  }

  /** All the strings of `ws` laid end to end. */
  function Concat(ws: seq<string>): string {
    if ws == [] then [] else ws[0] + Concat(ws[1..])
  }

  /** A string made only of whitespace. */
  predicate IsBlank(s: string) {
    forall i :: 0 <= i < |s| ==> IsSpace(s[i])
  }

  /** A string as `" ".join` of words leaves it: no whitespace at either end,
      no whitespace other than the plain space, and never two in a row. */
  predicate Clean(e: string) {
    && (|e| > 0 ==> !IsSpace(e[0]) && !IsSpace(e[|e| - 1]))
    && (forall i :: 0 <= i < |e| && IsSpace(e[i]) ==> e[i] == ' ')
    && (forall i :: 0 < i < |e| && IsSpace(e[i]) ==> !IsSpace(e[i - 1]))
  }

  // ---------------------------------------------------------------------------
  // split(d) and d.join are inverse to each other

  /** Joining the pieces of `s.split(d)` with `d` gives back `s`. */
  lemma {:induction false} SplitJoin(s: string, d: char)
    ensures Join([d], Split(s, d)) == s
  {
    if s != [] {
      var rest := Split(s[1..], d);
      SplitJoin(s[1..], d);
      var p := Split(s, d);
      if s[0] == d {
        assert p == [""] + rest;
        assert p[1..] == rest;
        assert Join([d], p) == "" + [d] + Join([d], rest);
      } else {
        assert p == [[s[0]] + rest[0]] + rest[1..];
        if |rest| == 1 {
          assert Join([d], p) == [s[0]] + Join([d], rest);
        } else {
          assert p[1..] == rest[1..];
          assert Join([d], rest) == rest[0] + [d] + Join([d], rest[1..]);
          assert Join([d], p) == [s[0]] + Join([d], rest);
        }
      }
      assert s == [s[0]] + s[1..];
    }
  }

  /** A separator-free prefix glues onto the first piece of what follows it. */
  lemma {:induction false} SplitAfterPrefix(p: string, t: string, d: char)
    requires d !in p
    ensures Split(p + t, d) == [p + Split(t, d)[0]] + Split(t, d)[1..]
  {
    var st := Split(t, d);
    if p == [] {
      assert p + t == t;
      assert p + st[0] == st[0];
      assert st == [st[0]] + st[1..];
    } else {
      assert (p + t)[0] == p[0];
      assert (p + t)[1..] == p[1..] + t;
      SplitAfterPrefix(p[1..], t, d);
      assert [p[0]] + (p[1..] + st[0]) == p + st[0];
    }
  }

  /** Splitting a `d`-join of separator-free pieces recovers the pieces. */
  lemma {:induction false} JoinSplit(parts: seq<string>, d: char)
    requires |parts| >= 1
    requires forall i :: 0 <= i < |parts| ==> d !in parts[i]
    ensures Split(Join([d], parts), d) == parts
  {
    if |parts| == 1 {
      SplitAfterPrefix(parts[0], "", d);
      assert parts[0] + "" == parts[0];
    } else {
      var j := Join([d], parts[1..]);
      JoinSplit(parts[1..], d);
      assert Join([d], parts) == parts[0] + ([d] + j);
      assert ([d] + j)[1..] == j;
      assert Split([d] + j, d) == [""] + parts[1..];
      SplitAfterPrefix(parts[0], [d] + j, d);
      assert parts[0] + "" == parts[0];
      assert parts == [parts[0]] + parts[1..];
    }
  }

  // ---------------------------------------------------------------------------
  // split() and " ".join

  /** A run of non-whitespace followed by whitespace (or nothing) is one word long. */
  lemma {:induction false} WordEndAppend(w: string, t: string)
    requires forall i :: 0 <= i < |w| ==> !IsSpace(w[i])
    requires t == [] || IsSpace(t[0])
    ensures WordEnd(w + t) == |w|
  {
    if w == [] {
      assert w + t == t;
    } else {
      assert (w + t)[0] == w[0];
      assert (w + t)[1..] == w[1..] + t;
      WordEndAppend(w[1..], t);
    }
  }

  /** A word followed by whitespace (or nothing) is the first item `split()` yields. */
  lemma WordsOfWordThen(w: string, t: string)
    requires IsWord(w)
    requires t == [] || IsSpace(t[0])
    ensures Words(w + t) == [w] + Words(t)
  {
    WordEndAppend(w, t);
    var s := w + t;
    assert s[0] == w[0];
    assert s[..|w|] == w;
    assert s[|w|..] == t;
  }

  /** `split()` undoes `" ".join` on words. */
  lemma {:induction false} WordsOfJoin(ws: seq<string>)
    requires forall i :: 0 <= i < |ws| ==> IsWord(ws[i])
    ensures Words(Join(" ", ws)) == ws
  {
    if |ws| == 1 {
      WordsOfWordThen(ws[0], "");
      assert ws[0] + "" == ws[0];
    } else if |ws| > 1 {
      var j := Join(" ", ws[1..]);
      WordsOfJoin(ws[1..]);
      assert Join(" ", ws) == ws[0] + (" " + j);
      WordsOfWordThen(ws[0], " " + j);
      assert (" " + j)[1..] == j;
      assert ws == [ws[0]] + ws[1..];
    }
  }

  /** A single word is clean. */
  lemma WordClean(w: string)
    requires IsWord(w)
    ensures Clean(w)
  {
  }

  /** Two clean non-empty strings glued by one space stay clean. */
  lemma CleanGlue(a: string, b: string)
    requires Clean(a) && Clean(b) && a != [] && b != []
    ensures Clean(a + " " + b)
  {
    var e := a + " " + b;
    assert forall i :: 0 <= i < |a| ==> e[i] == a[i];
    assert e[|a|] == ' ';
    assert forall i :: |a| < i < |e| ==> e[i] == b[i - |a| - 1];
  }

  /** `" ".join` of words is clean, and non-empty when there is a word. */
  lemma {:induction false} JoinWordsClean(ws: seq<string>)
    requires forall i :: 0 <= i < |ws| ==> IsWord(ws[i])
    ensures Clean(Join(" ", ws))
    ensures |ws| > 0 <==> |Join(" ", ws)| > 0
  {
    if |ws| == 1 {
      WordClean(ws[0]);
    } else if |ws| > 1 {
      JoinWordsClean(ws[1..]);
      WordClean(ws[0]);
      CleanGlue(ws[0], Join(" ", ws[1..]));
    }
  }

  // ---------------------------------------------------------------------------
  // What split() keeps and what it drops

  /** A blank string has no words. */
  lemma {:induction false} WordsOfBlank(t: string)
    requires IsBlank(t)
    ensures Words(t) == []
  {
    if t != [] {
      WordsOfBlank(t[1..]);
    }
  }

  /** Trailing whitespace does not move the end of the first word. */
  lemma {:induction false} WordEndBlankSuffix(s: string, t: string)
    requires IsBlank(t)
    ensures WordEnd(s + t) == WordEnd(s)
  {
    if s == [] {
      assert s + t == t;
    } else {
      assert (s + t)[0] == s[0];
      if !IsSpace(s[0]) {
        assert (s + t)[1..] == s[1..] + t;
        WordEndBlankSuffix(s[1..], t);
      }
    }
  }

  /** Trailing whitespace contributes no words. */
  lemma {:induction false} WordsBlankSuffix(s: string, t: string)
    requires IsBlank(t)
    ensures Words(s + t) == Words(s)
    decreases |s|
  {
    if s == [] {
      assert s + t == t;
      WordsOfBlank(t);
    } else {
      assert (s + t)[0] == s[0];
      if IsSpace(s[0]) {
        assert (s + t)[1..] == s[1..] + t;
        WordsBlankSuffix(s[1..], t);
      } else {
        var n := WordEnd(s);
        WordEndBlankSuffix(s, t);
        assert (s + t)[..n] == s[..n];
        assert (s + t)[n..] == s[n..] + t;
        WordsBlankSuffix(s[n..], t);
      }
    }
  }

  /** `rstrip()` before `split()` changes nothing. */
  lemma WordsOfRStrip(s: string)
    ensures Words(RStrip(s)) == Words(s)
  {
    var r := RStrip(s);
    assert s == r + s[|r|..];
    WordsBlankSuffix(r, s[|r|..]);
  }

  /** Dropping whitespace distributes over concatenation. */
  lemma {:induction false} NonSpaceAppend(a: string, b: string)
    ensures NonSpace(a + b) == NonSpace(a) + NonSpace(b)
  {
    if a != [] {
      assert (a + b)[0] == a[0];
      assert (a + b)[1..] == a[1..] + b;
      NonSpaceAppend(a[1..], b);
    } else {
      assert a + b == b;
    }
  }

  /** A string with no whitespace is its own non-whitespace content. */
  lemma {:induction false} NonSpaceOfSolid(w: string)
    requires forall i :: 0 <= i < |w| ==> !IsSpace(w[i])
    ensures NonSpace(w) == w
  {
    if w != [] {
      NonSpaceOfSolid(w[1..]);
      assert w == [w[0]] + w[1..];
    }
  }

  /** The words of `s`, laid end to end, are exactly its non-whitespace
      characters in order: `split()` loses whitespace and nothing else. */
  lemma {:induction false} WordsConcat(s: string)
    ensures Concat(Words(s)) == NonSpace(s)
    decreases |s|
  {
    if s != [] {
      if IsSpace(s[0]) {
        WordsConcat(s[1..]);
      } else {
        var n := WordEnd(s);
        var ws := Words(s);
        WordsConcat(s[n..]);
        assert s == s[..n] + s[n..];
        NonSpaceAppend(s[..n], s[n..]);
        NonSpaceOfSolid(s[..n]);
        assert ws[1..] == Words(s[n..]);
      }
    }
  }

  /** No non-whitespace characters means a blank string, and back. */
  lemma {:induction false} NonSpaceEmpty(s: string)
    ensures NonSpace(s) == [] <==> IsBlank(s)
  {
    if s != [] {
      NonSpaceEmpty(s[1..]);
      if IsSpace(s[0]) {
        assert IsBlank(s) <==> IsBlank(s[1..]);
      }
    }
  }

  /** `split()` yields nothing exactly for a blank string. */
  lemma WordsEmptyIffBlank(s: string)
    ensures Words(s) == [] <==> IsBlank(s)
  {
    WordsConcat(s);
    NonSpaceEmpty(s);
    var ws := Words(s);
    if ws != [] {
      assert Concat(ws) == ws[0] + Concat(ws[1..]);
      assert |Concat(ws)| >= |ws[0]| > 0;
    }
  }

  /** A clean string with a non-whitespace first character stays clean from any
      non-whitespace position on. */
  lemma CleanSuffix(e: string, k: nat)
    requires Clean(e) && k < |e| && !IsSpace(e[k])
    ensures Clean(e[k..])
  {
    var r := e[k..];
    assert forall i :: 0 <= i < |r| ==> r[i] == e[k + i];
  }

  /** The clean strings are exactly the single-space joins of their own words. */
  lemma {:induction false} CleanIsJoinOfWords(e: string)
    ensures Clean(e) <==> e == Join(" ", Words(e))
    decreases |e|
  {
    if e == Join(" ", Words(e)) {
      JoinWordsClean(Words(e));
    }
    if Clean(e) && e != [] {
      var n := WordEnd(e);
      var w := e[..n];
      assert Words(e) == [w] + Words(e[n..]);
      if n == |e| {
        assert e[n..] == [];
        assert w == e;
      } else {
        assert e[n] == ' ';
        assert n + 1 < |e|;
        assert !IsSpace(e[n + 1]);
        var rest := e[n + 1..];
        CleanSuffix(e, n + 1);
        assert e[n..][1..] == rest;
        assert Words(e[n..]) == Words(rest);
        CleanIsJoinOfWords(rest);
        var ws := Words(rest);
        assert ws != [] by {
          WordsEmptyIffBlank(rest);
          assert !IsBlank(rest) by { assert !IsSpace(rest[0]); }
        }
        assert Words(e) == [w] + ws;
        assert ([w] + ws)[1..] == ws;
        assert Join(" ", Words(e)) == w + " " + rest;
        assert e == w + " " + rest;
      }
    }
  }

  // ---------------------------------------------------------------------------
  // split() characterised: words separated by whitespace runs

  /** `gaps[0] + ws[0] + gaps[1] + ... + ws[n-1] + gaps[n]`. */
  function Spread(gaps: seq<string>, ws: seq<string>): string
    requires |gaps| == |ws| + 1
  {
    if ws == [] then gaps[0] else gaps[0] + ws[0] + Spread(gaps[1..], ws[1..])
  }

  /** Gaps that may surround words: all blank, and those between two words
      non-empty. */
  predicate ValidGaps(gaps: seq<string>, ws: seq<string>) {
    && |gaps| == |ws| + 1
    && (forall i :: 0 <= i < |gaps| ==> IsBlank(gaps[i]))
    && (forall i :: 0 < i < |ws| ==> gaps[i] != [])
  }

  /** Leading whitespace contributes no words. */
  lemma {:induction false} WordsBlankPrefix(g: string, t: string)
    requires IsBlank(g)
    ensures Words(g + t) == Words(t)
  {
    if g != [] {
      assert (g + t)[0] == g[0];
      assert (g + t)[1..] == g[1..] + t;
      WordsBlankPrefix(g[1..], t);
    } else {
      assert g + t == t;
    }
  }

  /** Whitespace runs of any length between words, and any whitespace at
      either end, are all dropped: `split()` gives back exactly the words. */
  lemma {:induction false} WordsOfSpread(gaps: seq<string>, ws: seq<string>)
    requires ValidGaps(gaps, ws)
    requires forall i :: 0 <= i < |ws| ==> IsWord(ws[i])
    ensures Words(Spread(gaps, ws)) == ws
  {
    if ws == [] {
      WordsOfBlank(gaps[0]);
    } else {
      var rest := Spread(gaps[1..], ws[1..]);
      assert ValidGaps(gaps[1..], ws[1..]) by {
        forall i | 0 < i < |ws[1..]| ensures gaps[1..][i] != [] {
          assert gaps[1..][i] == gaps[i + 1];
        }
      }
      WordsOfSpread(gaps[1..], ws[1..]);
      if |ws| > 1 {
        assert gaps[1] != [] && IsSpace(gaps[1][0]);
        assert rest == gaps[1..][0] + ws[1..][0] + Spread(gaps[2..], ws[2..]) by {
          assert gaps[1..][1..] == gaps[2..];
          assert ws[1..][1..] == ws[2..];
        }
        assert rest[0] == gaps[1][0];
      } else {
        assert rest == gaps[1];
        assert rest == [] || IsSpace(rest[0]);
      }
      WordsOfWordThen(ws[0], rest);
      assert Spread(gaps, ws) == gaps[0] + (ws[0] + rest);
      WordsBlankPrefix(gaps[0], ws[0] + rest);
      assert ws == [ws[0]] + ws[1..];
    }
  }

  /** Extending the first gap extends the spread text at the front. */
  lemma SpreadPrepend(p: string, gaps: seq<string>, ws: seq<string>)
    requires |gaps| == |ws| + 1
    ensures Spread([p + gaps[0]] + gaps[1..], ws) == p + Spread(gaps, ws)
  {
    var gs := [p + gaps[0]] + gaps[1..];
    assert gs[1..] == gaps[1..];
  }

  /** The whitespace runs of `s` around and between its words. */
  function GapsOf(s: string): (gaps: seq<string>)
    ensures ValidGaps(gaps, Words(s))
    ensures Spread(gaps, Words(s)) == s
    ensures s != [] && IsSpace(s[0]) ==> gaps[0] != []
    decreases |s|
  {
    if s == [] then [""]
    else if IsSpace(s[0]) then
      var gs := GapsOf(s[1..]);
      SpreadPrepend([s[0]], gs, Words(s[1..]));
      assert s == [s[0]] + s[1..];
      var r := [[s[0]] + gs[0]] + gs[1..];
      assert forall i :: 1 <= i < |r| ==> r[i] == gs[i];
      r
    else
      var n := WordEnd(s);
      var gs := GapsOf(s[n..]);
      var ws := Words(s);
      assert ws == [s[..n]] + Words(s[n..]);
      assert ws[1..] == Words(s[n..]);
      var r := [""] + gs;
      assert r[1..] == gs;
      assert forall i :: 1 <= i < |r| ==> r[i] == gs[i - 1];
      assert Spread(r, ws) == s[..n] + s[n..];
      assert s == s[..n] + s[n..];
      r
  }

  /** `split()` yields `ws` exactly when the string is `ws` spread over valid
      gaps: the items are the words, separated by non-empty whitespace runs. */
  lemma WordsCharacterised(s: string, ws: seq<string>)
    requires forall i :: 0 <= i < |ws| ==> IsWord(ws[i])
    ensures Words(s) == ws <==> exists gaps :: ValidGaps(gaps, ws) && s == Spread(gaps, ws)
  {
    if Words(s) == ws {
      var gaps := GapsOf(s);
      assert ValidGaps(gaps, ws) && s == Spread(gaps, ws);
    }
    if exists gaps :: ValidGaps(gaps, ws) && s == Spread(gaps, ws) {
      var gaps :| ValidGaps(gaps, ws) && s == Spread(gaps, ws);
      WordsOfSpread(gaps, ws);
    }
  }
}
