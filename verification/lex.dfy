/**
 The text handling of the resume analyser: Python's `str.split()` and
 `" ".join(...)` for whitespace normalisation, and the `[a-zA-Z]{3,}` word
 tokenizer. Lower-casing is ASCII only.
 */
module Lex {
  import opened Text

  /** A word of `str.split()`: non-empty, no whitespace. */
  predicate Word(w: string) {
    w != [] && forall i :: 0 <= i < |w| ==> !PySpace(w[i])
  }

  predicate Words(ws: seq<string>) {
    forall k :: 0 <= k < |ws| ==> Word(ws[k])
  }

  /** Length of the leading run of non-whitespace characters. */
  function WordLength(s: string): (k: nat)
    ensures k <= |s|
    ensures forall i :: 0 <= i < k ==> !PySpace(s[i])
    ensures k < |s| ==> PySpace(s[k])
    decreases |s|
  {
    if s == [] || PySpace(s[0]) then 0 else 1 + WordLength(s[1..])
  }

  /** `s.split()`: the maximal runs of non-whitespace, in order. */
  function Split(s: string): (ws: seq<string>)
    ensures Words(ws)
    ensures NoUpper(s) ==> forall k :: 0 <= k < |ws| ==> NoUpper(ws[k])
    decreases |s|
  {
    if s == [] then []
    else if PySpace(s[0]) then Split(s[1..])
    else
      var k := WordLength(s);
      [s[..k]] + Split(s[k..])
  }

  /** `WordLength` is the position of the first whitespace character, or the
      length when there is none. */
  lemma WordLengthIs(s: string, k: nat)
    requires k <= |s| && forall i :: 0 <= i < k ==> !PySpace(s[i])
    requires k < |s| ==> PySpace(s[k])
    ensures WordLength(s) == k
  {
    var m := WordLength(s);
    if m < k {
      assert false;
    } else if m > k {
      assert false;
    }
  }

  /** A string that is one word splits into that word. */
  lemma SplitWord(w: string)
    requires Word(w)
    ensures Split(w) == [w]
  {
    WordLengthIs(w, |w|);
    assert w[..|w|] == w && w[|w|..] == [];
  }

  /** Any whitespace character separates: the words around it are split
      independently, whatever whitespace precedes, follows or repeats. With
      `SplitWord` and `Split([]) == []` this fixes the words of every string. */
  lemma {:induction false} SplitAtSpace(a: string, c: char, b: string)
    requires PySpace(c)
    ensures Split(a + [c] + b) == Split(a) + Split(b)
    decreases |a|
  {
    if a == [] {
      assert a + [c] + b == [c] + b && ([c] + b)[1..] == b;
    } else if PySpace(a[0]) {
      SplitAtSpace(a[1..], c, b);
      SplitAtSpaceSkip(a, c, b);
    } else {
      SplitAtSpace(a[WordLength(a)..], c, b);
      SplitAtSpaceWord(a, c, b);
    }
  }

  /** The step of `SplitAtSpace` past a leading whitespace character of `a`. */
  lemma SplitAtSpaceSkip(a: string, c: char, b: string)
    requires a != [] && PySpace(a[0])
    requires Split(a[1..] + [c] + b) == Split(a[1..]) + Split(b)
    ensures Split(a + [c] + b) == Split(a) + Split(b)
  {
    assert (a + [c] + b)[1..] == a[1..] + [c] + b;
  }

  /** The step of `SplitAtSpace` past the first word of `a`. */
  lemma SplitAtSpaceWord(a: string, c: char, b: string)
    requires PySpace(c) && a != [] && !PySpace(a[0])
    requires Split(a[WordLength(a)..] + [c] + b) == Split(a[WordLength(a)..]) + Split(b)
    ensures Split(a + [c] + b) == Split(a) + Split(b)
  {
    var s, k := a + [c] + b, WordLength(a);
    var w, rest := a[..k], a[k..];
    FirstWordAcrossSpace(a, c, b);
    SplitFirstWord(s);
    SplitFirstWord(a);
    ConsAppend(w, Split(rest), Split(b));
  }

  lemma ConsAppend<T>(w: T, x: seq<T>, y: seq<T>)
    ensures [w] + (x + y) == [w] + x + y
  {
  }

  /** A non-empty split starts with the leading word. */
  lemma SplitFirstWord(t: string)
    requires t != [] && !PySpace(t[0])
    ensures Split(t) == [t[..WordLength(t)]] + Split(t[WordLength(t)..])
  {
  }

  /** A whitespace character after `a` ends `a`'s first word where `a` alone would. */
  lemma FirstWordAcrossSpace(a: string, c: char, b: string)
    requires PySpace(c) && a != [] && !PySpace(a[0])
    ensures var s, k := a + [c] + b, WordLength(a);
            && s != [] && !PySpace(s[0]) && WordLength(s) == k
            && s[..k] == a[..k] && s[k..] == a[k..] + [c] + b
  {
    var s, k := a + [c] + b, WordLength(a);
    assert forall i :: 0 <= i < k ==> s[i] == a[i];
    assert s[k] == (if k < |a| then a[k] else c);
    WordLengthIs(s, k);
    assert s[..k] == a[..k];
    assert s[k..] == a[k..] + [c] + b;
  }

  /** `" ".join(ws)`. */
  function Join(ws: seq<string>): (s: string)
    ensures (forall k :: 0 <= k < |ws| ==> NoUpper(ws[k])) ==> NoUpper(s)
    decreases |ws|
  {
    if ws == [] then []
    else if |ws| == 1 then ws[0]
    else
      ws[0] + " " + Join(ws[1..])
  }

  /** No whitespace at either end, no two whitespace characters in a row, and
      every separator a plain space. */
  predicate Normalized(s: string) {
    forall i :: 0 <= i < |s| && PySpace(s[i]) ==> s[i] == ' ' && 0 < i < |s| - 1 && !PySpace(s[i + 1])
  }

  lemma {:induction false} JoinEnds(ws: seq<string>)
    requires Words(ws) && ws != []
    ensures var s := Join(ws); s != [] && !PySpace(s[0]) && !PySpace(s[|s| - 1])
    decreases |ws|
  {
    if |ws| > 1 {
      JoinEnds(ws[1..]);
    }
  }

  /** Joining words gives a normalized string. */
  lemma {:induction false} JoinNormalized(ws: seq<string>)
    requires Words(ws)
    ensures Normalized(Join(ws))
    decreases |ws|
  {
    if |ws| > 1 {
      JoinNormalized(ws[1..]);
      JoinEnds(ws[1..]);
      var w := ws[0];
      var rest := Join(ws[1..]);
      var s := Join(ws);
      assert s == w + " " + rest;
      assert forall i :: 0 <= i < |w| ==> s[i] == w[i];
      forall i | 0 <= i < |s| && PySpace(s[i])
        ensures s[i] == ' ' && 0 < i < |s| - 1 && !PySpace(s[i + 1])
      {
        if i < |w| {
          assert false;
        } else if i > |w| {
          var j := i - |w| - 1;
          assert s[i] == rest[j];
          assert s[i + 1] == rest[j + 1];
        } else {
          assert s[i + 1] == rest[0];
        }
      }
    }
  }

  /** Splitting a join of words gives the words back. */
  lemma {:induction false} SplitJoin(ws: seq<string>)
    requires Words(ws)
    ensures Split(Join(ws)) == ws
    decreases |ws|
  {
    if ws != [] {
      var w := ws[0];
      assert Word(w);
      if |ws| == 1 {
        var k := WordLength(w);
        assert k == |w|;
        assert w[..k] == w && w[k..] == [];
      } else {
        SplitJoin(ws[1..]);
        var rest := Join(ws[1..]);
        var s := w + " " + rest;
        assert s == Join(ws);
        var k := WordLength(s);
        assert s[|w|] == ' ';
        assert forall i :: 0 <= i < |w| ==> s[i] == w[i];
        assert k == |w|;
        assert s[..k] == w;
        assert s[k..] == [' '] + rest;
        assert s[k..][1..] == rest;
        assert [w] + ws[1..] == ws;
      }
    }
  }

  /** In a normalized string, a word that does not reach the end is followed by
      one space and a normalized remainder. */
  lemma NormalizedTail(s: string)
    requires Normalized(s) && s != [] && WordLength(s) < |s|
    ensures var k := WordLength(s);
            s[k] == ' ' && k + 1 < |s| && Normalized(s[k + 1..]) && s[k + 1..] != [] && !PySpace(s[k + 1])
  {
    var k := WordLength(s);
    var t := s[k + 1..];
    forall i | 0 <= i < |t| && PySpace(t[i])
      ensures t[i] == ' ' && 0 < i < |t| - 1 && !PySpace(t[i + 1])
    {
      assert t[i] == s[k + 1 + i];
      if i + 1 < |t| {
        assert t[i + 1] == s[k + 2 + i];
      }
    }
  }

  /** Splitting past a word and the single space after it. */
  lemma SplitStep(s: string, k: nat)
    requires s != [] && !PySpace(s[0]) && k == WordLength(s) && k + 1 < |s| && PySpace(s[k])
    ensures Split(s) == [s[..k]] + Split(s[k + 1..])
  {
    calc {
      Split(s);
    ==  { SplitFirstWord(s); }
      [s[..k]] + Split(s[k..]);
    ==  { DropOne(s, k); SplitSkipsSpace(s[k..]); }
      [s[..k]] + Split(s[k + 1..]);
    }
  }

  lemma DropOne<T>(s: seq<T>, k: nat)
    requires k < |s|
    ensures s[k..] != [] && s[k..][0] == s[k] && s[k..][1..] == s[k + 1..]
  {
  }

  /** A leading whitespace character contributes no word. */
  lemma SplitSkipsSpace(t: string)
    requires t != [] && PySpace(t[0])
    ensures Split(t) == Split(t[1..])
  {
  }

  lemma JoinCons(w: string, rest: seq<string>)
    requires rest != []
    ensures Join([w] + rest) == w + " " + Join(rest)
  {
    assert ([w] + rest)[1..] == rest;
  }

  lemma SplitAt(s: string, k: nat)
    requires k < |s| && s[k] == ' '
    ensures s == s[..k] + " " + s[k + 1..]
  {
  }

  /** A string that is one word. */
  lemma JoinSplitWord(s: string)
    requires s != [] && WordLength(s) == |s|
    ensures Join(Split(s)) == s
  {
    assert s[..|s|] == s && s[|s|..] == [];
  }

  /** One word, one space, then a string that is the join of its own words. */
  lemma JoinSplitStep(s: string)
    requires s != [] && !PySpace(s[0]) && WordLength(s) + 1 < |s|
    requires s[WordLength(s)] == ' ' && !PySpace(s[WordLength(s) + 1])
    requires Join(Split(s[WordLength(s) + 1..])) == s[WordLength(s) + 1..]
    ensures Join(Split(s)) == s
  {
    var k := WordLength(s);
    var w, t := s[..k], s[k + 1..];
    SplitStep(s, k);
    assert Split(t) != [];
    JoinCons(w, Split(t));
    SplitAt(s, k);
  }

  /** A normalized string is the join of its own words. */
  lemma {:induction false} JoinSplit(s: string)
    requires Normalized(s)
    ensures Join(Split(s)) == s
    decreases |s|
  {
    if s != [] {
      var k := WordLength(s);
      if k == |s| {
        JoinSplitWord(s);
      } else {
        NormalizedTail(s);
        JoinSplit(s[k + 1..]);
        JoinSplitStep(s);
      }
    }
  }

  /** `_preprocess_text`: lower-case, then collapse every whitespace run to one
      space and strip the ends. */
  function Preprocess(text: string): (r: string)
    ensures Normalized(r) && NoUpper(r)
    // the words survive, lower-cased
    ensures Split(r) == Split(LowerStr(text))
  {
    var ws := Split(LowerStr(text));
    JoinNormalized(ws);
    SplitJoin(ws);
    Join(ws)
  }

  /** Preprocessing is idempotent, and its fixed points are exactly the
      normalized strings without upper-case letters. */
  lemma PreprocessFixedPoints(text: string)
    ensures Preprocess(Preprocess(text)) == Preprocess(text)
    ensures Preprocess(text) == text <==> Normalized(text) && NoUpper(text)
  {
    if Normalized(text) && NoUpper(text) {
      JoinSplit(text);
    }
  }

  predicate IsLetter(c: char) {
    'a' <= c <= 'z' || 'A' <= c <= 'Z'
  }

  predicate Letters(w: string) {
    forall i :: 0 <= i < |w| ==> IsLetter(w[i])
  }

  /** The end of the run of letters starting at `p`. */
  function RunEnd(s: string, p: nat): (e: nat)
    requires p <= |s|
    ensures p <= e <= |s|
    ensures forall i :: p <= i < e ==> IsLetter(s[i])
    ensures e < |s| ==> !IsLetter(s[e])
    decreases |s| - p
  {
    if p == |s| || !IsLetter(s[p]) then p else RunEnd(s, p + 1)
  }

  /** `s[a..b]` is a run of letters that cannot be extended either way. */
  predicate MaximalRun(s: string, a: nat, b: nat) {
    && a < b <= |s|
    && (forall i :: a <= i < b ==> IsLetter(s[i]))
    && (a == 0 || !IsLetter(s[a - 1]))
    && (b == |s| || !IsLetter(s[b]))
  }

  /** `w` occurs in `s` at `a` as a maximal run. */
  predicate RunAt(s: string, a: nat, w: string) {
    MaximalRun(s, a, a + |w|) && s[a..a + |w|] == w
  }

  /** The maximal letter runs of `s` from position `p` on, in order. */
  function RunsFrom(s: string, p: nat): (rs: seq<string>)
    requires p <= |s|
    ensures forall k :: 0 <= k < |rs| ==> rs[k] != [] && Letters(rs[k])
    ensures NoUpper(s) ==> forall k :: 0 <= k < |rs| ==> NoUpper(rs[k])
    decreases |s| - p
  {
    if p == |s| then []
    else if !IsLetter(s[p]) then RunsFrom(s, p + 1)
    else
      var e := RunEnd(s, p);
      [s[p..e]] + RunsFrom(s, e)
  }

  /** The maximal letter runs of `s`, in order. */
  function Runs(s: string): (rs: seq<string>)
    ensures forall k :: 0 <= k < |rs| ==> rs[k] != [] && Letters(rs[k])
    ensures NoUpper(s) ==> forall k :: 0 <= k < |rs| ==> NoUpper(rs[k])
  {
    RunsFrom(s, 0)
  }

  /** Every run found from `p` on is a maximal run of `s` starting at or after `p`,
      provided `p` is not inside a run. */
  lemma {:induction false} RunsFromSound(s: string, p: nat, w: string)
    requires p <= |s| && w in RunsFrom(s, p)
    requires p == 0 || p == |s| || !IsLetter(s[p - 1]) || !IsLetter(s[p])
    ensures exists a: nat :: p <= a && RunAt(s, a, w)
    decreases |s| - p
  {
    if !IsLetter(s[p]) {
      RunsFromSound(s, p + 1, w);
    } else {
      var e := RunEnd(s, p);
      if w == s[p..e] {
        assert RunAt(s, p, w);
      } else {
        RunsFromSound(s, e, w);
      }
    }
  }

  /** Every maximal run starting at or after `p` is found from `p` on, provided
      `p` is not inside a run. */
  lemma {:induction false} RunsFromComplete(s: string, p: nat, a: nat, b: nat)
    requires p <= a && MaximalRun(s, a, b)
    ensures s[a..b] in RunsFrom(s, p)
    decreases |s| - p
  {
    if !IsLetter(s[p]) {
      RunsFromComplete(s, p + 1, a, b);
    } else {
      var e := RunEnd(s, p);
      if p == a {
        assert b <= e by {
          if b < |s| { assert !IsLetter(s[b]); }
        }
        assert e <= b by {
          if e < |s| { assert !IsLetter(s[e]); }
        }
      } else {
        assert e < a by {
          assert !IsLetter(s[a - 1]);
        }
        RunsFromComplete(s, e, a, b);
      }
    }
  }

  /** The runs are exactly the maximal runs. */
  lemma RunsIff(s: string, w: string)
    ensures w in Runs(s) <==> exists a: nat :: RunAt(s, a, w)
  {
    if w in Runs(s) {
      RunsFromSound(s, 0, w);
    }
    if exists a: nat :: RunAt(s, a, w) {
      var a: nat :| RunAt(s, a, w);
      RunsFromComplete(s, 0, a, a + |w|);
    }
  }

  /** `_tokenize`: the matches of `[a-zA-Z]{3,}` in the lower-cased text. The
      pattern is greedy, so a match is a whole maximal letter run. */
  function Tokenize(text: string): (ws: set<string>)
    ensures forall w :: w in ws ==> |w| >= 3 && Letters(w) && NoUpper(w)
  {
    set w | w in Runs(LowerStr(text)) && |w| >= 3
  }

  /** The tokens are exactly the maximal letter runs of length at least three. */
  lemma TokenizeIff(text: string, w: string)
    ensures w in Tokenize(text) <==>
            |w| >= 3 && exists a: nat :: RunAt(LowerStr(text), a, w)
  {
    RunsIff(LowerStr(text), w);
  }
}
