/**
 The pure part of the resume/job comparison: the keyword lists (job words the
 resume lacks, job words it shares) and the recommendation chosen from the
 similarity score. The score itself comes from a TF-IDF cosine similarity and
 is taken here as an input.
 */
module Keywords {
  import opened Common
  import opened Text
  import opened Lex
  import opened Order

  const Stopwords: set<string> := {
    "and", "the", "for", "with", "this", "that", "from", "have", "will",
    "your", "you", "our", "are", "job", "role", "work", "team"
  }

  /** Each list is cut after this many words. */
  const MaxKeywords: nat := 50

  /** The filter of both comprehensions. */
  predicate Keyword(w: string) {
    w !in Stopwords && |w| > 2
  }

  /** `analyze_resume`: the preprocessed text. */
  function AnalyzeResume(text: string): (r: string)
    ensures Normalized(r) && NoUpper(r)
    ensures Split(r) == Split(LowerStr(text))
  {
    Preprocess(text)
  }

  /** The runs of at least three letters, in text order, repeats kept. */
  function LongRuns(rs: seq<string>): (r: seq<string>)
    ensures forall w :: w in r <==> w in rs && |w| >= 3
    decreases |rs|
  {
    if rs == [] then []
    else if |rs[0]| >= 3 then [rs[0]] + LongRuns(rs[1..])
    else LongRuns(rs[1..])
  }

  /** The tokens of a text as a list (the set `_tokenize` builds, before it is a set). */
  function TokenList(text: string): (ws: seq<string>)
    ensures forall w :: w in ws <==> w in Tokenize(text)
  {
    LongRuns(Runs(LowerStr(text)))
  }

  /** The job words that are (`shared`) or are not (`!shared`) resume words:
      `job_words & resume_words` and `job_words - resume_words`. */
  function Select(jobWords: seq<string>, resumeWords: set<string>, shared: bool): (r: seq<string>)
    ensures forall w :: w in r <==> w in jobWords && (w in resumeWords <==> shared)
    decreases |jobWords|
  {
    if jobWords == [] then []
    else
      var rest := Select(jobWords[1..], resumeWords, shared);
      if (jobWords[0] in resumeWords) == shared then [jobWords[0]] + rest else rest
  }

  /** The `if` of the comprehension, applied to a sorted list: keeps the order. */
  function KeepKeywords(s: seq<string>): (r: seq<string>)
    requires StrictlySorted(s)
    ensures StrictlySorted(r)
    ensures forall w :: w in r <==> w in s && Keyword(w)
    decreases |s|
  {
    if s == [] then []
    else
      var rest := KeepKeywords(s[1..]);
      if Keyword(s[0]) then
        assert forall j :: 0 <= j < |rest| ==> rest[j] in s[1..];
        [s[0]] + rest
      else rest
  }

  /** `[w for w in sorted(ws) if ...][:50]`: the smallest fifty keywords of `ws`,
      ascending. */
  function TopKeywords(ws: seq<string>): (r: seq<string>)
    ensures StrictlySorted(r) && |r| <= MaxKeywords
    ensures forall w :: w in r ==> w in ws && Keyword(w)
    // nothing qualifying is dropped unless the list is full, and then only
    // words that sort after every listed word
    ensures forall w :: w in ws && Keyword(w) && w !in r ==>
              |r| == MaxKeywords && forall i :: 0 <= i < |r| ==> Less(r[i], w)
  {
    var full := KeepKeywords(SortedSet(ws));
    var r := Take(full, MaxKeywords);
    forall w | w in ws && Keyword(w) && w !in r
      ensures |r| == MaxKeywords && forall i :: 0 <= i < |r| ==> Less(r[i], w)
    {
      var j :| 0 <= j < |full| && full[j] == w;
      assert j >= MaxKeywords;
    }
    r
  }

  /** The `missing` list: job keywords absent from the resume. */
  function Missing(resumeText: string, jobText: string): (r: seq<string>)
    ensures StrictlySorted(r) && |r| <= MaxKeywords
    ensures forall w :: w in r ==> w in Tokenize(jobText) && w !in Tokenize(resumeText) && Keyword(w)
    ensures forall w :: w in Tokenize(jobText) && w !in Tokenize(resumeText) && Keyword(w) && w !in r ==>
              |r| == MaxKeywords && forall i :: 0 <= i < |r| ==> Less(r[i], w)
  {
    TopKeywords(Select(TokenList(jobText), Tokenize(resumeText), false))
  }

  /** The `matched` list: job keywords the resume shares. */
  function Matched(resumeText: string, jobText: string): (r: seq<string>)
    ensures StrictlySorted(r) && |r| <= MaxKeywords
    ensures forall w :: w in r ==> w in Tokenize(jobText) && w in Tokenize(resumeText) && Keyword(w)
    ensures forall w :: w in Tokenize(jobText) && w in Tokenize(resumeText) && Keyword(w) && w !in r ==>
              |r| == MaxKeywords && forall i :: 0 <= i < |r| ==> Less(r[i], w)
  {
    TopKeywords(Select(TokenList(jobText), Tokenize(resumeText), true))
  }

  /** No word is both missing and matched. */
  lemma MissingMatchedDisjoint(resumeText: string, jobText: string, w: string)
    ensures !(w in Missing(resumeText, jobText) && w in Matched(resumeText, jobText))
  {
  }

  /** When at most fifty words qualify, the list is the unique strictly
      ascending list of exactly those words. */
  lemma TopKeywordsExact(ws: seq<string>, s: seq<string>)
    requires StrictlySorted(s) && |s| < MaxKeywords
    requires forall w :: w in s <==> w in ws && Keyword(w)
    ensures TopKeywords(ws) == s
  {
    var r := TopKeywords(ws);
    SortedSubsetShorter(r, s);
    SortedUnique(r, s);
  }

  /** The missing list is `sorted(job_words - resume_words)` with the keyword
      filter applied, whenever it is not cut short: any strictly ascending list
      holding exactly the job keywords absent from the resume, if shorter than
      fifty, is the missing list. */
  lemma MissingIsSortedDifference(resumeText: string, jobText: string, s: seq<string>)
    requires StrictlySorted(s) && |s| < MaxKeywords
    requires forall w :: w in s <==> w in Tokenize(jobText) && w !in Tokenize(resumeText) && Keyword(w)
    ensures Missing(resumeText, jobText) == s
  {
    TopKeywordsExact(Select(TokenList(jobText), Tokenize(resumeText), false), s);
  }

  /** Likewise the matched list is `sorted(job_words & resume_words)`, filtered. */
  lemma MatchedIsSortedIntersection(resumeText: string, jobText: string, s: seq<string>)
    requires StrictlySorted(s) && |s| < MaxKeywords
    requires forall w :: w in s <==> w in Tokenize(jobText) && w in Tokenize(resumeText) && Keyword(w)
    ensures Matched(resumeText, jobText) == s
  {
    TopKeywordsExact(Select(TokenList(jobText), Tokenize(resumeText), true), s);
  }

  /** A strictly sorted list whose elements all occur in `s` is no longer than `s`. */
  lemma {:induction false} SortedSubsetShorter(r: seq<string>, s: seq<string>)
    requires StrictlySorted(r)
    requires forall i :: 0 <= i < |r| ==> r[i] in s
    ensures |r| <= |s|
    decreases |r|
  {
    if r != [] {
      var j :| 0 <= j < |s| && s[j] == r[0];
      var s' := s[..j] + s[j + 1..];
      forall i | 1 <= i < |r|
        ensures r[i] in s'
      {
        SortedDistinct(r, 0, i);
        var k :| 0 <= k < |s| && s[k] == r[i];
        if k < j { assert s'[k] == r[i]; } else { assert s'[k - 1] == r[i]; }
      }
      assert forall i :: 0 <= i < |r[1..]| ==> r[1..][i] == r[i + 1];
      SortedSubsetShorter(r[1..], s');
    }
  }

  /** The score bands of `compute_match_score`. */
  datatype Band = Low | Moderate | Strong

  /** The thresholds are the binary64 values of the literals `0.7` and `0.4`:
      the score is a float, and so is each literal it is compared with. */
  const StrongAbove: real := 0.6999999999999999555910790149937383830547332763671875
  const ModerateAbove: real := 0.40000000000000002220446049250313080847263336181640625

  function BandOf(score: real): (b: Band)
    ensures b == Strong <==> score > StrongAbove
    ensures b == Moderate <==> ModerateAbove < score <= StrongAbove
    ensures b == Low <==> score <= ModerateAbove
  {
    if score > StrongAbove then Strong else if score > ModerateAbove then Moderate else Low
  }

  function Rank(b: Band): nat {
    match b
    case Low => 0
    case Moderate => 1
    case Strong => 2
  }

  /** The recommendation text for a score. */
  function Recommendation(score: real): (r: string)
    ensures BandOf(score) == Strong ==> r == "Strong match. Consider shortlisting this candidate."
    ensures BandOf(score) == Moderate ==> r == "Moderate match. Review manually for final decision."
    ensures BandOf(score) == Low ==> r == "Low match. Candidate may not fit this role closely."
  {
    match BandOf(score)
    case Strong => "Strong match. Consider shortlisting this candidate."
    case Moderate => "Moderate match. Review manually for final decision."
    case Low => "Low match. Candidate may not fit this role closely."
  }

  /** A higher score never gets a weaker recommendation, and the text tells the
      band apart. */
  lemma RecommendationMonotone(s1: real, s2: real)
    requires s1 <= s2
    ensures Rank(BandOf(s1)) <= Rank(BandOf(s2))
    ensures Recommendation(s1) == Recommendation(s2) <==> BandOf(s1) == BandOf(s2)
  {
  }
}
