/**
 * `analyze_repo` end to end: parse the URL, fetch what the checks need,
 * gather it into the rules engine's inputs, score, and report. The network
 * is a parameter: `fetch` gives, for a parsed owner and repository, the
 * responses of the four requests the analyzer makes.
 */
module Analyzer {
  import opened Wrappers
  import opened Strings
  import opened UrlParser
  import opened RedFlags

  /** An HTTP response: its status code and its decoded body. */
  datatype Response<T> = Response(status: int, body: T)

  /**
   * The fields of the repository record the analyzer reads; `None` is a
   * key missing from the JSON object.
   */
  datatype RepoRecord = RepoRecord(stars: Option<int>, forks: Option<int>, description: Option<string>)

  /**
   * The four responses for one repository. `commits` carries the number of
   * entries in the body of the commits request. `readme` and `languages`
   * are `None` when their request raised, which the analyzer swallows.
   */
  datatype Fetched = Fetched(
    repo: Response<RepoRecord>,
    commits: Response<nat>,
    readme: Option<Response<string>>,
    languages: Option<Response<seq<int>>>)

  /** What a successful analysis returns. */
  datatype Report = Report(score: int, riskLevel: RiskLevel, flags: seq<Flag>, stars: int, forks: int, commits: nat)

  /** The analyzer's answer: one of its two errors, or a report. */
  datatype Outcome = InvalidUrl | FetchFailed(status: int) | Analyzed(report: Report)

  /** HTTP 200, the only status the analyzer reads a body under. */
  const Ok: int := 200

  /** ASCII lower case of one character. */
  function LowerChar(c: char): (r: char)
    ensures 'A' <= c <= 'Z' ==> 'a' <= r <= 'z' && r as int - c as int == 'a' as int - 'A' as int
    ensures !('A' <= c <= 'Z') ==> r == c
  {
    if 'A' <= c <= 'Z' then (c as int - 'A' as int + 'a' as int) as char else c
  }

  /** No ASCII capital letter in `s`. */
  predicate IsLower(s: string) {
    forall i | 0 <= i < |s| :: !('A' <= s[i] <= 'Z')
  }

  /** ASCII lower case of a string, standing in for `str.lower()`. */
  function Lower(s: string): (r: string)
    ensures |r| == |s| && IsLower(r)
    ensures forall i | 0 <= i < |s| :: r[i] == LowerChar(s[i])
    ensures IsLower(s) ==> r == s
  {
    seq(|s|, i requires 0 <= i < |s| => LowerChar(s[i]))
  }

  /** Lower-casing twice is lower-casing once. */
  lemma LowerIdempotent(s: string)
    ensures Lower(Lower(s)) == Lower(s)
  {
  }

  /** A lower-case phrase found in a text is still found once the text is lower-cased. */
  lemma LowerKeepsLowerNeedle(text: string, needle: string)
    requires IsLower(needle) && Contains(text, needle)
    ensures Contains(Lower(text), needle)
  {
    var i :| OccursAt(text, needle, i);
    assert Lower(text)[i..i + |needle|] == Lower(needle) by {
      forall k | 0 <= k < |needle|
        ensures Lower(text)[i..i + |needle|][k] == Lower(needle)[k]
      {
        assert text[i..i + |needle|][k] == needle[k];
      }
    }
    assert OccursAt(Lower(text), needle, i);
  }

  /** Lower-casing commutes with taking a slice. */
  lemma LowerSlice(text: string, i: nat, j: nat)
    requires i <= j <= |text|
    ensures Lower(text)[i..j] == Lower(text[i..j])
  {
  }

  /** The slice of `text` at `i` as long as `needle` lower-cases to `needle`. */
  ghost predicate FoldsTo(text: string, needle: string, i: int) {
    0 <= i && i + |needle| <= |text| && Lower(text[i..i + |needle|]) == needle
  }

  /**
   * `needle in text.lower()` holds exactly when some slice of `text` lower-cases
   * to `needle`: the search ignores the letter case of the text.
   */
  lemma ContainsLowerIff(text: string, needle: string)
    ensures Contains(Lower(text), needle) <==> exists i :: FoldsTo(text, needle, i)
  {
    if Contains(Lower(text), needle) {
      var i :| OccursAt(Lower(text), needle, i);
      LowerSlice(text, i, i + |needle|);
      assert FoldsTo(text, needle, i);
    }
    if exists i :: FoldsTo(text, needle, i) {
      var i :| FoldsTo(text, needle, i);
      LowerSlice(text, i, i + |needle|);
      assert OccursAt(Lower(text), needle, i);
    }
  }

  /** The phrases and keywords the checks look for are already lower case. */
  lemma TermsAreLower()
    ensures forall k | k in MarketingTerms :: IsLower(k)
    ensures forall k | k in FundingKeywords :: IsLower(k)
  {
  }

  /** Python's `sum` over the per-language byte counts. */
  function Sum(values: seq<int>): (r: int)
    ensures (forall i | 0 <= i < |values| :: values[i] >= 0) ==> r >= 0
  {
    if values == [] then 0 else values[0] + Sum(values[1..])
  }

  /** Summing in two parts gives the sum of the whole. */
  lemma {:induction false} SumAppend(a: seq<int>, b: seq<int>)
    ensures Sum(a + b) == Sum(a) + Sum(b)
    decreases |a|
  {
    if a == [] {
      assert a + b == b;
    } else {
      assert (a + b)[1..] == a[1..] + b;
      SumAppend(a[1..], b);
    }
  }

  /** The body of a response the analyzer reads, or `None` when it raised or did not answer 200. */
  function Body<T>(r: Option<Response<T>>): (b: Option<T>)
    ensures b.Some? <==> r.Some? && r.value.status == Ok
    ensures b.Some? ==> b.value == r.value.body
  {
    if r.Some? && r.value.status == Ok then Some(r.value.body) else None
  }

  /** A JSON key's value, or the default `get` falls back to when it is missing. */
  function GetOr<T>(field: Option<T>, default: T): (r: T)
    ensures field == Some(r) || (field.None? && r == default)
  {
    if field.Some? then field.value else default
  }

  /**
   * The rules engine's inputs from the responses: commits count only when
   * their request answered 200; missing star and fork counts are 0 and a
   * missing description is empty; texts are lower-cased.
   */
  function Gather(f: Fetched): (x: Inputs)
    ensures x.commitCount == (if f.commits.status == Ok then f.commits.body else 0)
    ensures x.readme.Some? <==> Body(f.readme).Some?
    ensures x.readme.Some? ==> x.readme.value == Lower(Body(f.readme).value) && IsLower(x.readme.value)
    ensures x.stars == GetOr(f.repo.body.stars, 0) && x.forks == GetOr(f.repo.body.forks, 0)
    ensures x.description == Lower(GetOr(f.repo.body.description, "")) && IsLower(x.description)
    ensures x.totalLoc.Some? <==> Body(f.languages).Some?
    ensures x.totalLoc.Some? ==> x.totalLoc.value == Sum(Body(f.languages).value)
  {
    Inputs(
      commitCount := if f.commits.status == Ok then f.commits.body else 0,
      stars := GetOr(f.repo.body.stars, 0),
      forks := GetOr(f.repo.body.forks, 0),
      description := Lower(GetOr(f.repo.body.description, "")),
      readme := if Body(f.readme).Some? then Some(Lower(Body(f.readme).value)) else None,
      totalLoc := if Body(f.languages).Some? then Some(Sum(Body(f.languages).value)) else None)
  }

  /**
   * What a report says about the inputs the checks saw: the flags are
   * exactly the raised ones, in check order; the score is what their
   * penalties leave of 100, clamped at 0, with the level that score falls
   * in; the star, fork and commit counts are the ones the checks used.
   */
  ghost predicate Describes(rep: Report, x: Inputs) {
    && 0 <= rep.score <= StartScore
    && rep.riskLevel == RiskLevelOf(rep.score)
    && (forall f :: f in rep.flags <==> Raised(f, x))
    && InCheckOrder(rep.flags)
    && rep.score == Clamp(StartScore - TotalPenalty(rep.flags))
    && rep.stars == x.stars && rep.forks == x.forks && rep.commits == x.commitCount
  }

  /** The report for the gathered inputs. */
  function ReportOf(x: Inputs): (rep: Report)
    ensures Describes(rep, x)
  {
    var t := Score(x);
    Report(t.score, RiskLevelOf(t.score), t.flags, x.stars, x.forks, x.commitCount)
  }

  /**
   * The analysis of `url`: an invalid URL is answered before any request;
   * a repository request that does not answer 200 ends it; otherwise the
   * report carries the rules engine's score, flags and risk level.
   */
  function Analyze(url: string, fetch: ScanTarget -> Fetched): (r: Outcome)
    ensures r == InvalidUrl <==> ParseUrlFixed(url).None?
    ensures r.FetchFailed? <==>
            ParseUrlFixed(url).Some? && fetch(ParseUrlFixed(url).value).repo.status != Ok
    ensures r.FetchFailed? ==> r.status == fetch(ParseUrlFixed(url).value).repo.status
    ensures r.Analyzed? ==> Describes(r.report, Gather(fetch(ParseUrlFixed(url).value)))
  {
    match ParseUrlFixed(url)
    case None => InvalidUrl
    case Some(target) =>
      var f := fetch(target);
      if f.repo.status != Ok then
        FetchFailed(f.repo.status)
      else
        Analyzed(ReportOf(Gather(f)))
  }

  /** An invalid URL is answered the same whatever the network would have said. */
  lemma InvalidUrlNeedsNoFetch(url: string, fetch1: ScanTarget -> Fetched, fetch2: ScanTarget -> Fetched)
    requires ParseUrlFixed(url).None?
    ensures Analyze(url, fetch1) == Analyze(url, fetch2) == InvalidUrl
  {
  }

  /** Only the responses for the parsed owner and repository matter. */
  lemma AnalyzeReadsOnlyTarget(url: string, fetch1: ScanTarget -> Fetched, fetch2: ScanTarget -> Fetched)
    requires ParseUrlFixed(url).Some?
    requires fetch1(ParseUrlFixed(url).value) == fetch2(ParseUrlFixed(url).value)
    ensures Analyze(url, fetch1) == Analyze(url, fetch2)
  {
  }

  /** A failed commits request counts as no commits, so the "suspiciously low" flag is raised. */
  lemma FailedCommitsLookSuspicious(f: Fetched)
    requires f.commits.status != Ok
    ensures FewCommits(0) in Score(Gather(f)).flags
  {
    assert Raised(FewCommits(0), Gather(f));
  }

  /** A README request that raised or did not answer 200 raises no funding flag. */
  lemma FailedReadmeRaisesNoFundingFlag(f: Fetched)
    requires Body(f.readme).None?
    ensures FundingLanguage !in Score(Gather(f)).flags
  {
    FundingNeedsReadme(Gather(f));
  }

  /**
   * A marketing phrase in any letter case in the description raises the
   * marketing flag: it is enough that some slice of the raw description
   * lower-cases to the phrase.
   */
  lemma MarketingIgnoresCase(f: Fetched, k: string, i: nat)
    requires k in MarketingTerms
    requires i + |k| <= |GetOr(f.repo.body.description, "")|
    requires Lower(GetOr(f.repo.body.description, "")[i..i + |k|]) == k
    ensures MarketingLanguage in Score(Gather(f)).flags
  {
    var d := GetOr(f.repo.body.description, "");
    LowerSlice(d, i, i + |k|);
    assert OccursAt(Lower(d), k, i);
    assert Raised(MarketingLanguage, Gather(f));
  }
}
