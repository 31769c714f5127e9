/**
 * The red-flag rules engine of `analyze_repo`: five checks, run in a fixed
 * order over data fetched about one repository, each appending at most one
 * red flag and taking a fixed penalty off a score that starts at 100; the
 * score is then clamped at 0 and mapped to a risk level.
 */
module RedFlags {
  import opened Wrappers
  import opened Strings

  /** The score a repository starts from. */
  const StartScore: int := 100

  /** Fewer commits than this are "suspiciously low". */
  const FewCommitsBelow: nat := 5

  /** Fewer commits than this (and at least `FewCommitsBelow`) are "below average". */
  const AverageCommitsBelow: nat := 20

  /** Phrases whose presence in the description counts as marketing language. */
  const MarketingTerms: seq<string> :=
    ["world's first", "revolutionary", "80%", "game-changing", "unprecedented"]

  /** Words whose presence in the README counts as funding-seeking language. */
  const FundingKeywords: seq<string> := ["seeking", "grant", "subsidy", "funding"]

  /** How many distinct funding keywords the README must contain to be flagged. */
  const FundingKeywordsNeeded: nat := 2

  /** More code than this, with few commits, is flagged. */
  const LocLimit: int := 1000

  /**
   * What the checks read, after the fetches. `readme` is `None` when the
   * README request failed or did not answer 200; `totalLoc` is `None` when
   * the languages request did. Description and README are lower-cased.
   */
  datatype Inputs = Inputs(
    commitCount: nat,
    stars: int,
    forks: int,
    description: string,
    readme: Option<string>,
    totalLoc: Option<int>)

  /** A red flag, carrying the numbers its message reports. */
  datatype Flag =
    | FewCommits(commits: nat)
    | BelowAverageCommits(commits: nat)
    | NoStars
    | NoForks
    | MarketingLanguage
    | FundingLanguage
    | LocVsCommits(commits: nat, loc: int)

  /** The checks, in the order the analyzer runs them. */
  datatype Check = CommitCheck | StarCheck | ForkCheck | MarketingCheck | FundingCheck | LocCheck

  const Checks: seq<Check> := [CommitCheck, StarCheck, ForkCheck, MarketingCheck, FundingCheck, LocCheck]

  /** Where `c` stands in `Checks`. */
  function Position(c: Check): nat {
    match c
    case CommitCheck => 0
    case StarCheck => 1
    case ForkCheck => 2
    case MarketingCheck => 3
    case FundingCheck => 4
    case LocCheck => 5
  }

  /** The check that raises `f`. */
  function Source(f: Flag): Check {
    match f
    case FewCommits(_) => CommitCheck
    case BelowAverageCommits(_) => CommitCheck
    case NoStars => StarCheck
    case NoForks => ForkCheck
    case MarketingLanguage => MarketingCheck
    case FundingLanguage => FundingCheck
    case LocVsCommits(_, _) => LocCheck
  }

  /** The points a flag takes off the score. */
  function Penalty(f: Flag): nat {
    match f
    case FewCommits(_) => 30
    case BelowAverageCommits(_) => 15
    case NoStars => 20
    case NoForks => 15
    case MarketingLanguage => 15
    case FundingLanguage => 15
    case LocVsCommits(_, _) => 20
  }

  /** The sum of the penalties of `flags`. */
  function TotalPenalty(flags: seq<Flag>): nat {
    if flags == [] then 0 else Penalty(flags[0]) + TotalPenalty(flags[1..])
  }

  /** Penalties add up over concatenation. */
  lemma {:induction false} TotalPenaltyAppend(a: seq<Flag>, b: seq<Flag>)
    ensures TotalPenalty(a + b) == TotalPenalty(a) + TotalPenalty(b)
    decreases |a|
  {
    if a != [] {
      assert (a + b)[1..] == a[1..] + b;
      TotalPenaltyAppend(a[1..], b);
    } else {
      assert a + b == b;
    }
  }

  /** No term is listed twice. */
  predicate NoDuplicates(terms: seq<string>) {
    forall i, j | 0 <= i < j < |terms| :: terms[i] != terms[j]
  }

  /** The listed terms that occur in `text`. */
  function Found(text: string, terms: seq<string>): set<string> {
    set k | k in terms && Contains(text, k)
  }

  /** Python's `any(term in text for term in terms)`. */
  function AnyContained(text: string, terms: seq<string>): (r: bool)
    ensures r <==> exists k :: k in terms && Contains(text, k)
    decreases |terms|
  {
    if terms == [] then
      false
    else
      var rest := AnyContained(text, terms[1..]);
      assert forall k :: k in terms <==> k == terms[0] || k in terms[1..];
      Contains(text, terms[0]) || rest
  }

  /** Python's `sum(term in text for term in terms)`: how many listed terms occur. */
  function CountContained(text: string, terms: seq<string>): (r: nat)
    ensures r <= |terms|
    ensures NoDuplicates(terms) ==> r == |Found(text, terms)|
    decreases |terms|
  {
    if terms == [] then
      assert Found(text, terms) == {};
      0
    else
      var here := if Contains(text, terms[0]) then 1 else 0;
      var rest := CountContained(text, terms[1..]);
      assert NoDuplicates(terms) ==> here + rest == |Found(text, terms)| by {
        if NoDuplicates(terms) {
          FoundSplit(text, terms);
        }
      }
      here + rest
  }

  /** `Found` over a list is its head, if present, next to `Found` over the tail. */
  lemma FoundSplit(text: string, terms: seq<string>)
    requires terms != [] && NoDuplicates(terms)
    ensures NoDuplicates(terms[1..])
    ensures terms[0] !in Found(text, terms[1..])
    ensures |Found(text, terms)| ==
            (if Contains(text, terms[0]) then 1 else 0) + |Found(text, terms[1..])|
  {
    var head := if Contains(text, terms[0]) then {terms[0]} else {};
    assert Found(text, terms) == head + Found(text, terms[1..]);
  }

  /**
   * When `analyze_repo` appends flag `f` for inputs `x`: the reference
   * definition each check is proved against.
   */
  ghost predicate Raised(f: Flag, x: Inputs) {
    match f
    case FewCommits(n) => n == x.commitCount && n < FewCommitsBelow
    case BelowAverageCommits(n) => n == x.commitCount && FewCommitsBelow <= n < AverageCommitsBelow
    case NoStars => x.stars == 0
    case NoForks => x.forks == 0
    case MarketingLanguage => exists k :: k in MarketingTerms && Contains(x.description, k)
    case FundingLanguage =>
      x.readme.Some? && |Found(x.readme.value, FundingKeywords)| >= FundingKeywordsNeeded
    case LocVsCommits(n, l) =>
      n == x.commitCount && n < FewCommitsBelow && x.totalLoc == Some(l) && l > LocLimit
  }

  /** How many of the funding keywords `text` contains, each counted once. */
  function FundingCount(text: string): (r: nat)
    ensures r == |Found(text, FundingKeywords)|
  {
    assert NoDuplicates(FundingKeywords);
    CountContained(text, FundingKeywords)
  }

  /**
   * `r` is the verdict of check `c` on `x`: a flag of that check that
   * `Raised` describes, and any such flag there is.
   */
  ghost predicate Decides(c: Check, x: Inputs, r: Option<Flag>) {
    && (r.Some? ==> Source(r.value) == c && Raised(r.value, x))
    && (forall f {:trigger Raised(f, x)} | Source(f) == c :: Raised(f, x) ==> r == Some(f))
  }

  /** Check 1: fewer than 5 commits, or else fewer than 20. */
  function CommitVerdict(x: Inputs): (r: Option<Flag>)
    ensures Decides(CommitCheck, x, r)
  {
    if x.commitCount < FewCommitsBelow then Some(FewCommits(x.commitCount))
    else if x.commitCount < AverageCommitsBelow then Some(BelowAverageCommits(x.commitCount))
    else None
  }

  /** Check 2, first half: no stars. */
  function StarVerdict(x: Inputs): (r: Option<Flag>)
    ensures Decides(StarCheck, x, r)
  {
    if x.stars == 0 then Some(NoStars) else None
  }

  /** Check 2, second half: no forks. */
  function ForkVerdict(x: Inputs): (r: Option<Flag>)
    ensures Decides(ForkCheck, x, r)
  {
    if x.forks == 0 then Some(NoForks) else None
  }

  /** Check 3: a marketing phrase in the description. */
  function MarketingVerdict(x: Inputs): (r: Option<Flag>)
    ensures Decides(MarketingCheck, x, r)
  {
    if AnyContained(x.description, MarketingTerms) then Some(MarketingLanguage) else None
  }

  /** Check 4: at least two distinct funding keywords in a README that was fetched. */
  function FundingVerdict(x: Inputs): (r: Option<Flag>)
    ensures Decides(FundingCheck, x, r)
  {
    if x.readme.Some? && FundingCount(x.readme.value) >= FundingKeywordsNeeded then
      Some(FundingLanguage)
    else
      None
  }

  /** Check 5: more than 1000 lines of code, when counted, with fewer than 5 commits. */
  function LocVerdict(x: Inputs): (r: Option<Flag>)
    ensures Decides(LocCheck, x, r)
  {
    if x.totalLoc.Some? && x.totalLoc.value > LocLimit && x.commitCount < FewCommitsBelow then
      Some(LocVsCommits(x.commitCount, x.totalLoc.value))
    else
      None
  }

  /**
   * The verdicts of the checks, in the order the analyzer runs them:
   * entry `i` decides check `Checks[i]`.
   */
  function Verdicts(x: Inputs): (r: seq<Option<Flag>>)
    ensures |r| == |Checks|
    ensures forall i | 0 <= i < |r| :: Decides(Checks[i], x, r[i])
  {
    [CommitVerdict(x), StarVerdict(x), ForkVerdict(x), MarketingVerdict(x), FundingVerdict(x), LocVerdict(x)]
  }

  /** The running score and the flags raised so far. */
  datatype Tally = Tally(score: int, flags: seq<Flag>)

  /** One check's verdict applied: append its flag, if any, and take its penalty off. */
  function Apply(v: Option<Flag>, t: Tally): Tally {
    match v
    case None => t
    case Some(f) => Tally(t.score - Penalty(f), t.flags + [f])
  }

  /**
   * The verdicts `vs`, in order, applied to `t`: the flags only grow, by at
   * most one per verdict, and the score falls by exactly the penalties of
   * the new flags.
   */
  function Fold(vs: seq<Option<Flag>>, t: Tally): (r: Tally)
    ensures |t.flags| <= |r.flags| <= |t.flags| + |vs|
    ensures r.flags[..|t.flags|] == t.flags
    ensures r.score == t.score - TotalPenalty(r.flags[|t.flags|..])
    decreases |vs|
  {
    if vs == [] then
      assert t.flags[|t.flags|..] == [];
      t
    else
      var t' := Apply(vs[0], t);
      var r := Fold(vs[1..], t');
      SplitNewFlags(t.flags, t'.flags, r.flags);
      r
  }

  /** New flags of two consecutive stages are the new flags of the first, then of the second. */
  lemma SplitNewFlags(a: seq<Flag>, b: seq<Flag>, c: seq<Flag>)
    requires |a| <= |b| <= |c| && b[..|a|] == a && c[..|b|] == b
    ensures c[..|a|] == a
    ensures c[|a|..] == b[|a|..] + c[|b|..]
    ensures TotalPenalty(c[|a|..]) == TotalPenalty(b[|a|..]) + TotalPenalty(c[|b|..])
  {
    assert c[|a|..] == b[|a|..] + c[|b|..];
    TotalPenaltyAppend(b[|a|..], c[|b|..]);
  }

  /** The flags a fold adds are exactly those some verdict carries. */
  lemma {:induction false} FoldFlags(vs: seq<Option<Flag>>, t: Tally)
    ensures var r := Fold(vs, t);
            forall f :: f in r.flags[|t.flags|..] <==> Some(f) in vs
    decreases |vs|
  {
    var r := Fold(vs, t);
    if vs == [] {
      assert r.flags[|t.flags|..] == [];
    } else {
      var t' := Apply(vs[0], t);
      FoldFlags(vs[1..], t');
      SplitNewFlags(t.flags, t'.flags, r.flags);
      assert forall v :: v in vs <==> v == vs[0] || v in vs[1..];
      assert forall f :: f in t'.flags[|t.flags|..] <==> vs[0] == Some(f);
    }
  }

  /** The flags of verdicts `vs` come from strictly later and later checks. */
  predicate OrderedVerdicts(vs: seq<Option<Flag>>) {
    forall i, j | 0 <= i < j < |vs| && vs[i].Some? && vs[j].Some? ::
      Position(Source(vs[i].value)) < Position(Source(vs[j].value))
  }

  /** The flags in `flags` come from strictly later and later checks. */
  predicate InCheckOrder(flags: seq<Flag>) {
    forall i, j | 0 <= i < j < |flags| :: Position(Source(flags[i])) < Position(Source(flags[j]))
  }

  /** A fold over ordered verdicts adds its flags in check order. */
  lemma {:induction false} FoldOrder(vs: seq<Option<Flag>>, t: Tally)
    requires OrderedVerdicts(vs)
    ensures var r := Fold(vs, t);
            InCheckOrder(r.flags[|t.flags|..])
    decreases |vs|
  {
    var r := Fold(vs, t);
    if vs == [] {
      assert r.flags[|t.flags|..] == [];
    } else {
      var t' := Apply(vs[0], t);
      OrderedVerdictsTail(vs);
      FoldOrder(vs[1..], t');
      FoldFlags(vs[1..], t');
      SplitNewFlags(t.flags, t'.flags, r.flags);
      var head := t'.flags[|t.flags|..];
      var tail := r.flags[|t'.flags|..];
      if vs[0].Some? {
        assert head == [vs[0].value];
        LaterVerdictsLaterFlags(vs, tail);
        OrderedJoin(head, tail, Position(Source(vs[0].value)));
      } else {
        assert head == [];
      }
    }
  }

  /** Dropping the first verdict keeps the rest in check order. */
  lemma OrderedVerdictsTail(vs: seq<Option<Flag>>)
    requires vs != [] && OrderedVerdicts(vs)
    ensures OrderedVerdicts(vs[1..])
  {
    forall i, j | 0 <= i < j < |vs[1..]| && vs[1..][i].Some? && vs[1..][j].Some?
      ensures Position(Source(vs[1..][i].value)) < Position(Source(vs[1..][j].value))
    {
      assert vs[1..][i] == vs[i + 1] && vs[1..][j] == vs[j + 1];
    }
  }

  /** Flags carried by later verdicts come from later checks than the first verdict's flag. */
  lemma LaterVerdictsLaterFlags(vs: seq<Option<Flag>>, tail: seq<Flag>)
    requires vs != [] && vs[0].Some? && OrderedVerdicts(vs)
    requires forall f :: f in tail <==> Some(f) in vs[1..]
    ensures forall g | g in tail :: Position(Source(vs[0].value)) < Position(Source(g))
  {
    forall g | g in tail
      ensures Position(Source(vs[0].value)) < Position(Source(g))
    {
      var k :| 0 <= k < |vs[1..]| && vs[1..][k] == Some(g);
      assert vs[k + 1] == Some(g);
    }
  }

  /** One flag of check position `p`, then flags of later checks in order, are in order. */
  lemma OrderedJoin(head: seq<Flag>, tail: seq<Flag>, p: nat)
    requires |head| == 1 && Position(Source(head[0])) == p
    requires InCheckOrder(tail) && (forall g | g in tail :: p < Position(Source(g)))
    ensures InCheckOrder(head + tail)
  {
    var s := head + tail;
    forall i, j | 0 <= i < j < |s|
      ensures Position(Source(s[i])) < Position(Source(s[j]))
    {
      if i == 0 {
        assert s[j] == tail[j - 1];
        assert s[j] in tail;
      } else {
        assert s[i] == tail[i - 1] && s[j] == tail[j - 1];
      }
    }
  }

  /** Check `c` stands at index `Position(c)` of `Checks`. */
  lemma PositionIndexes(c: Check)
    ensures Position(c) < |Checks| && Checks[Position(c)] == c
  {
  }

  /** The verdicts carry exactly the raised flags. */
  lemma VerdictsRaised(x: Inputs)
    ensures forall f :: Some(f) in Verdicts(x) <==> Raised(f, x)
  {
    var vs := Verdicts(x);
    forall f
      ensures Some(f) in vs <==> Raised(f, x)
    {
      if Some(f) in vs {
        var i :| 0 <= i < |vs| && vs[i] == Some(f);
        assert Decides(Checks[i], x, vs[i]);
      }
      if Raised(f, x) {
        PositionIndexes(Source(f));
        assert Decides(Checks[Position(Source(f))], x, vs[Position(Source(f))]);
      }
    }
  }

  /** The verdicts stand in check order. */
  lemma VerdictsOrdered(x: Inputs)
    ensures OrderedVerdicts(Verdicts(x))
  {
    var vs := Verdicts(x);
    assert forall i | 0 <= i < |vs| && vs[i].Some? :: Position(Source(vs[i].value)) == i;
  }

  /** A result clamped at 0 from below, as `max(0, score)`. */
  function Clamp(score: int): (r: nat)
    ensures r >= score && (r == 0 || r == score)
  {
    if score < 0 then 0 else score
  }

  /**
   * The whole rules engine: every check in order from a score of 100,
   * then the clamp. The flags are exactly the raised ones, one per check
   * at most and in check order, and the score is what their penalties
   * leave of 100, never below 0.
   */
  function Score(x: Inputs): (r: Tally)
    ensures forall f :: f in r.flags <==> Raised(f, x)
    ensures InCheckOrder(r.flags)
    ensures |r.flags| <= |Checks|
    ensures r.score == Clamp(StartScore - TotalPenalty(r.flags))
    ensures 0 <= r.score <= StartScore
  {
    var start := Tally(StartScore, []);
    var vs := Verdicts(x);
    var run := Fold(vs, start);
    FoldFlags(vs, start);
    VerdictsRaised(x);
    VerdictsOrdered(x);
    FoldOrder(vs, start);
    assert run.flags[|start.flags|..] == run.flags;
    Tally(Clamp(run.score), run.flags)
  }

  /** Three risk levels, from the final score. */
  datatype RiskLevel = LowRisk | MediumRisk | HighRisk

  /** How severe a level is: 0 for low risk, 2 for high risk. */
  function Severity(level: RiskLevel): nat {
    match level
    case LowRisk => 0
    case MediumRisk => 1
    case HighRisk => 2
  }

  const LowRiskFrom: int := 70
  const MediumRiskFrom: int := 40

  /** The level of a score: 70 and up is low risk, 40 to 69 medium, below 40 high. */
  function RiskLevelOf(score: int): (r: RiskLevel)
    ensures r == LowRisk <==> score >= LowRiskFrom
    ensures r == HighRisk <==> score < MediumRiskFrom
    ensures r == MediumRisk <==> MediumRiskFrom <= score < LowRiskFrom
  {
    if score >= LowRiskFrom then LowRisk
    else if score >= MediumRiskFrom then MediumRisk
    else HighRisk
  }

  /** A higher score never means a more severe level. */
  lemma RiskLevelMonotone(a: int, b: int)
    requires a <= b
    ensures Severity(RiskLevelOf(b)) <= Severity(RiskLevelOf(a))
  {
  }

  /** Each of the three levels is reached by some score in [0, 100]. */
  lemma RiskLevelsAllReached()
    ensures RiskLevelOf(StartScore) == LowRisk
    ensures RiskLevelOf(LowRiskFrom - 1) == MediumRisk
    ensures RiskLevelOf(MediumRiskFrom - 1) == HighRisk && RiskLevelOf(0) == HighRisk
  {
  }

  /** Flags of distinct positions in check order never repeat. */
  lemma {:induction false} InCheckOrderNoRepeats(flags: seq<Flag>)
    requires InCheckOrder(flags)
    ensures forall f :: multiset(flags)[f] <= 1
    decreases |flags|
  {
    if flags != [] {
      assert InCheckOrder(flags[1..]) by {
        forall i, j | 0 <= i < j < |flags[1..]|
          ensures Position(Source(flags[1..][i])) < Position(Source(flags[1..][j]))
        {
          assert flags[1..][i] == flags[i + 1] && flags[1..][j] == flags[j + 1];
        }
      }
      InCheckOrderNoRepeats(flags[1..]);
      assert flags == [flags[0]] + flags[1..];
      assert flags[0] !in flags[1..] by {
        forall k | 0 <= k < |flags[1..]|
          ensures flags[1..][k] != flags[0]
        {
          assert flags[1..][k] == flags[k + 1];
        }
      }
    }
  }

  /** No flag is raised twice, and no check raises two flags. */
  lemma OneFlagPerCheck(x: Inputs)
    ensures forall f :: multiset(Score(x).flags)[f] <= 1
    ensures forall i, j | 0 <= i < j < |Score(x).flags| :: Source(Score(x).flags[i]) != Source(Score(x).flags[j])
  {
    InCheckOrderNoRepeats(Score(x).flags);
  }

  /** The commit check raises one of its two flags, by commit count, never both. */
  lemma CommitFlagsExclusive(x: Inputs, m: nat, n: nat)
    ensures FewCommits(m) in Score(x).flags <==> m == x.commitCount < FewCommitsBelow
    ensures BelowAverageCommits(n) in Score(x).flags <==>
            n == x.commitCount && FewCommitsBelow <= x.commitCount < AverageCommitsBelow
    ensures !(FewCommits(m) in Score(x).flags && BelowAverageCommits(n) in Score(x).flags)
  {
  }

  /** However many marketing phrases the description holds, the flag is raised once or not at all. */
  lemma MarketingFlaggedOnce(x: Inputs)
    ensures multiset(Score(x).flags)[MarketingLanguage] ==
            if exists k :: k in MarketingTerms && Contains(x.description, k) then 1 else 0
  {
    OneFlagPerCheck(x);
    assert MarketingLanguage in Score(x).flags <==> Raised(MarketingLanguage, x);
  }

  /** The funding flag needs a README holding two or more distinct funding keywords. */
  lemma FundingNeedsReadme(x: Inputs)
    ensures FundingLanguage in Score(x).flags <==>
            x.readme.Some? && |Found(x.readme.value, FundingKeywords)| >= FundingKeywordsNeeded
  {
    assert FundingLanguage in Score(x).flags <==> Raised(FundingLanguage, x);
  }

  /** Whenever the lines-of-code flag is raised, so is the "suspiciously low" commit flag. */
  lemma LocFlagNeedsFewCommits(x: Inputs, n: nat, l: int)
    requires LocVsCommits(n, l) in Score(x).flags
    ensures FewCommits(n) in Score(x).flags
    ensures l > LocLimit && x.totalLoc == Some(l)
  {
    assert Raised(LocVsCommits(n, l), x);
    assert Raised(FewCommits(n), x);
  }

  /** A member's penalty is part of the total. */
  lemma {:induction false} PenaltyOfMember(flags: seq<Flag>, f: Flag)
    requires f in flags
    ensures Penalty(f) <= TotalPenalty(flags)
    decreases |flags|
  {
    if flags[0] != f {
      PenaltyOfMember(flags[1..], f);
    }
  }

  /** Two members at distinct places both count in the total. */
  lemma {:induction false} PenaltyOfTwoMembers(flags: seq<Flag>, i: nat, j: nat)
    requires i < j < |flags|
    ensures Penalty(flags[i]) + Penalty(flags[j]) <= TotalPenalty(flags)
    decreases |flags|
  {
    if i == 0 {
      assert flags[j] == flags[1..][j - 1];
      PenaltyOfMember(flags[1..], flags[j]);
    } else {
      assert flags[i] == flags[1..][i - 1] && flags[j] == flags[1..][j - 1];
      PenaltyOfTwoMembers(flags[1..], i - 1, j - 1);
    }
  }

  /** The lines-of-code flag always comes with the commit flag, so the score is at most 50. */
  lemma LocFlagCapsScore(x: Inputs, n: nat, l: int)
    requires LocVsCommits(n, l) in Score(x).flags
    ensures Score(x).score <= StartScore - 50
    ensures RiskLevelOf(Score(x).score) != LowRisk
  {
    var fs := Score(x).flags;
    LocFlagNeedsFewCommits(x, n, l);
    var i :| 0 <= i < |fs| && fs[i] == FewCommits(n);
    var j :| 0 <= j < |fs| && fs[j] == LocVsCommits(n, l);
    assert Position(Source(fs[j])) > Position(Source(fs[i])) ==> i < j;
    assert i < j;
    PenaltyOfTwoMembers(fs, i, j);
  }

  /** The most check `c` can take off. */
  function MaxPenalty(c: Check): nat {
    match c
    case CommitCheck => 30
    case StarCheck => 20
    case ForkCheck => 15
    case MarketingCheck => 15
    case FundingCheck => 15
    case LocCheck => 20
  }

  /** The most the checks from position `p` onwards can take off together. */
  function Budget(p: nat): nat
    decreases |Checks| - p
  {
    if p >= |Checks| then 0 else MaxPenalty(Checks[p]) + Budget(p + 1)
  }

  /** Flags in check order, all from position `p` on, take off at most `Budget(p)`. */
  lemma {:induction false} PenaltyWithinBudget(flags: seq<Flag>, p: nat)
    requires InCheckOrder(flags)
    requires forall f | f in flags :: p <= Position(Source(f))
    ensures TotalPenalty(flags) <= Budget(p)
    decreases |flags|
  {
    if flags != [] {
      var q := Position(Source(flags[0]));
      PositionIndexes(Source(flags[0]));
      assert Penalty(flags[0]) <= MaxPenalty(Checks[q]);
      assert InCheckOrder(flags[1..]) by {
        forall i, j | 0 <= i < j < |flags[1..]|
          ensures Position(Source(flags[1..][i])) < Position(Source(flags[1..][j]))
        {
          assert flags[1..][i] == flags[i + 1] && flags[1..][j] == flags[j + 1];
        }
      }
      forall g | g in flags[1..]
        ensures q + 1 <= Position(Source(g))
      {
        var k :| 0 <= k < |flags[1..]| && flags[1..][k] == g;
        assert flags[k + 1] == g;
      }
      PenaltyWithinBudget(flags[1..], q + 1);
      BudgetShrinks(p, q);
    }
  }

  /** A later start has a smaller budget, by at least the checks skipped. */
  lemma {:induction false} BudgetShrinks(p: nat, q: nat)
    requires p <= q < |Checks|
    ensures MaxPenalty(Checks[q]) + Budget(q + 1) <= Budget(p)
    decreases q - p
  {
    if p < q {
      BudgetShrinks(p + 1, q);
    }
  }

  /** All the checks together take off at most 115 points, so the score before the clamp is at least -15. */
  lemma PenaltyAtMost115(x: Inputs)
    ensures TotalPenalty(Score(x).flags) <= 115
    ensures StartScore - TotalPenalty(Score(x).flags) >= -15
  {
    PenaltyWithinBudget(Score(x).flags, 0);
    FullBudget();
  }

  /** The six checks' largest penalties add up to 115. */
  lemma FullBudget()
    ensures Budget(0) == 115
  {
  }

  /** No flags means a perfect score, and a perfect score means no flags. */
  lemma NoFlagsFullScore(x: Inputs)
    ensures Score(x).flags == [] <==> Score(x).score == StartScore
  {
    var fs := Score(x).flags;
    if fs != [] {
      PenaltyOfMember(fs, fs[0]);
    }
  }

  /** A single flag costs at most 30 points, so it never leaves the low-risk level. */
  lemma OneFlagLowRisk(x: Inputs)
    requires |Score(x).flags| <= 1
    ensures RiskLevelOf(Score(x).score) == LowRisk
  {
    var fs := Score(x).flags;
    if fs != [] {
      assert fs[1..] == [];
      assert TotalPenalty(fs) == Penalty(fs[0]) <= 30;
    }
  }

  /** A README that was not fetched scores like one with fewer than two funding keywords. */
  lemma ReadmeAbsentNeutral(x: Inputs, text: string)
    requires |Found(text, FundingKeywords)| < FundingKeywordsNeeded
    ensures Score(x.(readme := None)) == Score(x.(readme := Some(text)))
  {
    var a, b := x.(readme := None), x.(readme := Some(text));
    assert FundingVerdict(a) == None && FundingVerdict(b) == None;
    assert Verdicts(a) == Verdicts(b);
  }

  /** An uncounted code size scores like one the lines-of-code check lets through. */
  lemma LocAbsentNeutral(x: Inputs, loc: int)
    requires loc <= LocLimit || x.commitCount >= FewCommitsBelow
    ensures Score(x.(totalLoc := None)) == Score(x.(totalLoc := Some(loc)))
  {
    var a, b := x.(totalLoc := None), x.(totalLoc := Some(loc));
    assert LocVerdict(a) == None && LocVerdict(b) == None;
    assert Verdicts(a) == Verdicts(b);
  }

  /**
   * When every check fires, the flags are all six in check order, the
   * penalties come to 115 and the clamp lifts the score from -15 to 0.
   */
  lemma AllChecksFire(x: Inputs)
    requires x.commitCount < FewCommitsBelow && x.stars == 0 && x.forks == 0
    requires exists k :: k in MarketingTerms && Contains(x.description, k)
    requires x.readme.Some? && |Found(x.readme.value, FundingKeywords)| >= FundingKeywordsNeeded
    requires x.totalLoc.Some? && x.totalLoc.value > LocLimit
    ensures Score(x).flags == AllFlags(x.commitCount, x.totalLoc.value)
    ensures StartScore - TotalPenalty(Score(x).flags) == -15
    ensures Score(x).score == 0
  {
    var flags := AllFlags(x.commitCount, x.totalLoc.value);
    AllVerdictsRaise(x);
    AllFlagsCarried(x.commitCount, x.totalLoc.value);
    FoldAllRaised(Verdicts(x), Tally(StartScore, []), flags);
    AllFlagsPenalty(x.commitCount, x.totalLoc.value);
  }

  /** One flag from each check, in check order. */
  function AllFlags(n: nat, loc: int): seq<Flag> {
    [FewCommits(n), NoStars, NoForks, MarketingLanguage, FundingLanguage, LocVsCommits(n, loc)]
  }

  /** The six raised verdicts carry the flags of `AllFlags`, position by position. */
  lemma AllFlagsCarried(n: nat, loc: int)
    ensures var vs := [Some(FewCommits(n)), Some(NoStars), Some(NoForks), Some(MarketingLanguage),
                       Some(FundingLanguage), Some(LocVsCommits(n, loc))];
            |vs| == |AllFlags(n, loc)| && forall i | 0 <= i < |vs| :: vs[i] == Some(AllFlags(n, loc)[i])
  {
  }

  /** All six flags together take off 30 + 20 + 15 + 15 + 15 + 20 = 115 points. */
  lemma AllFlagsPenalty(n: nat, loc: int)
    ensures TotalPenalty(AllFlags(n, loc)) == 115
  {
    var fs := AllFlags(n, loc);
    assert TotalPenalty(fs[5..]) == 20;
    assert TotalPenalty(fs[4..]) == 15 + TotalPenalty(fs[5..]);
    assert TotalPenalty(fs[3..]) == 15 + TotalPenalty(fs[4..]);
    assert TotalPenalty(fs[2..]) == 15 + TotalPenalty(fs[3..]);
    assert TotalPenalty(fs[1..]) == 20 + TotalPenalty(fs[2..]);
    assert TotalPenalty(fs) == 30 + TotalPenalty(fs[1..]);
  }

  /** When every check's condition holds, every verdict carries its flag. */
  lemma AllVerdictsRaise(x: Inputs)
    requires x.commitCount < FewCommitsBelow && x.stars == 0 && x.forks == 0
    requires exists k :: k in MarketingTerms && Contains(x.description, k)
    requires x.readme.Some? && |Found(x.readme.value, FundingKeywords)| >= FundingKeywordsNeeded
    requires x.totalLoc.Some? && x.totalLoc.value > LocLimit
    ensures Verdicts(x) ==
            [Some(FewCommits(x.commitCount)), Some(NoStars), Some(NoForks), Some(MarketingLanguage),
             Some(FundingLanguage), Some(LocVsCommits(x.commitCount, x.totalLoc.value))]
  {
    assert MarketingVerdict(x) == Some(MarketingLanguage);
    assert FundingVerdict(x) == Some(FundingLanguage);
  }

  /** Verdicts that all carry a flag append exactly those flags. */
  lemma {:induction false} FoldAllRaised(vs: seq<Option<Flag>>, t: Tally, flags: seq<Flag>)
    requires |vs| == |flags| && forall i | 0 <= i < |vs| :: vs[i] == Some(flags[i])
    ensures Fold(vs, t).flags == t.flags + flags
    decreases |vs|
  {
    if vs == [] {
      assert t.flags + flags == t.flags;
    } else {
      var t' := Apply(vs[0], t);
      FoldAllRaised(vs[1..], t', flags[1..]);
      assert t'.flags + flags[1..] == t.flags + flags;
    }
  }
}
