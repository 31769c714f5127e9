# GitHub red-flag analyzer, modelled in Dafny

`analyze_repo` in `analyze.py` takes a GitHub URL and works in these steps:

1. It pulls the owner and repository name out of the URL with a regular-expression search.
2. It fetches the repository record, its commits, its README and its language statistics.
3. It runs five checks over that data. Each check may add one red flag, and each flag takes a fixed penalty off a score that starts at 100. The second check is really two independent tests, one for stars and one for forks, so there are six verdicts in all.
4. It clamps the score at 0 and maps it to one of three risk levels.

This project models that function as pure Dafny, in these modules:

- `Wrappers`: the `Option` type.
- `Strings`:
  - substring containment (Python's `in` on strings);
  - `str.replace` as a left-to-right, non-overlapping replace-all.
- `UrlParser`:
  - the search for `github\.com/([^/]+)/([^/]+)`, with greedy groups and the leftmost match;
  - the `.git` removal as `analyze_repo` performs it (`ParseUrl`);
  - the corrected parse (`ParseUrlFixed`);
  - lemmas pinning down the match and both removals.
- `RedFlags`: the rules engine, with these parts:
  - The input record.
  - The flags as a datatype.
  - One function per check. Each is proved to decide exactly the flags that an independent, flag-by-flag description (`Raised`) says `analyze_repo` appends.
  - The fold of the verdicts over a running tally, then the clamp and the three risk levels.
  - Lemmas about the result:
    - the flags are exactly the raised ones, at most one per check, in check order;
    - the score is `max(0, 100 - penalties)`;
    - the commit flags exclude each other;
    - the marketing flag appears at most once;
    - funding needs a README;
    - LOC implies few commits;
    - the penalties come to at most 115;
    - an absent README or LOC count is neutral;
    - the floor is reachable.
- `Analyzer`: `analyze_repo` end to end.
  - The network is a parameter `fetch: ScanTarget -> Fetched` that gives the four responses for the parsed owner and repository.
  - `Gather` builds the checks' inputs from those responses:
    - commits count only on status 200;
    - a missing star or fork count is 0, and a missing description is empty;
    - a README or languages request that raised, or did not answer 200, gives `None`;
    - texts are lower-cased in ASCII.
  - `Analyze` returns `InvalidUrl`, `FetchFailed(status)` or a report.

The repository's own documentation and its test file describe a richer scanner class, `SolanaRepoScanner`, with more checks and five risk tiers. `analyze.py` defines no such class. This model follows `analyze.py`: five checks, three levels, and a clamp at 0 only.

## Model

| member | source | states |
|---|---|---|
| Strings.Contains | analyze.py:66 | `needle in text` holds exactly when `needle` occurs at some index of `text` |
| Strings.ReplaceAll | analyze.py:20 | replacing in text without an occurrence changes nothing; a replacement no longer than the pattern never lengthens the text; no slash is introduced |
| Strings.ReplaceAllStep | analyze.py:20 | text before the first occurrence is copied, that occurrence becomes the replacement, and the replace-all resumes right after it; with the no-occurrence case of `ReplaceAll` this fixes the result on every input |
| UrlParser.Run | analyze.py:16 | a greedy `[^/]+` run: in bounds, slash-free, and stopped only by a slash or the end |
| UrlParser.GroupsUnique | analyze.py:16 | the two greedy groups of a match at a given position are determined by it |
| UrlParser.MatchAt | analyze.py:16 | the pattern anchored at `i` fails exactly when it cannot match there, and otherwise yields the greedy groups |
| UrlParser.Captures | analyze.py:16 | two maximal non-empty runs around a slash after `github.com/` are a match and its groups |
| UrlParser.FindMatch | analyze.py:16 | the search finds nothing exactly when no position from `from` on can match; otherwise it returns the leftmost matching position with its groups |
| UrlParser.ParseUrl | analyze.py:16-20 | the parse fails exactly when no position can match; on success the owner is non-empty and slash-free, and the repository name is slash-free but can be empty (`github.com/a/.git` names repository `""`) |
| UrlParser.ParseUrlTakesLeftmostGroups | analyze.py:16-20 | at the leftmost matching position, the parse returns the owner group and the segment group with every `.git` removed; the corrected parse strips only a trailing one |
| UrlParser.StripGitSuffix | analyze.py:20 | removes exactly one trailing `.git`, and leaves a name without one as it is |
| UrlParser.ParseUrlFixed | analyze.py:16-20 | the corrected parse accepts and rejects exactly the URLs the source does, with the same owner and name shape |
| UrlParser.ReplaceAllDropsTrailingGit | analyze.py:20 | appending `.git` to a segment does not change what the replacement makes of it |
| UrlParser.TrailingGitStripped | analyze.py:20 | a name free of `.git`, followed by `.git`, comes back as the name under both removals |
| UrlParser.RemovalsAgreeOnPlainNames | analyze.py:20 | on names whose only `.git` is trailing, the replace-all and the suffix strip agree |
| UrlParser.ReplaceAllTrailingExamples | analyze.py:20 | `anchor.git` becomes `anchor`, and a bare `.git` segment becomes empty |
| UrlParser.ReplaceAllLeavesGit | analyze.py:20 | the replacement is not a `.git`-free guarantee: `..gitgit` becomes `.git` |
| UrlParser.ReplaceAllDropsInnerGit | analyze.py:20 | the first `.git` of a segment is deleted, what precedes it is kept, and the removal carries on after it |
| UrlParser.FirstGitSplit | analyze.py:20 | a segment that holds `.git` splits as `a + ".git" + b` with no `.git` in `a`, so `InnerGitDeleted` covers every such segment |
| UrlParser.NoHostNoParse | analyze.py:16-18 | text without `github.com/` is rejected by both parsers |
| UrlParser.ParseUrlAfterPrefix | analyze.py:16-20 | whatever precedes `github.com/`, provided no match starts in it (`https://`, `git+ssh://`, nothing), the owner and the segment come back as written, the segment after `.git` removal |
| UrlParser.ParseUrlPlainName | analyze.py:16-20 | after a prefix in which no match starts, a dot-free repository name comes back unchanged |
| UrlParser.ParseUrlCloneName | analyze.py:16-20 | after a prefix in which no match starts, a dot-free name followed by `.git` comes back without the `.git` |
| UrlParser.ParseUrlAcceptsHttpsUrl | tests/test_scanner.py:20-25 | `https://github.com/solana-labs/solana` gives owner `solana-labs` and repository `solana` |
| UrlParser.ParseUrlAcceptsCloneUrl | tests/test_scanner.py:27-32 | `https://github.com/coral-xyz/anchor.git` gives owner `coral-xyz` and repository `anchor` |
| UrlParser.ParseUrlAcceptsBareHost | tests/test_scanner.py:147-151 | `github.com/solana-labs/solana` without a protocol gives owner `solana-labs` |
| UrlParser.ParseUrlRejectsShort | tests/test_scanner.py:137-145 | text shorter than `github.com/`, such as `""` and `not-a-url`, is rejected |
| UrlParser.ParseUrlRejectsOtherHost | tests/test_scanner.py:34-37 | `https://invalid-url.com/repo` is rejected |
| UrlParser.PagesRepositoryMangled | analyze.py:20 | as written, `https://github.com/foo/foo.github.io` names repository `foohub.io`; the corrected parse names `foo.github.io` |
| UrlParser.InnerGitDeleted | analyze.py:20 | for a segment `a + ".git" + b` split at its first `.git`, after any prefix in which no match starts: as written the `.git` is deleted and removal continues in `b`; the corrected parse keeps `a + ".git"` and strips at most a trailing `.git` of `b`, or returns `a` when `b` is empty |
| UrlParser.ParseUrlFixedStripsOnlySuffix | analyze.py:20 | the corrected parse reports the leftmost segment minus one trailing `.git`, whatever else the name holds |
| RedFlags.TotalPenaltyAppend | analyze.py:40-92 | penalties taken in two stretches add up to the penalties of the whole run |
| RedFlags.AnyContained | analyze.py:66 | `any(term in text ...)` holds exactly when some listed term occurs in the text |
| RedFlags.CountContained | analyze.py:77 | `sum(keyword in text ...)` is at most the number of keywords, and for distinct keywords it is the number of distinct keywords found |
| RedFlags.FundingCount | analyze.py:76-77 | the funding count is the number of distinct funding keywords the README contains |
| RedFlags.CommitVerdict | analyze.py:43-49 | fewer than 5 commits raises the "suspiciously low" flag, 5 to 19 the "below average" flag, and nothing else is raised |
| RedFlags.StarVerdict | analyze.py:55-57 | the no-stars flag is raised exactly when the star count is 0 |
| RedFlags.ForkVerdict | analyze.py:59-61 | the no-forks flag is raised exactly when the fork count is 0 |
| RedFlags.MarketingVerdict | analyze.py:64-68 | the marketing flag is raised exactly when some marketing phrase occurs in the description |
| RedFlags.FundingVerdict | analyze.py:71-82 | the funding flag is raised exactly when a README was fetched and holds at least two distinct funding keywords |
| RedFlags.LocVerdict | analyze.py:85-94 | the lines-of-code flag is raised exactly when the code was counted at over 1000 lines and there are fewer than 5 commits |
| RedFlags.Verdicts | analyze.py:42-94 | the verdicts come in the order the checks run, each deciding its own check |
| RedFlags.Fold | analyze.py:39-94 | running checks only appends, at most one flag per check, and takes off exactly the penalties of the flags it appends |
| RedFlags.FoldFlags | analyze.py:39-94 | the flags appended are exactly those some verdict carries |
| RedFlags.FoldOrder | analyze.py:39-94 | flags of verdicts in check order are appended in check order |
| RedFlags.VerdictsRaised | analyze.py:42-94 | a flag is among the verdicts exactly when it is raised |
| RedFlags.VerdictsOrdered | analyze.py:42-94 | the verdict at index `i` belongs to the `i`-th check |
| RedFlags.Clamp | analyze.py:97 | the clamped score is the least value that is at least 0 and at least the score, that is `max(0, score)` |
| RedFlags.Score | analyze.py:39-97 | the flags are exactly the raised ones, in check order, at most six; the score is `max(0, 100 - total penalty)`, within [0, 100] |
| RedFlags.RiskLevelOf | analyze.py:100-105 | low risk exactly from 70 up, high risk exactly below 40, medium risk exactly from 40 to 69 |
| RedFlags.RiskLevelMonotone | analyze.py:100-105 | a higher score never gives a more severe risk level |
| RedFlags.RiskLevelsAllReached | analyze.py:100-105 | 100 is low risk, 69 medium, 39 and 0 high, so all three levels are reached |
| RedFlags.InCheckOrderNoRepeats | analyze.py:42-94 | flags in strict check order contain no flag twice |
| RedFlags.OneFlagPerCheck | analyze.py:42-94 | no flag appears twice, and no two flags come from the same check |
| RedFlags.CommitFlagsExclusive | analyze.py:43-49 | each commit flag is present exactly in its branch, and the two are never both present |
| RedFlags.MarketingFlaggedOnce | analyze.py:64-68 | the marketing flag appears once if any phrase matches, however many do, and otherwise not at all |
| RedFlags.FundingNeedsReadme | analyze.py:71-82 | the funding flag is present exactly when a README was fetched with two or more distinct keywords |
| RedFlags.LocFlagNeedsFewCommits | analyze.py:44-94 | whenever the lines-of-code flag is present, so is the "suspiciously low" commit flag |
| RedFlags.PenaltyOfTwoMembers | analyze.py:40-92 | two flags at distinct places both count in the total penalty |
| RedFlags.LocFlagCapsScore | analyze.py:85-94 | with the lines-of-code flag the score is at most 50, so never low risk |
| RedFlags.PenaltyWithinBudget | analyze.py:40-92 | flags in check order from a position on take off at most what those checks can |
| RedFlags.PenaltyAtMost115 | analyze.py:40-97 | all checks together take off at most 115, so the score before the clamp is at least -15 |
| RedFlags.NoFlagsFullScore | analyze.py:39-97 | no flags exactly when the score is 100 |
| RedFlags.OneFlagLowRisk | analyze.py:39-105 | a single flag never takes the score below 70 |
| RedFlags.ReadmeAbsentNeutral | analyze.py:72-82 | a README that was not fetched scores exactly like one with fewer than two funding keywords |
| RedFlags.LocAbsentNeutral | analyze.py:85-94 | an uncounted code size scores exactly like one the lines-of-code check lets through |
| RedFlags.AllChecksFire | analyze.py:39-97 | when every check fires, the flags are all six in check order, the penalties come to 115 and the score is clamped from -15 to 0 |
| RedFlags.FoldAllRaised | analyze.py:39-94 | verdicts that all carry flags append exactly those flags |
| Analyzer.LowerChar | analyze.py:64 | capitals become the matching small letters, and all else is kept |
| Analyzer.Lower | analyze.py:64 | lower-casing keeps the length, lower-cases each character in place, leaves no capital, and changes nothing in lower-case text |
| Analyzer.LowerSlice | analyze.py:64 | lower-casing a slice gives the same slice of the lower-cased text |
| Analyzer.ContainsLowerIff | analyze.py:64-66 | a phrase occurs in the lower-cased text exactly when some slice of the raw text lower-cases to it |
| Analyzer.LowerIdempotent | analyze.py:75 | lower-casing twice is lower-casing once |
| Analyzer.LowerKeepsLowerNeedle | analyze.py:64-66 | a lower-case phrase found in a text is still found after the text is lower-cased |
| Analyzer.TermsAreLower | analyze.py:65-76 | the marketing phrases and funding keywords contain no capital letter |
| Analyzer.Sum | analyze.py:89 | the sum of non-negative byte counts is non-negative |
| Analyzer.SumAppend | analyze.py:89 | the sum over two parts is the sum of their sums |
| Analyzer.GetOr | analyze.py:52-53 | a present key gives its value and a missing one the default |
| Analyzer.Body | analyze.py:72-88 | a response body is read only when the request did not raise and answered 200 |
| Analyzer.Gather | analyze.py:33-89 | commits count only on status 200; stars and forks default to 0; the description is the lower-cased description or empty; the README is present exactly when its request answered 200, lower-cased; the code size is present exactly when the languages request answered 200, as the sum of the byte counts |
| Analyzer.ReportOf | analyze.py:39-105 | the report has exactly the raised flags in check order, the score `max(0, 100 - penalties)` in [0, 100] with its risk level, and the star, fork and commit counts the checks saw |
| Analyzer.Analyze | analyze.py:12-134 | invalid URL exactly when the parse fails; fetch failure exactly when the repository request does not answer 200, with its status; otherwise the report has exactly the raised flags in check order, the score `max(0, 100 - penalties)` in [0, 100], the matching risk level, and the star, fork and commit counts the checks used |
| Analyzer.InvalidUrlNeedsNoFetch | analyze.py:16-18 | an invalid URL is answered the same whatever the network would say |
| Analyzer.AnalyzeReadsOnlyTarget | analyze.py:25-89 | only the responses for the parsed owner and repository affect the outcome |
| Analyzer.FailedCommitsLookSuspicious | analyze.py:36-46 | a commits request that does not answer 200 counts as 0 commits and raises the "suspiciously low" flag |
| Analyzer.FailedReadmeRaisesNoFundingFlag | analyze.py:72-82 | a README request that raised or did not answer 200 raises no funding flag |
| Analyzer.MarketingIgnoresCase | analyze.py:64-66 | a marketing phrase in any letter case in the raw description raises the marketing flag: a slice that lower-cases to the phrase is enough |

## Left out

- HTTP and JSON: requests, timeouts and JSON decoding are not modelled. The four responses come in through the `fetch` parameter, already decoded, and the request URLs are not formed.
- Exceptions from the repository and commits requests, or from decoding their JSON, propagate out of `analyze_repo`. They are not modelled. Only the README and languages requests swallow exceptions; that case is `None` in `Fetched`.
- The crash on a `null` description: `repo_data.get("description", "").lower()` raises when GitHub sends `null`. The model's description field is either a string or missing.
- A `null` star or fork count: it would compare unequal to 0. The model's counts are either an integer or missing (then 0).
- Non-integer values in the languages object are not modelled; the code size is the sum of integers.
- Unicode case mapping: `Lower` maps ASCII capitals only.
- Console output and the command-line entry point are not modelled, including the metadata lines, the `created_at[:10]` slice and the thousands separator in the LOC message.
- Flags are a datatype, not their message text. The risk levels are an enumeration, without their emoji labels.
- Commit pagination: the commit count is the number of entries in the one page fetched.
- The `SolanaRepoScanner` class is not part of this model, and neither are the scan tests of tests/test_scanner.py that use it. Only its URL-parsing expectations are stated, against `ParseUrl`. Its tier expectations do not follow `analyze.py`.
- Analyzer.Analyze: uses the corrected `ParseUrlFixed` rather than the `.git` removal as written (see Findings); for segments whose only `.git` is a trailing one, both agree (`UrlParser.RemovalsAgreeOnPlainNames`).

## Findings

| source | as written | input that shows it | evidently intended | confidence | as-written member | corrected member |
|---|---|---|---|---|---|---|
| analyze.py:20 | `match.group(2).replace(".git", "")` deletes every `.git` in the repository segment | `https://github.com/foo/foo.github.io` asks the API for repository `foohub.io` | strip only a trailing `.git` suffix | not executed | UrlParser.PagesRepositoryMangled | UrlParser.ParseUrlFixedStripsOnlySuffix |

`UrlParser.ParseUrl` models the code as written; `UrlParser.PagesRepositoryMangled` and `UrlParser.InnerGitDeleted` exhibit the discrepancy. `UrlParser.ParseUrlFixed` is the corrected definition, and `Analyzer.Analyze` uses it.
