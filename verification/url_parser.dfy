/**
 * The GitHub URL parser of `analyze_repo`: a leftmost search for the regular
 * expression `github\.com/([^/]+)/([^/]+)`, whose first group is the owner and
 * whose second group, with `.git` removed, is the repository name.
 */
module UrlParser {
  import opened Wrappers
  import opened Strings

  /** The literal text the pattern starts with (the escaped dot matches only a dot). */
  const Host: string := "github.com/"

  /** The text `analyze_repo` removes from the repository segment. */
  const GitSuffix: string := ".git"

  /** The owner/repository pair a URL names. */
  datatype ScanTarget = ScanTarget(owner: string, repo: string)

  /** A match of the pattern: where it starts and what its two groups captured. */
  datatype Match = Match(start: nat, owner: string, segment: string)

  /**
   * The pattern can match starting at index `i`: `Host`, then a non-empty run
   * of non-slash characters, a slash, and at least one non-slash character.
   */
  ghost predicate MatchableAt(s: string, i: int) {
    && 0 <= i && i + |Host| <= |s| && s[i..i + |Host|] == Host
    && exists j :: OwnerEndsAt(s, i, j)
  }

  /**
   * For a match starting at `i`, the slash at `j` closes a non-empty owner
   * run that starts right after `Host`, and a non-slash character follows it.
   */
  ghost predicate OwnerEndsAt(s: string, i: int, j: int) {
    var o := i + |Host|;
    0 <= o < j < |s| - 1 && s[j] == '/' && s[j + 1] != '/' && NoSlash(s[o..j])
  }

  /**
   * `owner` and `segment` are what the greedy groups capture for a match at
   * `i`: each is a non-empty slash-free run, the owner is followed by a slash,
   * and the segment runs to the end of the text or up to the next slash.
   */
  ghost predicate Groups(s: string, i: int, owner: string, segment: string) {
    var o := i + |Host|;
    var sep := o + |owner|;
    var end := sep + 1 + |segment|;
    && 0 <= i && end <= |s|
    && s[i..o] == Host
    && s[o..sep] == owner
    && s[sep] == '/'
    && s[sep + 1..end] == segment
    && |owner| > 0 && |segment| > 0
    && NoSlash(owner) && NoSlash(segment)
    && (end == |s| || s[end] == '/')
  }

  /** Length of the longest run of non-slash characters starting at `i`. */
  function Run(s: string, i: nat): (n: nat)
    requires i <= |s|
    ensures i + n <= |s|
    ensures NoSlash(s[i..i + n])
    ensures i + n == |s| || s[i + n] == '/'
    decreases |s| - i
  {
    if i == |s| || s[i] == '/' then
      0
    else
      var n := Run(s, i + 1);
      assert s[i..i + 1 + n] == [s[i]] + s[i + 1..i + 1 + n];
      1 + n
  }

  /** The greedy groups at `i` are unique. */
  lemma GroupsUnique(s: string, i: int, o1: string, g1: string, o2: string, g2: string)
    requires Groups(s, i, o1, g1) && Groups(s, i, o2, g2)
    ensures o1 == o2 && g1 == g2
  {
    var o := i + |Host|;
    if |o1| < |o2| {
      assert false;
    } else if |o2| < |o1| {
      assert false;
    }
    var b := o + |o1| + 1;
    if |g1| < |g2| {
      assert false;
    } else if |g2| < |g1| {
      assert false;
    }
  }

  /** Without a slash-free run ended by a slash after `Host`, nothing matches at `i`. */
  lemma NoOwnerNoMatch(s: string, i: nat, n: nat)
    requires i + |Host| + n <= |s| && NoSlash(s[i + |Host|..i + |Host| + n])
    requires n == 0 || i + |Host| + n == |s|
    requires n == 0 ==> i + |Host| == |s| || s[i + |Host|] == '/'
    ensures !MatchableAt(s, i)
  {
    var o := i + |Host|;
    forall j ensures !OwnerEndsAt(s, i, j) {
      if n == 0 && o < j <= |s| {
        assert s[o..j][0] == s[o];
      } else if o < j < o + n {
        assert s[o..o + n][j - o] == s[j];
      }
    }
  }

  /** If the owner run is followed by a slash and then by a slash or the end, nothing matches at `i`. */
  lemma NoSegmentNoMatch(s: string, i: nat, n: nat)
    requires 0 < n && i + |Host| + n < |s| && NoSlash(s[i + |Host|..i + |Host| + n])
    requires s[i + |Host| + n] == '/'
    requires i + |Host| + n + 1 == |s| || s[i + |Host| + n + 1] == '/'
    ensures !MatchableAt(s, i)
  {
    var o := i + |Host|;
    var sep := o + n;
    forall j ensures !OwnerEndsAt(s, i, j) {
      if o < j < sep {
        assert s[o..sep][j - o] == s[j];
      } else if sep < j <= |s| {
        assert s[o..j][sep - o] == s[sep];
      }
    }
  }

  /** Laying out `Host`, owner, slash and segment captures that owner and segment. */
  lemma LayoutGroups(prefix: string, owner: string, segment: string, rest: string)
    requires |owner| > 0 && |segment| > 0 && NoSlash(owner) && NoSlash(segment)
    requires rest == [] || rest[0] == '/'
    ensures Groups(prefix + Host + owner + "/" + segment + rest, |prefix|, owner, segment)
  {
    var s := prefix + Host + owner + "/" + segment + rest;
    var o := |prefix| + |Host|;
    var sep := o + |owner|;
    assert s[|prefix|..o] == Host;
    assert s[o..sep] == owner;
    assert s[sep + 1..sep + 1 + |segment|] == segment;
  }

  /** Captured groups witness that the pattern matches at `i`. */
  lemma GroupsMatchable(s: string, i: int, owner: string, segment: string)
    requires Groups(s, i, owner, segment)
    ensures MatchableAt(s, i)
  {
    var o := i + |Host|;
    var sep := o + |owner|;
    assert s[sep + 1] == segment[0];
    assert OwnerEndsAt(s, i, sep);
  }

  /** The match the pattern makes when anchored at `i`, if any. */
  function MatchAt(s: string, i: nat): (r: Option<(string, string)>)
    ensures r.None? <==> !MatchableAt(s, i)
    ensures r.Some? ==> Groups(s, i, r.value.0, r.value.1)
  {
    var o := i + |Host|;
    if o > |s| || s[i..o] != Host then
      None
    else
      var n1 := Run(s, o);
      var sep := o + n1;
      if n1 == 0 || sep == |s| then
        NoOwnerNoMatch(s, i, n1);
        None
      else
        var n2 := Run(s, sep + 1);
        if n2 == 0 then
          NoSegmentNoMatch(s, i, n1);
          None
        else
          Some(Captures(s, i, n1, n2))
  }

  /** Two maximal non-empty runs around a slash after `Host`: the groups of a match at `i`. */
  function Captures(s: string, i: nat, n1: nat, n2: nat): (r: (string, string))
    requires i + |Host| <= |s| && s[i..i + |Host|] == Host
    requires 0 < n1 && 0 < n2
    requires n1 == Run(s, i + |Host|) && i + |Host| + n1 < |s|
    requires n2 == Run(s, i + |Host| + n1 + 1)
    ensures Groups(s, i, r.0, r.1)
    ensures MatchableAt(s, i)
  {
    var o := i + |Host|;
    var sep := o + n1;
    assert OwnerEndsAt(s, i, sep);
    (s[o..sep], s[sep + 1..sep + 1 + n2])
  }

  /**
   * Leftmost match starting at or after `from`, as `re.search` finds it:
   * positions are tried left to right and the first that matches wins.
   */
  function FindMatch(s: string, from: nat): (r: Option<Match>)
    ensures r.None? <==> forall i | from <= i <= |s| :: !MatchableAt(s, i)
    ensures r.Some? ==> from <= r.value.start && MatchableAt(s, r.value.start)
    ensures r.Some? ==> Groups(s, r.value.start, r.value.owner, r.value.segment)
    ensures r.Some? ==> forall i | from <= i < r.value.start :: !MatchableAt(s, i)
    decreases |s| - from
  {
    if from + |Host| > |s| then
      None
    else
      match MatchAt(s, from)
      case Some((owner, segment)) => Some(Match(from, owner, segment))
      case None => FindMatch(s, from + 1)
  }

  /**
   * The parse as `analyze_repo` performs it: the owner is the first group and
   * the repository is the second group with every `.git` removed.
   */
  function ParseUrl(s: string): (r: Option<ScanTarget>)
    ensures r.None? <==> forall i | 0 <= i <= |s| :: !MatchableAt(s, i)
    ensures r.Some? ==> |r.value.owner| > 0 && NoSlash(r.value.owner) && NoSlash(r.value.repo)
  {
    match FindMatch(s, 0)
    case None => None
    case Some(m) => Some(ScanTarget(m.owner, ReplaceAll(m.segment, GitSuffix, "")))
  }

  /** `t` ends with `.git`. */
  predicate HasGitSuffix(t: string) {
    |t| >= |GitSuffix| && t[|t| - |GitSuffix|..] == GitSuffix
  }

  /** Removes one trailing `.git`, and nothing else. */
  function StripGitSuffix(t: string): (r: string)
    ensures HasGitSuffix(t) ==> r + GitSuffix == t
    ensures !HasGitSuffix(t) ==> r == t
  {
    if HasGitSuffix(t) then t[..|t| - |GitSuffix|] else t
  }

  /**
   * The parse as evidently intended: identical to `ParseUrl` except that
   * only a trailing `.git` is removed from the repository segment.
   */
  function ParseUrlFixed(s: string): (r: Option<ScanTarget>)
    ensures r.None? <==> forall i | 0 <= i <= |s| :: !MatchableAt(s, i)
    ensures r.Some? ==> |r.value.owner| > 0 && NoSlash(r.value.owner) && NoSlash(r.value.repo)
  {
    match FindMatch(s, 0)
    case None => None
    case Some(m) => Some(ScanTarget(m.owner, StripGitSuffix(m.segment)))
  }

  /**
   * Both parsers return the groups of the leftmost match: whatever position
   * the pattern first matches at, its owner group is the owner and its
   * segment group, after `.git` removal, is the repository.
   */
  lemma ParseUrlTakesLeftmostGroups(s: string, i: nat, owner: string, segment: string)
    requires forall k | 0 <= k < i :: !MatchableAt(s, k)
    requires Groups(s, i, owner, segment)
    ensures ParseUrl(s) == Some(ScanTarget(owner, ReplaceAll(segment, GitSuffix, "")))
    ensures ParseUrlFixed(s) == Some(ScanTarget(owner, StripGitSuffix(segment)))
  {
    GroupsMatchable(s, i, owner, segment);
    var m := FindMatch(s, 0);
    assert m.Some?;
    assert m.value.start == i;
    GroupsUnique(s, i, owner, segment, m.value.owner, m.value.segment);
  }

  /** A `.git` at the end of a segment is removed by the replacement. */
  lemma {:induction false} ReplaceAllDropsTrailingGit(t: string)
    ensures ReplaceAll(t + GitSuffix, GitSuffix, "") == ReplaceAll(t, GitSuffix, "")
    decreases |t|
  {
    var g := GitSuffix;
    var tg := t + g;
    if |t| == 0 {
      assert tg == g + "";
      LeadingGitDropped("");
    } else if |t| >= |g| && t[..|g|] == g {
      assert tg == g + (t[|g|..] + g);
      LeadingGitDropped(t[|g|..] + g);
      ReplaceAllDropsTrailingGit(t[|g|..]);
      assert t == g + t[|g|..];
      LeadingGitDropped(t[|g|..]);
    } else {
      NoGitAcrossEnd(t);
      SkipNonMatch(tg);
      assert tg[1..] == t[1..] + g;
      ReplaceAllDropsTrailingGit(t[1..]);
      SkipNonMatch(t);
    }
  }

  /** `.git` cannot start inside `t` and end in an appended `.git` unless it starts `t`. */
  lemma NoGitAcrossEnd(t: string)
    requires |t| > 0 && !(|t| >= |GitSuffix| && t[..|GitSuffix|] == GitSuffix)
    ensures !((t + GitSuffix)[..|GitSuffix|] == GitSuffix)
  {
    var tg := t + GitSuffix;
    if |t| >= |GitSuffix| {
      assert tg[..|GitSuffix|] == t[..|GitSuffix|];
    } else if |t| == 1 {
      assert tg[..|GitSuffix|][1] == '.';
    } else if |t| == 2 {
      assert tg[..|GitSuffix|][2] == '.';
    } else {
      assert tg[..|GitSuffix|][3] == '.';
    }
  }

  /** A segment whose only `.git` is a trailing one loses exactly that suffix. */
  lemma TrailingGitStripped(name: string)
    requires !Contains(name, GitSuffix)
    ensures ReplaceAll(name + GitSuffix, GitSuffix, "") == name
    ensures StripGitSuffix(name + GitSuffix) == name
  {
    ReplaceAllDropsTrailingGit(name);
    assert (name + GitSuffix)[..|name|] == name;
  }

  /**
   * On a segment whose only `.git` is a trailing one, `analyze_repo`'s
   * replacement and the intended suffix strip agree.
   */
  lemma RemovalsAgreeOnPlainNames(name: string)
    requires !Contains(name, GitSuffix)
    ensures ReplaceAll(name, GitSuffix, "") == StripGitSuffix(name) == name
    ensures ReplaceAll(name + GitSuffix, GitSuffix, "") == StripGitSuffix(name + GitSuffix) == name
  {
    TrailingGitStripped(name);
    NoGitNoSuffix(name);
  }

  /** A name free of `.git` does not end with it. */
  lemma NoGitNoSuffix(name: string)
    requires !Contains(name, GitSuffix)
    ensures !HasGitSuffix(name)
  {
    if HasGitSuffix(name) {
      assert OccursAt(name, GitSuffix, |name| - |GitSuffix|);
    }
  }

  /** One step of the replacement past a position where `.git` does not start. */
  lemma SkipNonMatch(t: string)
    requires |t| > 0 && !(|t| >= |GitSuffix| && t[..|GitSuffix|] == GitSuffix)
    ensures ReplaceAll(t, GitSuffix, "") == [t[0]] + ReplaceAll(t[1..], GitSuffix, "")
  {
    if |t| < |GitSuffix| {
      assert ReplaceAll(t[1..], GitSuffix, "") == t[1..];
    }
  }

  /** One step of the replacement past a character that cannot start `.git`. */
  lemma SkipNonDot(t: string)
    requires |t| > 0 && t[0] != '.'
    ensures ReplaceAll(t, GitSuffix, "") == [t[0]] + ReplaceAll(t[1..], GitSuffix, "")
  {
    if |t| >= |GitSuffix| {
      assert t[..|GitSuffix|][0] != GitSuffix[0];
    }
    SkipNonMatch(t);
  }

  /** Text without a dot holds no `.git` and passes through the replacement unchanged. */
  lemma {:induction false} DotFreePrefixKept(a: string, b: string)
    requires '.' !in a
    ensures ReplaceAll(a + b, GitSuffix, "") == a + ReplaceAll(b, GitSuffix, "")
    decreases |a|
  {
    if |a| > 0 {
      var ab := a + b;
      assert ab[1..] == a[1..] + b;
      SkipNonDot(ab);
      DotFreePrefixKept(a[1..], b);
      assert a == [a[0]] + a[1..];
    } else {
      assert a + b == b;
    }
  }

  /** Text without a dot is left as it is. */
  lemma DotFreeKept(t: string)
    requires '.' !in t
    ensures ReplaceAll(t, GitSuffix, "") == t
  {
    DotFreePrefixKept(t, "");
    assert t + "" == t;
  }

  /** A leading `.git` is deleted and scanning resumes right after it. */
  lemma LeadingGitDropped(b: string)
    ensures ReplaceAll(GitSuffix + b, GitSuffix, "") == ReplaceAll(b, GitSuffix, "")
  {
    assert (GitSuffix + b)[..|GitSuffix|] == GitSuffix;
    assert (GitSuffix + b)[|GitSuffix|..] == b;
  }

  /** A trailing `.git` goes, as does a segment that is nothing but `.git`. */
  lemma ReplaceAllTrailingExamples()
    ensures ReplaceAll("anchor.git", GitSuffix, "") == "anchor"
    ensures ReplaceAll(".git", GitSuffix, "") == ""
  {
    DotFreePrefixKept("anchor", ".git");
    LeadingGitDropped("");
    assert "anchor.git" == "anchor" + ".git";
    assert ".git" == GitSuffix + "";
  }

  /** Removal is not a suffix strip: a `.git` can survive it. */
  lemma ReplaceAllLeavesGit()
    ensures ReplaceAll("..gitgit", GitSuffix, "") == ".git"
  {
    var t := "..gitgit";
    assert t[..|GitSuffix|][1] != GitSuffix[1];
    SkipNonMatch(t);
    assert t[1..] == GitSuffix + "git";
    LeadingGitDropped("git");
  }

  /**
   * The first `.git` of a segment goes without a trace: what precedes it is
   * kept and the replacement carries on with what follows it.
   */
  lemma ReplaceAllDropsInnerGit(a: string, b: string)
    requires !Contains(a, GitSuffix)
    ensures ReplaceAll(a + GitSuffix + b, GitSuffix, "") == a + ReplaceAll(b, GitSuffix, "")
  {
    NoGitStartsBefore(a, b);
    ReplaceAllStep(a, GitSuffix, "", b);
    assert a + "" == a;
  }

  /**
   * `.git` does not overlap itself, so in `a + ".git" + b` no occurrence
   * starts inside a part `a` that holds none.
   */
  lemma NoGitStartsBefore(a: string, b: string)
    requires !Contains(a, GitSuffix)
    ensures forall i | 0 <= i < |a| :: !OccursAt(a + GitSuffix + b, GitSuffix, i)
  {
    forall i | 0 <= i < |a| ensures !OccursAt(a + GitSuffix + b, GitSuffix, i) {
      if i + |GitSuffix| <= |a| {
        NoGitInside(a, b, i);
      } else {
        NoGitAcross(a, b, i);
      }
    }
  }

  /** An occurrence lying wholly inside `a` would be one of `a`. */
  lemma NoGitInside(a: string, b: string, i: nat)
    requires !Contains(a, GitSuffix) && i + |GitSuffix| <= |a|
    ensures !OccursAt(a + GitSuffix + b, GitSuffix, i)
  {
    var t := a + GitSuffix + b;
    assert t[i..i + |GitSuffix|] == a[i..i + |GitSuffix|];
    assert !OccursAt(a, GitSuffix, i);
  }

  /** An occurrence starting in `a` and reaching past it would need a second dot. */
  lemma NoGitAcross(a: string, b: string, i: nat)
    requires i < |a| < i + |GitSuffix|
    ensures !OccursAt(a + GitSuffix + b, GitSuffix, i)
  {
    var t := a + GitSuffix + b;
    assert t[|a|] == '.';
    assert t[i..i + |GitSuffix|][|a| - i] == t[|a|];
  }

  /** A segment holding `.git` splits at its first one. */
  lemma {:induction false} FirstGitSplit(t: string) returns (a: string, b: string)
    requires Contains(t, GitSuffix)
    ensures t == a + GitSuffix + b && !Contains(a, GitSuffix)
    decreases |t|
  {
    if t[..|GitSuffix|] == GitSuffix {
      a, b := "", t[|GitSuffix|..];
      assert t == t[..|GitSuffix|] + t[|GitSuffix|..];
    } else {
      GitInTail(t);
      var a', b' := FirstGitSplit(t[1..]);
      a, b := [t[0]] + a', b';
      ConsSplit(t, a', b');
      ConsKeepsNoGit(t[0], a');
    }
  }

  /** Putting the first character back in front of a split of the tail. */
  lemma ConsSplit(t: string, a: string, b: string)
    requires |t| > 0 && t[1..] == a + GitSuffix + b
    ensures t == [t[0]] + a + GitSuffix + b
    ensures |GitSuffix| <= |[t[0]] + a| ==> ([t[0]] + a)[..|GitSuffix|] == t[..|GitSuffix|]
  {
    assert t == [t[0]] + t[1..];
  }

  /** A `.git` that does not start the text lies in its tail. */
  lemma GitInTail(t: string)
    requires Contains(t, GitSuffix) && t[..|GitSuffix|] != GitSuffix
    ensures Contains(t[1..], GitSuffix)
  {
    var i :| OccursAt(t, GitSuffix, i);
    assert i != 0;
    assert t[1..][i - 1..i - 1 + |GitSuffix|] == t[i..i + |GitSuffix|];
    assert OccursAt(t[1..], GitSuffix, i - 1);
  }

  /** One character in front of `.git`-free text adds a `.git` only by starting one. */
  lemma ConsKeepsNoGit(c: char, a: string)
    requires !Contains(a, GitSuffix)
    requires !(|GitSuffix| <= |[c] + a| && ([c] + a)[..|GitSuffix|] == GitSuffix)
    ensures !Contains([c] + a, GitSuffix)
  {
    var ca := [c] + a;
    forall j ensures !OccursAt(ca, GitSuffix, j) {
      if 0 < j && j + |GitSuffix| <= |ca| {
        assert ca[j..j + |GitSuffix|] == a[j - 1..j - 1 + |GitSuffix|];
        assert !OccursAt(a, GitSuffix, j - 1);
      }
    }
  }

  /** Text without `github.com/` anywhere is rejected before anything else happens. */
  lemma NoHostNoParse(s: string)
    requires !Contains(s, Host)
    ensures ParseUrl(s).None? && ParseUrlFixed(s).None?
  {
    forall i | 0 <= i <= |s| ensures !MatchableAt(s, i) {
      if MatchableAt(s, i) {
        assert OccursAt(s, Host, i);
      }
    }
  }

  /** Text with no letter `g` cannot contain `github.com/`. */
  lemma NoLetterGNoHost(s: string)
    requires 'g' !in s
    ensures !Contains(s, Host)
  {
    forall i | 0 <= i < |s| ensures !OccursAt(s, Host, i) {
      assert s[i] in s;
    }
  }

  /**
   * Whatever stands before `github.com/` (a protocol, `www.`, `git+ssh://`,
   * nothing) is irrelevant as long as no earlier match starts in it.
   */
  lemma ParseUrlAfterPrefix(s: string, prefix: string, owner: string, segment: string)
    requires s == prefix + Host + owner + "/" + segment
    requires forall k | 0 <= k < |prefix| :: !MatchableAt(s, k)
    requires |owner| > 0 && |segment| > 0 && NoSlash(owner) && NoSlash(segment)
    ensures ParseUrl(s) == Some(ScanTarget(owner, ReplaceAll(segment, GitSuffix, "")))
    ensures ParseUrlFixed(s) == Some(ScanTarget(owner, StripGitSuffix(segment)))
  {
    LayoutGroupsAtEnd(prefix, owner, segment);
    ParseUrlTakesLeftmostGroups(s, |prefix|, owner, segment);
  }

  /** `LayoutGroups` for a segment that runs to the end of the text. */
  lemma LayoutGroupsAtEnd(prefix: string, owner: string, segment: string)
    requires |owner| > 0 && |segment| > 0 && NoSlash(owner) && NoSlash(segment)
    ensures Groups(prefix + Host + owner + "/" + segment, |prefix|, owner, segment)
  {
    assert prefix + Host + owner + "/" + segment == prefix + Host + owner + "/" + segment + "";
    LayoutGroups(prefix, owner, segment, "");
  }

  /** A protocol or other leading part without a `g` starts no match. */
  lemma NoMatchBeforeHost(s: string, prefix: string, owner: string, segment: string)
    requires s == prefix + Host + owner + "/" + segment
    requires 'g' !in prefix
    ensures forall k | 0 <= k < |prefix| :: !MatchableAt(s, k)
  {
    NoMatchInPrefix(prefix, Host + owner + "/" + segment);
    assert s == prefix + (Host + owner + "/" + segment);
  }

  /** No match starts inside a leading part that holds no `g`. */
  lemma NoMatchInPrefix(prefix: string, rest: string)
    requires 'g' !in prefix
    ensures forall k | 0 <= k < |prefix| :: !MatchableAt(prefix + rest, k)
  {
    assert (prefix + rest)[..|prefix|] == prefix;
    NoHostBefore(prefix + rest, |prefix|);
  }

  /** A dot-free repository name comes back as it is. */
  lemma ParseUrlPlainName(url: string, prefix: string, owner: string, name: string)
    requires url == prefix + Host + owner + "/" + name
    requires forall k | 0 <= k < |prefix| :: !MatchableAt(url, k)
    requires '.' !in name
    requires |owner| > 0 && |name| > 0 && NoSlash(owner) && NoSlash(name)
    ensures ParseUrl(url) == Some(ScanTarget(owner, name))
  {
    ParseUrlAfterPrefix(url, prefix, owner, name);
    DotFreeKept(name);
  }

  /** A dot-free repository name followed by `.git` comes back without the `.git`. */
  lemma ParseUrlCloneName(url: string, prefix: string, owner: string, name: string)
    requires url == prefix + Host + owner + "/" + (name + GitSuffix)
    requires forall k | 0 <= k < |prefix| :: !MatchableAt(url, k)
    requires '.' !in name
    requires |owner| > 0 && NoSlash(owner) && NoSlash(name)
    ensures ParseUrl(url) == Some(ScanTarget(owner, name))
  {
    CloneSegment(name);
    ParseUrlAfterPrefix(url, prefix, owner, name + GitSuffix);
  }

  /** What the replacement makes of a dot-free name followed by `.git`. */
  lemma CloneSegment(name: string)
    requires '.' !in name && NoSlash(name)
    ensures NoSlash(name + GitSuffix)
    ensures ReplaceAll(name + GitSuffix, GitSuffix, "") == name
  {
    forall k | 0 <= k < |name + GitSuffix| ensures (name + GitSuffix)[k] != '/' {
      if k < |name| {
        assert (name + GitSuffix)[k] == name[k];
      }
    }
    forall i | 0 <= i < |name| ensures !OccursAt(name, GitSuffix, i) {
      assert name[i] in name;
    }
    TrailingGitStripped(name);
  }

  /** `https://github.com/solana-labs/solana` parses as the repository's tests expect. */
  lemma ParseUrlAcceptsHttpsUrl(url: string)
    requires url == "https://" + "github.com/" + "solana-labs" + "/" + "solana"
    ensures ParseUrl(url) == Some(ScanTarget("solana-labs", "solana"))
  {
    NoMatchBeforeHost(url, "https://", "solana-labs", "solana");
    ParseUrlPlainName(url, "https://", "solana-labs", "solana");
  }

  /** `https://github.com/coral-xyz/anchor.git` loses its `.git`, as the repository's tests expect. */
  lemma ParseUrlAcceptsCloneUrl(url: string)
    requires url == "https://" + "github.com/" + "coral-xyz" + "/" + ("anchor" + ".git")
    ensures ParseUrl(url) == Some(ScanTarget("coral-xyz", "anchor"))
  {
    NoMatchBeforeHost(url, "https://", "coral-xyz", "anchor" + ".git");
    ParseUrlCloneName(url, "https://", "coral-xyz", "anchor");
  }

  /** `github.com/solana-labs/solana`, without a protocol, parses as the repository's tests expect. */
  lemma ParseUrlAcceptsBareHost(url: string)
    requires url == "github.com/" + "solana-labs" + "/" + "solana"
    ensures ParseUrl(url) == Some(ScanTarget("solana-labs", "solana"))
  {
    assert url == "" + Host + "solana-labs" + "/" + "solana";
    ParseUrlPlainName(url, "", "solana-labs", "solana");
  }

  /** Text shorter than `github.com/` is rejected, as the repository's tests expect for `""` and `not-a-url`. */
  lemma ParseUrlRejectsShort(url: string)
    requires |url| < |Host|
    ensures ParseUrl(url).None?
  {
  }

  /** A non-GitHub URL is rejected, as the repository's tests expect. */
  lemma ParseUrlRejectsOtherHost(url: string)
    requires url == "https://invalid-url.com/repo"
    ensures ParseUrl(url).None?
  {
    NoLetterGNoHost(url);
    NoHostNoParse(url);
  }

  /** No match can start inside a prefix of `s` that holds no `g`. */
  lemma NoHostBefore(s: string, n: nat)
    requires n <= |s| && 'g' !in s[..n]
    ensures forall k | 0 <= k < n :: !MatchableAt(s, k)
  {
    forall k | 0 <= k < n ensures !MatchableAt(s, k) {
      assert s[..n][k] == s[k];
      if k + |Host| <= |s| {
        assert s[k..k + |Host|][0] == s[k];
      }
    }
  }

  /**
   * For a GitHub Pages repository `analyze_repo` asks for the wrong name:
   * every `.git` goes, so `foo.github.io` becomes `foohub.io`, while the
   * corrected parse keeps the name intact.
   */
  lemma PagesRepositoryMangled(url: string)
    requires url == "https://" + "github.com/" + "foo" + "/" + ("foo" + ".git" + "hub.io")
    ensures ParseUrl(url) == Some(ScanTarget("foo", "foo" + "hub.io"))
    ensures ParseUrlFixed(url) == Some(ScanTarget("foo", "foo" + ".git" + "hub.io"))
  {
    assert !Contains("hub.io", GitSuffix) by {
      forall i ensures !OccursAt("hub.io", GitSuffix, i) {
        if 0 <= i && i + 4 <= 6 {
          assert "hub.io"[i..i + 4][3] != 't';
        }
      }
    }
    NoGitNoSuffix("hub.io");
    NoMatchBeforeHost(url, "https://", "foo", "foo" + ".git" + "hub.io");
    InnerGitDeleted(url, "https://", "foo", "foo", "hub.io");
  }

  /**
   * A `.git` inside the repository segment, `a` being everything before the
   * first one: `analyze_repo` deletes it and carries on deleting in `b`,
   * while the corrected parse keeps the segment whole but for one trailing
   * `.git`.
   */
  lemma InnerGitDeleted(url: string, prefix: string, owner: string, a: string, b: string)
    requires url == prefix + Host + owner + "/" + (a + GitSuffix + b)
    requires forall k | 0 <= k < |prefix| :: !MatchableAt(url, k)
    requires !Contains(a, GitSuffix)
    requires |owner| > 0 && NoSlash(owner) && NoSlash(a) && NoSlash(b)
    ensures ParseUrl(url) == Some(ScanTarget(owner, a + ReplaceAll(b, GitSuffix, "")))
    ensures |b| > 0 ==> ParseUrlFixed(url) == Some(ScanTarget(owner, a + GitSuffix + StripGitSuffix(b)))
    ensures |b| == 0 ==> ParseUrlFixed(url) == Some(ScanTarget(owner, a))
  {
    InnerGitSegment(a, b);
    ParseUrlAfterPrefix(url, prefix, owner, a + GitSuffix + b);
  }

  /** What the two removals make of a segment with a `.git` inside. */
  lemma InnerGitSegment(a: string, b: string)
    requires !Contains(a, GitSuffix) && NoSlash(a) && NoSlash(b)
    ensures NoSlash(a + GitSuffix + b)
    ensures ReplaceAll(a + GitSuffix + b, GitSuffix, "") == a + ReplaceAll(b, GitSuffix, "")
    ensures |b| > 0 ==> StripGitSuffix(a + GitSuffix + b) == a + GitSuffix + StripGitSuffix(b)
    ensures |b| == 0 ==> StripGitSuffix(a + GitSuffix + b) == a
  {
    InnerGitNoSlash(a, b);
    ReplaceAllDropsInnerGit(a, b);
    InnerGitStrip(a, b);
  }

  /** The suffix strip only ever looks at the end of the segment. */
  lemma InnerGitStrip(a: string, b: string)
    ensures |b| > 0 ==> StripGitSuffix(a + GitSuffix + b) == a + GitSuffix + StripGitSuffix(b)
    ensures |b| == 0 ==> StripGitSuffix(a + GitSuffix + b) == a
  {
    var t := a + GitSuffix + b;
    var n := |t|;
    if |b| == 0 {
      assert t == a + GitSuffix;
      assert t[n - |GitSuffix|..] == GitSuffix;
      assert t[..n - |GitSuffix|] == a;
    } else if HasGitSuffix(b) {
      assert t[n - |GitSuffix|..] == b[|b| - |GitSuffix|..];
      assert t[..n - |GitSuffix|] == a + GitSuffix + b[..|b| - |GitSuffix|];
    } else {
      InnerGitNotSuffix(a, b);
    }
  }

  /** Gluing slash-free text around `.git` gives slash-free text. */
  lemma InnerGitNoSlash(a: string, b: string)
    requires NoSlash(a) && NoSlash(b)
    ensures NoSlash(a + GitSuffix + b)
  {
    var t := a + GitSuffix + b;
    forall k | 0 <= k < |t| ensures t[k] != '/' {
      if k < |a| {
        assert t[k] == a[k];
      } else if k >= |a| + |GitSuffix| {
        assert t[k] == b[k - |a| - |GitSuffix|];
      }
    }
  }

  /** Non-empty text after an inner `.git` that does not end in `.git` keeps the whole from ending in one. */
  lemma InnerGitNotSuffix(a: string, b: string)
    requires |b| > 0 && !HasGitSuffix(b)
    ensures !HasGitSuffix(a + GitSuffix + b)
  {
    var t := a + GitSuffix + b;
    var n := |t|;
    if |b| >= |GitSuffix| {
      assert t[n - |GitSuffix|..] == b[|b| - |GitSuffix|..];
    } else {
      assert t[n - |GitSuffix|..][0] == GitSuffix[|b|];
    }
  }

  /**
   * The corrected parse reports the segment minus one trailing `.git`,
   * whatever else the name contains.
   */
  lemma ParseUrlFixedStripsOnlySuffix(s: string, i: nat, owner: string, name: string)
    requires forall k | 0 <= k < i :: !MatchableAt(s, k)
    requires Groups(s, i, owner, name + GitSuffix)
    ensures ParseUrlFixed(s) == Some(ScanTarget(owner, name))
  {
    ParseUrlTakesLeftmostGroups(s, i, owner, name + GitSuffix);
    assert (name + GitSuffix)[..|name|] == name;
  }
}
