// The driver: choosing the repositories, and for each one the sequence
// clone, scan, dry-run, confirm, branch, rewrite, commit, fork and push,
// pull request.  Every answer from git and GitHub is an input (`RepoEnv`);
// what the driver asks of them is recorded as a trace of `Action`s.

module Workflow {
  import opened Wrappers
  import opened Text
  import opened Repository
  import opened Branch
  import opened Fork
  import Scanner
  import Rewriter

  // ---------------- Choosing the repositories ----------------

  /** What the organisation listing tells about a repository. */
  datatype Listed = Listed(repo: Repo, archived: bool, isFork: bool, isPrivate: bool)

  /** The listing filters: archived ones only when asked for, never forks, private ones unless only public. */
  predicate Wanted(l: Listed, includeArchived: bool, onlyPublic: bool) {
    (includeArchived || !l.archived) && !l.isFork && !(onlyPublic && l.isPrivate)
  }

  /** The wanted repositories of a listing, in listing order. */
  function WantedRepos(listing: seq<Listed>, includeArchived: bool, onlyPublic: bool): (r: seq<Repo>)
    ensures |r| <= |listing|
    ensures forall x | x in r :: exists l | l in listing :: l.repo == x && Wanted(l, includeArchived, onlyPublic)
    decreases |listing|
  {
    if |listing| == 0 then []
    else
      var rest := WantedRepos(listing[1..], includeArchived, onlyPublic);
      if Wanted(listing[0], includeArchived, onlyPublic) then [listing[0].repo] + rest else rest
  }

  /** The first `limit` wanted repositories (none when `limit <= 0`). */
  function Selected(listing: seq<Listed>, limit: int, includeArchived: bool, onlyPublic: bool): (r: seq<Repo>)
    ensures limit <= 0 ==> r == []
    ensures |r| <= |listing| && (limit >= 0 ==> |r| <= limit)
  {
    var w := WantedRepos(listing, includeArchived, onlyPublic);
    if limit <= 0 then [] else if |w| <= limit then w else w[..limit]
  }

  /**
   * The listing loop of `main`: stop once `limit` repositories were taken,
   * skip archived ones (unless included), forks, and private ones when only
   * public ones are wanted.
   */
  method SelectRepos(listing: seq<Listed>, limit: int, includeArchived: bool, onlyPublic: bool)
    returns (repos: seq<Repo>)
    ensures repos == Selected(listing, limit, includeArchived, onlyPublic)
  {
    repos := [];
    var count := 0;
    var i := 0;
    while i < |listing|
      invariant 0 <= i <= |listing|
      invariant count == |repos|
      invariant limit > 0 ==> count <= limit
      invariant repos == Selected(listing[..i], limit, includeArchived, onlyPublic)
      invariant count >= limit ==> repos == Selected(listing, limit, includeArchived, onlyPublic)
    {
      if count >= limit {
        break;
      }
      var l := listing[i];
      WantedStep(listing, i, includeArchived, onlyPublic);
      if Wanted(l, includeArchived, onlyPublic) {
        repos := repos + [l.repo];
        count := count + 1;
      }
      i := i + 1;
      if count >= limit {
        SelectedSaturated(listing, i, limit, includeArchived, onlyPublic);
      }
    }
    if i == |listing| {
      assert listing[..i] == listing;
    }
  }

  lemma WantedStep(listing: seq<Listed>, i: nat, includeArchived: bool, onlyPublic: bool)
    requires i < |listing|
    ensures WantedRepos(listing[..i + 1], includeArchived, onlyPublic) ==
      WantedRepos(listing[..i], includeArchived, onlyPublic)
        + (if Wanted(listing[i], includeArchived, onlyPublic) then [listing[i].repo] else [])
  {
    WantedAppend(listing[..i], listing[i], includeArchived, onlyPublic);
    assert listing[..i] + [listing[i]] == listing[..i + 1];
  }

  lemma {:induction false} WantedAppend(ls: seq<Listed>, l: Listed, includeArchived: bool, onlyPublic: bool)
    ensures WantedRepos(ls + [l], includeArchived, onlyPublic) ==
      WantedRepos(ls, includeArchived, onlyPublic) + (if Wanted(l, includeArchived, onlyPublic) then [l.repo] else [])
    decreases |ls|
  {
    if |ls| > 0 {
      assert (ls + [l])[1..] == ls[1..] + [l];
      WantedAppend(ls[1..], l, includeArchived, onlyPublic);
    }
  }

  /** Wanted repositories of a longer listing start with those of a shorter one. */
  lemma {:induction false} WantedPrefix(listing: seq<Listed>, i: nat, includeArchived: bool, onlyPublic: bool)
    requires i <= |listing|
    ensures var w, v := WantedRepos(listing[..i], includeArchived, onlyPublic), WantedRepos(listing, includeArchived, onlyPublic);
      |w| <= |v| && v[..|w|] == w
    decreases |listing| - i
  {
    if i < |listing| {
      WantedPrefix(listing, i + 1, includeArchived, onlyPublic);
      WantedStep(listing, i, includeArchived, onlyPublic);
      var w, w', v := WantedRepos(listing[..i], includeArchived, onlyPublic),
        WantedRepos(listing[..i + 1], includeArchived, onlyPublic), WantedRepos(listing, includeArchived, onlyPublic);
      assert w'[..|w|] == w;
      assert v[..|w'|][..|w|] == v[..|w|];
    } else {
      assert listing[..i] == listing;
    }
  }

  /** Once `limit` repositories were taken from a prefix, the rest of the listing adds nothing. */
  lemma SelectedSaturated(listing: seq<Listed>, i: nat, limit: int, includeArchived: bool, onlyPublic: bool)
    requires i <= |listing| && limit > 0
    requires |Selected(listing[..i], limit, includeArchived, onlyPublic)| >= limit
    ensures Selected(listing[..i], limit, includeArchived, onlyPublic) == Selected(listing, limit, includeArchived, onlyPublic)
  {
    WantedPrefix(listing, i, includeArchived, onlyPublic);
    var w, v := WantedRepos(listing[..i], includeArchived, onlyPublic), WantedRepos(listing, includeArchived, onlyPublic);
    assert v[..limit] == w[..limit];
  }

  /**
   * `--repos`: each named repository is looked up, and one whose lookup
   * fails is skipped.
   */
  function NamedRepos(lookups: seq<Lookup>): (r: seq<Repo>)
    ensures |r| <= |lookups|
    ensures forall x | x in r :: Found(x) in lookups
    decreases |lookups|
  {
    if |lookups| == 0 then []
    else
      var rest := NamedRepos(lookups[1..]);
      match lookups[0]
      case Found(x) => [x] + rest
      case Missing(_) => rest
  }

  /** A lookup that succeeds is never dropped. */
  lemma {:induction false} NamedReposKeepsFound(lookups: seq<Lookup>, x: Repo)
    requires Found(x) in lookups
    ensures x in NamedRepos(lookups)
    decreases |lookups|
  {
    if lookups[0] != Found(x) {
      NamedReposKeepsFound(lookups[1..], x);
    }
  }

  // ---------------- Push permission ----------------

  /** A permissions dictionary grants `key` when it maps it to a true value. */
  predicate Grants(perms: map<string, bool>, key: string) {
    key in perms && perms[key]
  }

  /**
   * `can_push_to_repo`.  `perms` is the repository's `permissions` when it
   * is a dictionary, `ownerLogin` its owner's login (`None` when reading it
   * raises), `myLogin` the signed-in login (`None` or empty counts as absent).
   */
  function CanPushToRepo(perms: Option<map<string, bool>>, ownerLogin: Option<string>, myLogin: Option<string>): (r: bool)
    ensures perms.Some? ==> (r <==> Grants(perms.value, "push") || Grants(perms.value, "admin"))
    ensures perms.None? ==> (r <==> myLogin.Some? && myLogin.value != "" && ownerLogin == myLogin)
  {
    match perms
    case Some(p) => Grants(p, "push") || Grants(p, "admin")
    case None =>
      match myLogin
      case None => false
      case Some(me) => if me == "" then false else ownerLogin == Some(me)
  }

  /** A permissions dictionary decides alone: the owner and the login are not consulted. */
  lemma PermissionsDecide(p: map<string, bool>, o1: Option<string>, o2: Option<string>, m1: Option<string>, m2: Option<string>)
    ensures CanPushToRepo(Some(p), o1, m1) == CanPushToRepo(Some(p), o2, m2)
  {
  }

  // ---------------- Branch name ----------------

  /** `url.split('://')[-1].replace('/', '-')`. */
  function UrlTail(url: string): (r: string)
    ensures '/' !in r
  {
    var last := LastPiece(url, "://");
    SlashesReplaced(last);
    ReplaceAll(last, "/", "-")
  }

  lemma {:induction false} SlashesReplaced(s: string)
    ensures '/' !in ReplaceAll(s, "/", "-")
    decreases |s|
  {
    if |s| >= 1 {
      if s[..1] == "/" {
        SlashesReplaced(s[1..]);
      } else {
        assert s[0] != '/' by {
          assert s[..1][0] == s[0];
        }
        SlashesReplaced(s[1..]);
      }
    }
  }

  /** The text `sanitize_branch_name` is given: `<prefix>/from-<old tail>-to-<new tail>`. */
  function BranchText(prefix: string, oldUrl: string, newUrl: string): string {
    prefix + "/" + "from-" + UrlTail(oldUrl) + "-to-" + UrlTail(newUrl)
  }

  /** The branch every repository's change is made on. */
  function BranchName(prefix: string, oldUrl: string, newUrl: string, unicodeAlnum: char -> bool): (r: string)
    ensures |r| > 0 && AllAllowed(r, unicodeAlnum) && !Contains(r, "--")
    ensures r[0] !in StripChars && r[|r| - 1] !in StripChars
  {
    SanitizedWellFormed(BranchText(prefix, oldUrl, newUrl), unicodeAlnum);
    Sanitized(BranchText(prefix, oldUrl, newUrl), unicodeAlnum)
  }

  // ---------------- ensure_branch and commit_all ----------------

  /** Where the working branch comes from. */
  datatype BranchStart = Existing | FromRemote(start: string)

  /**
   * `ensure_branch`: check out the default branch, then switch to the
   * branch if it exists or create it from `origin/<default>`.  `None` when
   * one of the two checkouts fails (the failed fetch in between is ignored).
   */
  function EnsureBranch(defaultBranch: string, checkoutDefaultOk: bool, branchExists: bool, switchOk: bool): (r: Option<BranchStart>)
    ensures r.Some? <==> checkoutDefaultOk && switchOk
    ensures r == Some(Existing) <==> checkoutDefaultOk && switchOk && branchExists
    ensures r.Some? && !branchExists ==> r.value.start == "origin/" + defaultBranch
  {
    if !checkoutDefaultOk || !switchOk then None
    else if branchExists then Some(Existing)
    else Some(FromRemote("origin/" + defaultBranch))
  }

  datatype CommitResult = Committed | NothingStaged | CommitError

  /**
   * `commit_all`: stage everything; nothing staged means no commit; a
   * failing `add` or `commit` raises.
   */
  function CommitAll(addOk: bool, staged: bool, commitOk: bool): (r: CommitResult)
    ensures r == Committed <==> addOk && staged && commitOk
    ensures r == NothingStaged <==> addOk && !staged
  {
    if !addOk then CommitError
    else if !staged then NothingStaged
    else if !commitOk then CommitError
    else Committed
  }

  // ---------------- Confirmation ----------------

  /**
   * The characters `str.strip()` removes: those `str.isspace()` accepts,
   * i.e. U+0009..U+000D, U+001C..U+001F, the space, U+0085, U+00A0,
   * U+1680, U+2000..U+200A, U+2028, U+2029, U+202F, U+205F and U+3000.
   */
  const Whitespace: string :=
    "\t\n\U{0B}\U{0C}\r\U{1C}\U{1D}\U{1E}\U{1F} \U{85}\U{A0}\U{1680}"
    + "\U{2000}\U{2001}\U{2002}\U{2003}\U{2004}\U{2005}\U{2006}\U{2007}\U{2008}\U{2009}\U{200A}"
    + "\U{2028}\U{2029}\U{202F}\U{205F}\U{3000}"

  /** The confirmation answer, stripped and lower-cased, is `y` or `yes`. */
  predicate Accepts(answer: string) {
    var a := Lower(Strip(answer, Whitespace));
    a == "y" || a == "yes"
  }

  /** An empty answer (just pressing return) declines. */
  lemma EmptyAnswerDeclines()
    ensures !Accepts("")
  {
    assert Strip("", Whitespace) == "";
  }

  // ---------------- Decimal rendering ----------------

  function DigitChar(d: nat): (c: char)
    requires d < 10
    ensures IsAsciiDigit(c) && (c as int) - ('0' as int) == d
  {
    ('0' as int + d) as char
  }

  /** `str(n)`: the decimal digits of `n`, without leading zeros. */
  function NatToString(n: nat): (s: string)
    ensures |s| > 0 && (forall i | 0 <= i < |s| :: IsAsciiDigit(s[i]))
    ensures |s| > 1 ==> s[0] != '0'
    decreases n
  {
    if n < 10 then [DigitChar(n)] else NatToString(n / 10) + [DigitChar(n % 10)]
  }

  function DigitValue(c: char): (d: nat)
    requires IsAsciiDigit(c)
    ensures d < 10 && DigitChar(d) == c
  {
    (c as int) - ('0' as int)
  }

  /** The number a string of decimal digits denotes. */
  function DecimalValue(s: string): nat
    requires forall i | 0 <= i < |s| :: IsAsciiDigit(s[i])
    decreases |s|
  {
    if |s| == 0 then 0
    else DecimalValue(s[..|s| - 1]) * 10 + DigitValue(s[|s| - 1])
  }

  /** Rendering then reading back gives the number again. */
  lemma {:induction false} DecimalRoundTrip(n: nat)
    ensures DecimalValue(NatToString(n)) == n
    decreases n
  {
    if n >= 10 {
      var s := NatToString(n);
      assert s[..|s| - 1] == NatToString(n / 10);
      DecimalRoundTrip(n / 10);
    }
  }

  /** Length of the run of digits at the start of `s`. */
  function DigitRun(s: string): (k: nat)
    ensures k <= |s| && forall i | 0 <= i < k :: IsAsciiDigit(s[i])
    decreases |s|
  {
    if |s| > 0 && IsAsciiDigit(s[0]) then 1 + DigitRun(s[1..]) else 0
  }

  /** The number written at the start of `s`. */
  function LeadingNumber(s: string): nat {
    var k := DigitRun(s);
    DecimalValue(s[..k])
  }

  lemma {:induction false} DigitRunOver(d: string, rest: string)
    requires forall i | 0 <= i < |d| :: IsAsciiDigit(d[i])
    requires |rest| == 0 || !IsAsciiDigit(rest[0])
    ensures DigitRun(d + rest) == |d|
    decreases |d|
  {
    if |d| > 0 {
      assert (d + rest)[1..] == d[1..] + rest;
      DigitRunOver(d[1..], rest);
    } else {
      assert d + rest == rest;
    }
  }

  /** A rendered count followed by a non-digit reads back as that count. */
  lemma ReadsBack(n: nat, rest: string)
    requires |rest| == 0 || !IsAsciiDigit(rest[0])
    ensures LeadingNumber(NatToString(n) + rest) == n
  {
    var d := NatToString(n);
    DigitRunOver(d, rest);
    assert (d + rest)[..|d|] == d;
    DecimalRoundTrip(n);
  }

  // ---------------- Commit and pull request text ----------------

  const CommitHeader: string := "chore: update org URLs and normalize LICENSE links"
  const NoUrlLine: string := "- (No org URL replacements)"
  const ConversionOffLine: string := "- LICENSE link conversion disabled"
  const NoConversionLine: string := "- (No LICENSE link conversions)"
  const ReasonLine: string := "Reason: organization rename + prefer stable relative license links."
  const PrIntro: string := "This PR updates explicit org URLs and converts absolute LICENSE links to relative form."
  const PrOutro: string := "Relative ./LICENSE links stay correct if branches or hosts change."
  const ReplacedPrefix: string := "- Replaced "
  const BlobPrefix: string := "- Converted LICENSE links: blob="
  const RawSeparator: string := ", raw="

  /** The lines of the commit message, before they are joined with newlines. */
  function CommitLines(oldTotal: nat, blobTotal: nat, rawTotal: nat, oldUrl: string, newUrl: string, convert: bool): (lines: seq<string>)
    ensures |lines| == 7
  {
    [ CommitHeader,
      "",
      "Changes:",
      if oldTotal > 0 then ReplacedLine(oldTotal, oldUrl, newUrl) else NoUrlLine,
      if !convert then ConversionOffLine
      else if blobTotal > 0 || rawTotal > 0 then ConversionLine(blobTotal, rawTotal)
      else NoConversionLine,
      "",
      ReasonLine ]
  }

  /** A number written after `prefix` and before a non-digit can be read back from there. */
  lemma ReadsBackAfter(prefix: string, n: nat, rest: string)
    requires |rest| == 0 || !IsAsciiDigit(rest[0])
    ensures |prefix| <= |prefix + NatToString(n) + rest|
    ensures (prefix + NatToString(n) + rest)[..|prefix|] == prefix
    ensures LeadingNumber((prefix + NatToString(n) + rest)[|prefix|..]) == n
  {
    assert (prefix + NatToString(n) + rest)[|prefix|..] == NatToString(n) + rest;
    ReadsBack(n, rest);
  }

  /** The change line for replaced URLs: `- Replaced <n> occurrence(s) of` and the two URLs. */
  function ReplacedLine(oldTotal: nat, oldUrl: string, newUrl: string): string {
    ReplacedPrefix + NatToString(oldTotal) + ReplacedTail(oldUrl, newUrl)
  }

  function ReplacedTail(oldUrl: string, newUrl: string): string {
    " occurrence(s) of\n  " + oldUrl + "\n  with\n  " + newUrl
  }

  /** The replaced-URL line starts with its prefix, and the count can be read back after it. */
  lemma ReplacedLineReadsBack(oldTotal: nat, oldUrl: string, newUrl: string)
    ensures |ReplacedPrefix| <= |ReplacedLine(oldTotal, oldUrl, newUrl)|
    ensures ReplacedLine(oldTotal, oldUrl, newUrl)[..|ReplacedPrefix|] == ReplacedPrefix
    ensures LeadingNumber(ReplacedLine(oldTotal, oldUrl, newUrl)[|ReplacedPrefix|..]) == oldTotal
  {
    assert ReplacedTail(oldUrl, newUrl)[0] == ' ';
    ReadsBackAfter(ReplacedPrefix, oldTotal, ReplacedTail(oldUrl, newUrl));
  }

  /** The change line for converted license links: `- Converted LICENSE links: blob=<b>, raw=<r>`. */
  function ConversionLine(blobTotal: nat, rawTotal: nat): string {
    BlobPrefix + NatToString(blobTotal) + RawSeparator + NatToString(rawTotal)
  }

  /** Both counts can be read back from the conversion line. */
  lemma ConversionLineReadsBack(blobTotal: nat, rawTotal: nat)
    ensures LeadingNumber(ConversionLine(blobTotal, rawTotal)[|BlobPrefix|..]) == blobTotal
    ensures var rawAt := |BlobPrefix| + |NatToString(blobTotal)| + |RawSeparator|;
      rawAt <= |ConversionLine(blobTotal, rawTotal)| && LeadingNumber(ConversionLine(blobTotal, rawTotal)[rawAt..]) == rawTotal
  {
    var b, r := NatToString(blobTotal), NatToString(rawTotal);
    assert RawSeparator[0] == ',';
    ReadsBackAfter(BlobPrefix, blobTotal, RawSeparator + r);
    assert BlobPrefix + b + (RawSeparator + r) == ConversionLine(blobTotal, rawTotal);
    ReadsBackAfter(BlobPrefix + b + RawSeparator, rawTotal, "");
    assert BlobPrefix + b + RawSeparator + r + "" == ConversionLine(blobTotal, rawTotal);
  }

  function CommitMessage(oldTotal: nat, blobTotal: nat, rawTotal: nat, oldUrl: string, newUrl: string, convert: bool): string {
    Join(CommitLines(oldTotal, blobTotal, rawTotal, oldUrl, newUrl, convert), "\n")
  }

  /**
   * The commit message reports the totals: the URL count can be read back
   * from its change line, and so can the blob and raw counts when links
   * were converted.
   */
  lemma CommitMessageReportsTotals(oldTotal: nat, blobTotal: nat, rawTotal: nat, oldUrl: string, newUrl: string, convert: bool)
    ensures var lines := CommitLines(oldTotal, blobTotal, rawTotal, oldUrl, newUrl, convert);
      && (oldTotal > 0 <==> lines[3][..|ReplacedPrefix|] == ReplacedPrefix)
      && (oldTotal > 0 ==> LeadingNumber(lines[3][|ReplacedPrefix|..]) == oldTotal)
      && (convert && (blobTotal > 0 || rawTotal > 0) ==> LeadingNumber(lines[4][|BlobPrefix|..]) == blobTotal)
      && (convert && (blobTotal > 0 || rawTotal > 0) ==>
            var rawAt := |BlobPrefix| + |NatToString(blobTotal)| + |RawSeparator|;
            rawAt <= |lines[4]| && LeadingNumber(lines[4][rawAt..]) == rawTotal)
  {
    var lines := CommitLines(oldTotal, blobTotal, rawTotal, oldUrl, newUrl, convert);
    if oldTotal > 0 {
      ReplacedLineReadsBack(oldTotal, oldUrl, newUrl);
    } else {
      assert lines[3][..|ReplacedPrefix|][2] != ReplacedPrefix[2];
    }
    if convert && (blobTotal > 0 || rawTotal > 0) {
      ConversionLineReadsBack(blobTotal, rawTotal);
    }
  }

  const PrTitle: string := "chore: replace org URLs and LICENSE links"
  const OldCountPrefix: string := "Org URL replacements: "
  const BlobCountPrefix: string := "LICENSE link conversions (blob): "
  const RawCountPrefix: string := "LICENSE link conversions (raw): "

  function PrBodyLines(oldTotal: nat, blobTotal: nat, rawTotal: nat, oldUrl: string, newUrl: string): (lines: seq<string>)
    ensures |lines| == 10
  {
    [ PrIntro,
      "",
      OldCountPrefix + NatToString(oldTotal),
      BlobCountPrefix + NatToString(blobTotal),
      RawCountPrefix + NatToString(rawTotal),
      "",
      "Old base: " + oldUrl,
      "New base: " + newUrl,
      "",
      PrOutro ]
  }

  function PrBody(oldTotal: nat, blobTotal: nat, rawTotal: nat, oldUrl: string, newUrl: string): string {
    Join(PrBodyLines(oldTotal, blobTotal, rawTotal, oldUrl, newUrl), "\n")
  }

  /** The pull request body reports all three totals, each readable back from its line. */
  lemma PrBodyReportsTotals(oldTotal: nat, blobTotal: nat, rawTotal: nat, oldUrl: string, newUrl: string)
    ensures var lines := PrBodyLines(oldTotal, blobTotal, rawTotal, oldUrl, newUrl);
      && LeadingNumber(lines[2][|OldCountPrefix|..]) == oldTotal
      && LeadingNumber(lines[3][|BlobCountPrefix|..]) == blobTotal
      && LeadingNumber(lines[4][|RawCountPrefix|..]) == rawTotal
  {
    var lines := PrBodyLines(oldTotal, blobTotal, rawTotal, oldUrl, newUrl);
    assert lines[2][|OldCountPrefix|..] == NatToString(oldTotal) + "";
    assert lines[3][|BlobCountPrefix|..] == NatToString(blobTotal) + "";
    assert lines[4][|RawCountPrefix|..] == NatToString(rawTotal) + "";
    ReadsBack(oldTotal, "");
    ReadsBack(blobTotal, "");
    ReadsBack(rawTotal, "");
  }

  // ---------------- One repository ----------------

  /** The run's options. */
  datatype Config = Config(
    oldUrl: string, newUrl: string, branchPrefix: string,
    dryRun: bool, confirm: bool, alwaysFork: bool, convert: bool,
    myLogin: string)

  /** What git and GitHub answer while one repository is processed. */
  datatype RepoEnv = RepoEnv(
    perms: Option<map<string, bool>>, ownerLogin: Option<string>,
    cloneOk: bool, answer: string,
    checkoutDefaultOk: bool, branchExists: bool, switchOk: bool,
    addOk: bool, staged: bool, commitOk: bool,
    forkExisting: Lookup, forkCreateErr: Option<string>, forkPolls: seq<Lookup>, remoteOk: bool,
    pushOk: bool, fallbackPushOk: bool,
    openPulls: Option<nat>, createOk: bool)

  /** A repository to process: who it is, its default branch (if set), the files a clone yields, and the answers. */
  datatype RepoInput = RepoInput(repo: Repo, defaultBranch: Option<string>, files: seq<FileEntry>, env: RepoEnv)

  /** What the driver asks of git and GitHub. */
  datatype Action =
    | Clone(fullName: string)
    | Scan
    | SwitchBranch(branch: string)
    | Rewrite
    | Commit(message: string)
    | EnsureFork
    | SetForkRemote(forkFullName: string)
    | Push(remote: string, branch: string)
    | ListPulls(head: string, base: string)
    | CreatePull(title: string, body: string, head: string, base: string)

  /** How processing one repository ends. */
  datatype Outcome =
    | CloneFailed | NothingFound | DryRun | Declined | BranchFailed | NoDiff
    | NothingToCommit | CommitFailed | ForkFailed | PushFailed
    | FallbackForkFailed | FallbackPushFailed
    | PrExists | PrCreated | PrFailed

  datatype Run = Run(outcome: Outcome, trace: seq<Action>)

  /** The outcomes that count as a pull request created or updated. */
  predicate Changed(o: Outcome) {
    o == PrExists || o == PrCreated
  }

  /** The outcomes that end the repository before a branch is touched. */
  predicate EarlyExit(o: Outcome) {
    o == CloneFailed || o == NothingFound || o == DryRun || o == Declined
  }

  /** `repo.default_branch or "main"`. */
  function BaseBranch(r: RepoInput): (b: string)
    ensures |b| > 0
    ensures r.defaultBranch.Some? && r.defaultBranch.value != "" ==> b == r.defaultBranch.value
  {
    match r.defaultBranch
    case Some(b) => if b == "" then "main" else b
    case None => "main"
  }

  function UseFork(cfg: Config, env: RepoEnv): bool {
    cfg.alwaysFork || !CanPushToRepo(env.perms, env.ownerLogin, Some(cfg.myLogin))
  }

  function ForkOf(env: RepoEnv): ForkResult {
    EnsureForkSpec(env.forkExisting, env.forkCreateErr, env.forkPolls)
  }

  /** What the rewrite reports: its three totals and the texts built from them. */
  datatype RewriteReport = RewriteReport(totals: Rewriter.Counts, message: string, body: string)

  /**
   * The report of a rewrite that counted `totals`: the commit message and
   * the pull request body `main` builds from them.
   */
  function Report(cfg: Config, totals: Rewriter.Counts): RewriteReport
  {
    RewriteReport(totals,
      CommitMessage(totals.oldCount, totals.blobCount, totals.rawCount, cfg.oldUrl, cfg.newUrl, cfg.convert),
      PrBody(totals.oldCount, totals.blobCount, totals.rawCount, cfg.oldUrl, cfg.newUrl))
  }

  /** The pull request: look for an open one with this head and base, otherwise create it. */
  function OpenPull(cfg: Config, r: RepoInput, head: string, rw: RewriteReport, t: seq<Action>): Run {
    var base := BaseBranch(r);
    var t1 := t + [ListPulls(head, base)];
    match r.env.openPulls
    case None => Run(PrFailed, t1)
    case Some(n) =>
      if n > 0 then Run(PrExists, t1)
      else
        var t2 := t1 + [CreatePull(PrTitle, rw.body, head, base)];
        if r.env.createOk then Run(PrCreated, t2) else Run(PrFailed, t2)
  }

  /**
   * Pushing the committed branch: through the fork when one is used (the
   * fork is ensured first), otherwise to `origin`, falling back to a fork
   * when that push fails.
   */
  function Publish(cfg: Config, r: RepoInput, branch: string, rw: RewriteReport, t: seq<Action>): Run {
    var env := r.env;
    var f := ForkOf(env);
    if UseFork(cfg, env) then
      var t1 := t + [EnsureFork];
      if !f.Forked? then Run(ForkFailed, t1)
      else
        var t2 := t1 + [SetForkRemote(FullName(f.fork))];
        if !env.remoteOk then Run(ForkFailed, t2)
        else
          var t3 := t2 + [Push("fork", branch)];
          if !env.pushOk then Run(PushFailed, t3)
          else OpenPull(cfg, r, f.fork.owner + ":" + branch, rw, t3)
    else
      var t1 := t + [Push("origin", branch)];
      if env.pushOk then OpenPull(cfg, r, branch, rw, t1)
      else
        var t2 := t1 + [EnsureFork];
        if !f.Forked? then Run(FallbackForkFailed, t2)
        else
          var t3 := t2 + [SetForkRemote(FullName(f.fork))];
          if !env.remoteOk then Run(FallbackForkFailed, t3)
          else
            var t4 := t3 + [Push("fork", branch)];
            if !env.fallbackPushOk then Run(FallbackPushFailed, t4)
            else OpenPull(cfg, r, f.fork.owner + ":" + branch, rw, t4)
  }

  /** From the branch to the commit; `rw` is what the rewrite reported. */
  function Land(cfg: Config, r: RepoInput, branch: string, rw: RewriteReport, t: seq<Action>): Run {
    var env := r.env;
    var t1 := t + [SwitchBranch(branch)];
    if EnsureBranch(BaseBranch(r), env.checkoutDefaultOk, env.branchExists, env.switchOk).None? then Run(BranchFailed, t1)
    else
      var t2 := t1 + [Rewrite];
      if !Rewriter.AnyCount(rw.totals) then Run(NoDiff, t2)
      else
        var t3 := t2 + [Commit(rw.message)];
        match CommitAll(env.addOk, env.staged, env.commitOk)
        case NothingStaged => Run(NothingToCommit, t3)
        case CommitError => Run(CommitFailed, t3)
        case Committed => Publish(cfg, r, branch, rw, t3)
  }

  /**
   * One repository, given whether the scan found anything and what the
   * rewrite counted.
   */
  function Decide(cfg: Config, r: RepoInput, found: bool, rw: RewriteReport, branch: string): Run {
    var t0 := [Clone(FullName(r.repo))];
    if !r.env.cloneOk then Run(CloneFailed, t0)
    else
      var t1 := t0 + [Scan];
      if !found then Run(NothingFound, t1)
      else if cfg.dryRun then Run(DryRun, t1)
      else if cfg.confirm && !Accepts(r.env.answer) then Run(Declined, t1)
      else Land(cfg, r, branch, rw, t1)
  }

  /** Whether `scan_repo` finds anything in the clone. */
  function ScanFinds(cfg: Config, r: RepoInput): bool
  {
    |Scanner.ScanSpec(r.files, cfg.oldUrl, r.repo.name, cfg.convert)| > 0
  }

  /** The three totals `apply_replacements` returns on the clone. */
  function RewriteTotals(cfg: Config, r: RepoInput): Rewriter.Counts
  {
    Rewriter.Total(Rewriter.PerFile(r.files, cfg.oldUrl, cfg.newUrl, r.repo.name, cfg.convert))
  }

  /** Processing one repository, end to end. */
  function RepoRun(cfg: Config, r: RepoInput, unicodeAlnum: char -> bool): Run
  {
    Decide(cfg, r, ScanFinds(cfg, r), Report(cfg, RewriteTotals(cfg, r)), BranchName(cfg.branchPrefix, cfg.oldUrl, cfg.newUrl, unicodeAlnum))
  }

  // ---------------- Properties of one repository ----------------

  /**
   * A failed clone, an empty scan, a dry run or a declined confirmation end
   * the repository after the clone (and the scan) only: no branch, rewrite,
   * commit, fork, push or pull request.  Every later outcome has switched
   * to the branch right after the scan.
   */
  lemma EarlyExitTouchesNothing(cfg: Config, r: RepoInput, found: bool, rw: RewriteReport, branch: string)
    ensures var run := Decide(cfg, r, found, rw, branch);
      var cloned := [Clone(FullName(r.repo))];
      && (EarlyExit(run.outcome) <==> run.trace == cloned || run.trace == cloned + [Scan])
      && (!EarlyExit(run.outcome) ==> |run.trace| > 2 && run.trace[2] == SwitchBranch(branch))
  {
    if Proceeds(cfg, r, found) {
      LandSwitches(cfg, r, branch, rw, [Clone(FullName(r.repo))] + [Scan]);
      DecideLands(cfg, r, found, rw, branch);
    } else {
      DecideStops(cfg, r, found, rw, branch);
    }
  }

  /** Whether `main` goes on past the scan and the confirmation. */
  predicate Proceeds(cfg: Config, r: RepoInput, found: bool) {
    r.env.cloneOk && found && !cfg.dryRun && !(cfg.confirm && !Accepts(r.env.answer))
  }

  /** Stopping before the branch leaves the clone and the scan at most. */
  lemma DecideStops(cfg: Config, r: RepoInput, found: bool, rw: RewriteReport, branch: string)
    requires !Proceeds(cfg, r, found)
    ensures var run := Decide(cfg, r, found, rw, branch);
      var cloned := [Clone(FullName(r.repo))];
      EarlyExit(run.outcome) && (run.trace == cloned || run.trace == cloned + [Scan])
  {
  }

  /** Going on past the confirmation is landing after the clone and the scan. */
  lemma DecideLands(cfg: Config, r: RepoInput, found: bool, rw: RewriteReport, branch: string)
    requires Proceeds(cfg, r, found)
    ensures Decide(cfg, r, found, rw, branch) == Land(cfg, r, branch, rw, [Clone(FullName(r.repo))] + [Scan])
  {
  }

  lemma LandSwitches(cfg: Config, r: RepoInput, branch: string, rw: RewriteReport, t: seq<Action>)
    ensures var run := Land(cfg, r, branch, rw, t);
      |run.trace| > |t| && run.trace[|t|] == SwitchBranch(branch) && !EarlyExit(run.outcome)
  {
    var run := Land(cfg, r, branch, rw, t);
    var t1 := t + [SwitchBranch(branch)];
    PublishExtends(cfg, r, branch, rw, t1 + [Rewrite] + [Commit(rw.message)]);
    assert run.trace[..|t1|] == t1;
  }

  lemma PublishExtends(cfg: Config, r: RepoInput, branch: string, rw: RewriteReport, t: seq<Action>)
    ensures var run := Publish(cfg, r, branch, rw, t);
      |run.trace| > |t| && run.trace[..|t|] == t && !EarlyExit(run.outcome)
  {
  }

  /** The head a pull request is looked up and created with. */
  function PrHead(cfg: Config, r: RepoInput, branch: string): string {
    var f := ForkOf(r.env);
    if (UseFork(cfg, r.env) || !r.env.pushOk) && f.Forked? then f.fork.owner + ":" + branch else branch
  }

  /**
   * Every pull-request action uses `<fork owner>:<branch>` when a fork was
   * used (from the start or as the fallback) and the bare branch otherwise,
   * always against the default branch.
   */
  lemma PullHeadIsForkOwnerOrBranch(cfg: Config, r: RepoInput, branch: string, rw: RewriteReport, t: seq<Action>)
    ensures var run := Publish(cfg, r, branch, rw, t);
      forall i | |t| <= i < |run.trace| ::
        (run.trace[i].ListPulls? || run.trace[i].CreatePull?) ==>
          run.trace[i].head == PrHead(cfg, r, branch) && run.trace[i].base == BaseBranch(r)
  {
  }

  /** An open pull request with the same head and base means `create_pull` is not called. */
  lemma ExistingPullNotRecreated(cfg: Config, r: RepoInput, head: string, rw: RewriteReport, t: seq<Action>)
    requires r.env.openPulls.Some? && r.env.openPulls.value > 0
    ensures var run := OpenPull(cfg, r, head, rw, t);
      run.outcome == PrExists && forall a | a in run.trace[|t|..] :: !a.CreatePull?
  {
  }

  /**
   * When a fork is used from the start, it is ensured (and its remote set)
   * before anything is pushed; a fork is ensured at all only in fork mode or
   * after the push to `origin` failed.
   */
  lemma ForkBeforePush(cfg: Config, r: RepoInput, branch: string, rw: RewriteReport, t: seq<Action>)
    requires forall a | a in t :: !a.Push? && !a.EnsureFork?
    ensures var run := Publish(cfg, r, branch, rw, t);
      && (UseFork(cfg, r.env) ==>
            forall i | 0 <= i < |run.trace| && run.trace[i].Push? ::
              i >= 2 && run.trace[i - 2] == EnsureFork && run.trace[i].remote == "fork")
      && (EnsureFork in run.trace ==> UseFork(cfg, r.env) || !r.env.pushOk)
  {
    var run := Publish(cfg, r, branch, rw, t);
    var f := ForkOf(r.env);
    if UseFork(cfg, r.env) && f.Forked? && r.env.remoteOk {
      var t3 := t + [EnsureFork] + [SetForkRemote(FullName(f.fork))] + [Push("fork", branch)];
      OpenPullExtends(cfg, r, f.fork.owner + ":" + branch, rw, t3);
    } else if !UseFork(cfg, r.env) && r.env.pushOk {
      OpenPullExtends(cfg, r, branch, rw, t + [Push("origin", branch)]);
    } else if !UseFork(cfg, r.env) && f.Forked? && r.env.remoteOk && r.env.fallbackPushOk {
      var t4 := t + [Push("origin", branch)] + [EnsureFork] + [SetForkRemote(FullName(f.fork))] + [Push("fork", branch)];
      OpenPullExtends(cfg, r, f.fork.owner + ":" + branch, rw, t4);
    }
  }

  /** The pull-request step adds only pull-request actions. */
  lemma OpenPullExtends(cfg: Config, r: RepoInput, head: string, rw: RewriteReport, t: seq<Action>)
    ensures var run := OpenPull(cfg, r, head, rw, t);
      && |run.trace| > |t| && run.trace[..|t|] == t
      && forall i | |t| <= i < |run.trace| :: run.trace[i].ListPulls? || run.trace[i].CreatePull?
  {
  }

  /**
   * A repository counts as changed only when the commit was made, the
   * branch was pushed and the pull request exists or was created.
   */
  lemma ChangedOnlyAfterPush(cfg: Config, r: RepoInput, found: bool, rw: RewriteReport, branch: string)
    ensures var run := Decide(cfg, r, found, rw, branch);
      Changed(run.outcome) ==>
        && found && r.env.cloneOk && Rewriter.AnyCount(rw.totals)
        && CommitAll(r.env.addOk, r.env.staged, r.env.commitOk) == Committed
        && (exists a | a in run.trace :: a.Push?)
  {
    var t := [Clone(FullName(r.repo))] + [Scan] + [SwitchBranch(branch)] + [Rewrite] + [Commit(rw.message)];
    PublishPushes(cfg, r, branch, rw, t);
  }

  /** `a` carries the texts of `rw` if it is a commit or a pull request created. */
  predicate Reports(a: Action, rw: RewriteReport) {
    && (a.Commit? ==> a.message == rw.message)
    && (a.CreatePull? ==> a.title == PrTitle && a.body == rw.body)
  }

  /**
   * What a run sends is what the rewrite reported: every commit carries its
   * commit message, and every pull request created carries the fixed title
   * and its body.
   */
  lemma SendsReport(cfg: Config, r: RepoInput, found: bool, rw: RewriteReport, branch: string)
    ensures var run := Decide(cfg, r, found, rw, branch);
      forall a | a in run.trace :: Reports(a, rw)
  {
    if Proceeds(cfg, r, found) {
      DecideLands(cfg, r, found, rw, branch);
      LandSends(cfg, r, branch, rw, [Clone(FullName(r.repo))] + [Scan]);
    } else {
      DecideStops(cfg, r, found, rw, branch);
    }
  }

  lemma LandSends(cfg: Config, r: RepoInput, branch: string, rw: RewriteReport, t: seq<Action>)
    requires forall a | a in t :: Reports(a, rw)
    ensures var run := Land(cfg, r, branch, rw, t);
      forall a | a in run.trace :: Reports(a, rw)
  {
    PublishSends(cfg, r, branch, rw, t + [SwitchBranch(branch)] + [Rewrite] + [Commit(rw.message)]);
  }

  lemma PublishSends(cfg: Config, r: RepoInput, branch: string, rw: RewriteReport, t: seq<Action>)
    requires forall a | a in t :: Reports(a, rw)
    ensures var run := Publish(cfg, r, branch, rw, t);
      forall a | a in run.trace :: Reports(a, rw)
  {
  }

  /**
   * In a whole run the commit message and the pull request body are the
   * ones `main` builds from the totals `apply_replacements` returned, so
   * `CommitMessageReportsTotals` and `PrBodyReportsTotals` apply to them.
   */
  lemma RunReportsTotals(cfg: Config, r: RepoInput, unicodeAlnum: char -> bool)
    ensures var run := RepoRun(cfg, r, unicodeAlnum);
      var n := RewriteTotals(cfg, r);
      forall a | a in run.trace ::
        && (a.Commit? ==> a.message == CommitMessage(n.oldCount, n.blobCount, n.rawCount, cfg.oldUrl, cfg.newUrl, cfg.convert))
        && (a.CreatePull? ==> a.body == PrBody(n.oldCount, n.blobCount, n.rawCount, cfg.oldUrl, cfg.newUrl))
  {
    var rw := Report(cfg, RewriteTotals(cfg, r));
    SendsReport(cfg, r, ScanFinds(cfg, r), rw, BranchName(cfg.branchPrefix, cfg.oldUrl, cfg.newUrl, unicodeAlnum));
  }

  /** Publishing ends in a pull request only after some push. */
  lemma PublishPushes(cfg: Config, r: RepoInput, branch: string, rw: RewriteReport, t: seq<Action>)
    ensures var run := Publish(cfg, r, branch, rw, t);
      Changed(run.outcome) ==> exists a | a in run.trace :: a.Push?
  {
    var run := Publish(cfg, r, branch, rw, t);
    var f := ForkOf(r.env);
    var tp: seq<Action>, head: string;
    if UseFork(cfg, r.env) && f.Forked? && r.env.remoteOk {
      tp, head := t + [EnsureFork] + [SetForkRemote(FullName(f.fork))] + [Push("fork", branch)], f.fork.owner + ":" + branch;
    } else if !UseFork(cfg, r.env) && r.env.pushOk {
      tp, head := t + [Push("origin", branch)], branch;
    } else if !UseFork(cfg, r.env) && f.Forked? && r.env.remoteOk && r.env.fallbackPushOk {
      tp, head := t + [Push("origin", branch)] + [EnsureFork] + [SetForkRemote(FullName(f.fork))] + [Push("fork", branch)],
        f.fork.owner + ":" + branch;
    } else {
      return;
    }
    if Changed(run.outcome) {
      OpenPullExtends(cfg, r, head, rw, tp);
      assert run.trace[|tp| - 1] == tp[|tp| - 1];
      assert run.trace[|tp| - 1] in run.trace;
    }
  }

  // ---------------- The driver ----------------

  /**
   * One repository as `main` runs it: clone, scan, then each gate in turn;
   * `prHead`, `pushRemote` and `useFork` are updated as the push proceeds.
   */
  method ProcessRepo(cfg: Config, r: RepoInput, unicodeAlnum: char -> bool) returns (run: Run)
    ensures run == RepoRun(cfg, r, unicodeAlnum)
  {
    var trace := [Clone(FullName(r.repo))];
    if !r.env.cloneOk {
      return Run(CloneFailed, trace);
    }
    var checkout := new Checkout(r.files);
    var results := Scanner.ScanRepo(checkout, cfg.oldUrl, r.repo.name, cfg.convert);
    trace := trace + [Scan];
    if |results| == 0 {
      return Run(NothingFound, trace);
    }
    if cfg.dryRun {
      return Run(DryRun, trace);
    }
    if cfg.confirm && !Accepts(r.env.answer) {
      return Run(Declined, trace);
    }
    var branch := SanitizeBranchName(BranchText(cfg.branchPrefix, cfg.oldUrl, cfg.newUrl), unicodeAlnum);
    run := LandBranch(cfg, r, checkout, branch, trace);
  }

  /** Branch, rewrite and commit in the clone `checkout`. */
  method LandBranch(cfg: Config, r: RepoInput, checkout: Checkout, branch: string, trace: seq<Action>) returns (run: Run)
    requires checkout.files == r.files
    modifies checkout
    ensures run == Land(cfg, r, branch, Report(cfg, RewriteTotals(cfg, r)), trace)
  {
    var t := trace + [SwitchBranch(branch)];
    var start := EnsureBranch(BaseBranch(r), r.env.checkoutDefaultOk, r.env.branchExists, r.env.switchOk);
    if start.None? {
      return Run(BranchFailed, t);
    }
    var perFile, oldTotal, blobTotal, rawTotal := Rewriter.ApplyReplacements(checkout, cfg.oldUrl, cfg.newUrl, r.repo.name, cfg.convert);
    var totals := Rewriter.Counts(oldTotal, blobTotal, rawTotal);
    t := t + [Rewrite];
    if oldTotal == 0 && blobTotal == 0 && rawTotal == 0 {
      return Run(NoDiff, t);
    }
    var message := CommitMessage(oldTotal, blobTotal, rawTotal, cfg.oldUrl, cfg.newUrl, cfg.convert);
    var body := PrBody(oldTotal, blobTotal, rawTotal, cfg.oldUrl, cfg.newUrl);
    t := t + [Commit(message)];
    var committed := CommitAll(r.env.addOk, r.env.staged, r.env.commitOk);
    if committed == NothingStaged {
      return Run(NothingToCommit, t);
    } else if committed == CommitError {
      return Run(CommitFailed, t);
    }
    run := PublishBranch(cfg, r, branch, RewriteReport(totals, message, body), t);
  }

  /** Fork and push; `useFork`, `pushRemote` and `prHead` change as in `main`. */
  method PublishBranch(cfg: Config, r: RepoInput, branch: string, rw: RewriteReport, trace: seq<Action>) returns (run: Run)
    ensures run == Publish(cfg, r, branch, rw, trace)
  {
    var env := r.env;
    var t := trace;
    var prHead := branch;
    var pushRemote := "origin";
    var useFork := cfg.alwaysFork || !CanPushToRepo(env.perms, env.ownerLogin, Some(cfg.myLogin));
    if useFork {
      t := t + [EnsureFork];
      var f, _, _ := Fork.EnsureFork(env.forkExisting, env.forkCreateErr, env.forkPolls);
      if !f.Forked? {
        return Run(ForkFailed, t);
      }
      t := t + [SetForkRemote(FullName(f.fork))];
      if !env.remoteOk {
        return Run(ForkFailed, t);
      }
      pushRemote := "fork";
      prHead := f.fork.owner + ":" + branch;
    }
    t := t + [Push(pushRemote, branch)];
    if !env.pushOk {
      if !useFork {
        t := t + [EnsureFork];
        var f, _, _ := Fork.EnsureFork(env.forkExisting, env.forkCreateErr, env.forkPolls);
        if !f.Forked? {
          return Run(FallbackForkFailed, t);
        }
        t := t + [SetForkRemote(FullName(f.fork))];
        if !env.remoteOk {
          return Run(FallbackForkFailed, t);
        }
        t := t + [Push("fork", branch)];
        if !env.fallbackPushOk {
          return Run(FallbackPushFailed, t);
        }
        prHead := f.fork.owner + ":" + branch;
        useFork := true;
      } else {
        return Run(PushFailed, t);
      }
    }
    run := OpenPull(cfg, r, prHead, rw, t);
  }

  /** How many runs ended in a pull request created or already open. */
  function CountChanged(runs: seq<Run>): (n: nat)
    ensures n <= |runs|
    decreases |runs|
  {
    if |runs| == 0 then 0
    else CountChanged(runs[..|runs| - 1]) + (if Changed(runs[|runs| - 1].outcome) then 1 else 0)
  }

  /** `runs` are the runs of `repos`, one each, in order. */
  ghost predicate IsBatch(cfg: Config, repos: seq<RepoInput>, runs: seq<Run>, unicodeAlnum: char -> bool)
  {
    && |runs| == |repos|
    && forall k {:trigger RepoRun(cfg, repos[k], unicodeAlnum)} | 0 <= k < |repos| ::
         runs[k] == RepoRun(cfg, repos[k], unicodeAlnum)
  }

  lemma BatchRuns(cfg: Config, repos: seq<RepoInput>, unicodeAlnum: char -> bool) returns (all: seq<Run>)
    ensures IsBatch(cfg, repos, all, unicodeAlnum)
  {
    all := seq(|repos|, k requires 0 <= k < |repos| => RepoRun(cfg, repos[k], unicodeAlnum));
  }

  /**
   * The per-repository loop of `main`: every repository is processed (the
   * `processed` counter), and `changed` counts those whose pull request
   * exists or was created.
   */
  method RunAll(cfg: Config, repos: seq<RepoInput>, unicodeAlnum: char -> bool)
    returns (processed: nat, changed: nat, runs: seq<Run>, ghost all: seq<Run>)
    ensures IsBatch(cfg, repos, all, unicodeAlnum) && runs == all
    ensures processed == |repos| && changed == CountChanged(runs)
  {
    all := BatchRuns(cfg, repos, unicodeAlnum);
    processed, changed, runs := 0, 0, [];
    while processed < |repos|
      invariant processed <= |repos| && runs == all[..processed]
      invariant changed == CountChanged(runs)
    {
      var run := ProcessRepoAt(cfg, repos, processed, all, unicodeAlnum);
      processed, changed, runs := Record(all, processed, changed, runs, run);
    }
    assert all[..processed] == all;
  }

  /** After a repository was processed: count it, and count it as changed when its pull request is there. */
  method Record(ghost all: seq<Run>, processed: nat, changed: nat, runs: seq<Run>, run: Run)
    returns (processed': nat, changed': nat, runs': seq<Run>)
    requires processed < |all| && runs == all[..processed] && changed == CountChanged(runs) && run == all[processed]
    ensures processed' == processed + 1 && runs' == all[..processed'] && changed' == CountChanged(runs')
  {
    assert (runs + [run])[..processed] == runs;
    runs' := runs + [run];
    changed' := if Changed(run.outcome) then changed + 1 else changed;
    processed' := processed + 1;
  }

  /** Repository `i` of the batch. */
  method ProcessRepoAt(cfg: Config, repos: seq<RepoInput>, i: nat, ghost all: seq<Run>, unicodeAlnum: char -> bool)
    returns (run: Run)
    requires i < |repos| && IsBatch(cfg, repos, all, unicodeAlnum)
    ensures run == all[i]
  {
    run := ProcessRepo(cfg, repos[i], unicodeAlnum);
  }
}
