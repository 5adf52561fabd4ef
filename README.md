# Bulk organisation-URL update, modelled in Dafny

`scripts_bulk_update_org_urls.py` walks the repositories of a GitHub
organisation. For each one it:

1. clones the repository;
2. scans its text files for an old organisation URL and for absolute
   `LICENSE` links (`https://github.com/<org>/<repo>/blob/<ref>/LICENSE` and
   the `raw.githubusercontent.com` form);
3. rewrites the old URL to the new one and those links to `./LICENSE`;
4. commits on a branch named after the change;
5. pushes the branch, through a fork when it cannot push to the upstream or
   when that push fails;
6. opens a pull request.

This project models that core. It is split into one module per part of the
script:

| module | file | models |
|---|---|---|
| `Wrappers` | `wrappers.dfy` | `Option` |
| `Text` | `text.dfy` | `str.count` and `str.replace` (leftmost, non-overlapping, empty pattern included); `str.lower()` and the `re.IGNORECASE` comparison on the characters the patterns meet |
| `Encoding` | `encoding.dfy` | strict UTF-8 and latin-1 decoding and encoding, universal newlines, `read_text_with_fallback`, `write_text` |
| `Branch` | `branch.dfy` | `sanitize_branch_name` |
| `LicenseLinks` | `license_links.dfy` | the two license-link patterns as a direct matcher, with `subn` and `findall` over it, and `convert_license_links` |
| `Repository` | `repository.dfy` | the clone's files in walk order and the pruning of `DEFAULT_SKIP_DIRS` |
| `Classifier` | `classifier.dfy` | the 5 MiB cap, `Path.suffix`, `TEXT_LIKE_EXTS`, `BINARY_EXTS`, `is_probably_text_file` |
| `Scanner` | `scanner.dfy` | `scan_repo` |
| `Rewriter` | `rewriter.dfy` | `replace_old_urls`, and `apply_replacements` rewriting the clone in place |
| `Fork` | `fork.dfy` | `ensure_fork` |
| `Workflow` | `workflow.dfy` | how `main` selects repositories; `can_push_to_repo`; the branch name; `ensure_branch` and `commit_all` as decisions; the commit message and pull-request text; the per-repository loop and the batch counters |

**Inputs.** Git and GitHub are not called. Every answer they give is an input:
- whether the clone, checkout, add, commit and push succeed;
- the permissions;
- the fork lookups;
- the open pull requests;
- the typed confirmation.

**Traces.** Processing one repository returns how it ended (`Outcome`) and
the trace of `Action`s it asked of git and GitHub. The trace includes the
commit message and the pull-request title and body. The per-repository
properties are stated about that trace.

**Case folding.** Case-insensitive matching uses `Text.FoldChar`. It covers:
- ASCII capitals;
- `İ` and `ı`, which fold to `i`;
- `ſ`, which folds to `s`;
- the Kelvin sign `K`, which folds to `k`.

These are the equivalences Python's `re.IGNORECASE` adds for the letters the
patterns contain. `str.lower()` is `Text.LowerChar`: ASCII capitals, and the
Kelvin sign to `k`.

## Model

| member | source | states |
|---|---|---|
| Branch.SanitizeBranchName | scripts_bulk_update_org_urls.py:88-92 | The loop collapsing `--` computes `Sanitized`. The result is non-empty, uses only alphanumerics and `._/-`, contains no `--`, and neither starts nor ends with `-` or `/`. |
| Branch.SanitizedWellFormed | scripts_bulk_update_org_urls.py:88-92 | For every input, the sanitised name is non-empty and well formed in the same sense, including the `update-urls` fallback. |
| Branch.SanitizedIdempotent | scripts_bulk_update_org_urls.py:88-92 | Sanitising a sanitised name changes nothing. |
| Branch.SanitizedIdentity | scripts_bulk_update_org_urls.py:88-92 | A name that is already well formed comes back unchanged. |
| Branch.SanitizedAsciiInput | scripts_bulk_update_org_urls.py:89 | On ASCII input the branch name uses only `[A-Za-z0-9._/-]`. |
| Text.PiecesLeftmost | scripts_bulk_update_org_urls.py:229-231 | The occurrences `str.count` and `str.replace` act on are the leftmost non-overlapping ones. No occurrence starts inside a piece between them, and none is in the last piece. |
| Text.ReplaceAllIsJoin | scripts_bulk_update_org_urls.py:231 | `str.replace` puts the new text exactly where those occurrences were and keeps the pieces between them. |
| Text.CountZeroIff | scripts_bulk_update_org_urls.py:229-230 | `str.count` is 0 exactly when the pattern does not occur. With an empty pattern it is never 0. |
| Rewriter.ReplaceOldUrls | scripts_bulk_update_org_urls.py:228-232 | The count is the number of separators in the leftmost split of the text by `old`. The text is that split joined with `new`. A zero count returns the text unchanged. |
| Rewriter.EmptyOldUrl | scripts_bulk_update_org_urls.py:228-232 | An empty `old` is counted `len(text) + 1` times, and `new` is inserted at each of those places. |
| LicenseLinks.MatchAtIff | scripts_bulk_update_org_urls.py:119-154 | The matcher returns a link at index `i` exactly when the text there is one the pattern accepts (`LinkAt`, stated piece by piece). |
| LicenseLinks.LinkAtUnique | scripts_bulk_update_org_urls.py:119-154 | At most one accepted link of each pattern starts at an index, so the match is deterministic. |
| LicenseLinks.SubnParse | scripts_bulk_update_org_urls.py:243-252 | `subn` is the rewrite of the unique leftmost non-overlapping parse of the text. The parse spells the text back, each link becomes `[caption](./LICENSE)`, and the count is the number of links. |
| LicenseLinks.SubnOneLink | scripts_bulk_update_org_urls.py:243-251 | A text that is exactly one well-formed link becomes its replacement, counted once. |
| LicenseLinks.DotlessCaptionConverted | scripts_bulk_update_org_urls.py:127-135 | A caption spelled `lıcense` (dotless i) is matched and converted, as `IGNORECASE` does. |
| LicenseLinks.ConvertLicenseLinksParses | scripts_bulk_update_org_urls.py:235-253 | The blob pass rewrites the parse of the text. The raw pass rewrites the parse of that result. The two counts are the number of links in each parse. |
| LicenseLinks.ConvertNothingUnchanged | scripts_bulk_update_org_urls.py:235-253 | With both counts zero the text comes back unchanged. |
| Classifier.SniffedIff | scripts_bulk_update_org_urls.py:95-106 | A file of allowed size whose suffix is not text-like is looked at exactly when all three hold: its lower-cased suffix is not in `BINARY_EXTS`, it can be read, and its first 4096 bytes contain no NUL. |
| Classifier.OversizedSkipped | scripts_bulk_update_org_urls.py:177-181 | A file larger than 5 MiB, or whose `stat` raises, is never looked at. |
| Classifier.TextLikeNotSniffed | scripts_bulk_update_org_urls.py:183-186 | A text-like suffix admits a file of allowed size whatever its contents. |
| Classifier.SniffSeesOnlyWindow | scripts_bulk_update_org_urls.py:100-103 | Bytes past the first 4096 never change the verdict. |
| Classifier.KelvinSuffixIsBinary | scripts_bulk_update_org_urls.py:96-97 | `str.lower()` turns the Kelvin sign into `k`, so a `.pKl` file is rejected as binary. |
| Classifier.UpperCaseBinarySuffix | scripts_bulk_update_org_urls.py:96-97 | The binary check ignores case and the text-like check does not: `.PNG` is binary but not text-like. |
| Classifier.DotFileHasNoSuffix | scripts_bulk_update_org_urls.py:183-184 | A dot-file such as `.gitignore` has no suffix, so it is sniffed rather than admitted as text-like. |
| Encoding.ReadTextWithFallback | scripts_bulk_update_org_urls.py:109-115 | The result is `None` exactly when the file cannot be read. Otherwise the codec is UTF-8 exactly when the bytes are strict UTF-8, and latin-1 otherwise. The text is the decoding with universal newlines applied. |
| Encoding.Utf8RoundTrip | scripts_bulk_update_org_urls.py:112 | Any text survives UTF-8 encoding then decoding. |
| Encoding.Utf8DecodeThenEncode | scripts_bulk_update_org_urls.py:112 | Bytes that decode as UTF-8 re-encode to the same bytes. |
| Encoding.Latin1RoundTrips | scripts_bulk_update_org_urls.py:110-112 | latin-1 decodes any bytes and encodes them back. Encodable text decodes back to itself. |
| Encoding.EncodeText | scripts_bulk_update_org_urls.py:300 | UTF-8 always encodes. latin-1 encodes exactly when every character is below U+0100. |
| Encoding.ReadBackUtf8 | scripts_bulk_update_org_urls.py:109-115 | Text written as UTF-8 without a carriage return reads back unchanged, with the UTF-8 codec. |
| Scanner.OldHits | scripts_bulk_update_org_urls.py:194 | The hit count is the leftmost non-overlapping count of the UTF-8 bytes of `old` in the raw bytes. |
| Scanner.ScanFile | scripts_bulk_update_org_urls.py:176-223 | A record is produced only for a walked, eligible, readable file with some hit, and always for one whose bytes contain `old`, or, with conversion on and `LICENSE`/`LICENCE` in the upper-cased bytes, whose decoded text has a blob or raw link. Its URL count is the byte count; its link counts are the `findall` counts of the two patterns on the decoded text, and both are 0 when conversion is off. |
| Scanner.ScanRepo | scripts_bulk_update_org_urls.py:158-225 | The walk leaves the checkout unchanged and returns `ScanSpec`, the map filled file by file in walk order. |
| Scanner.ScanResult | scripts_bulk_update_org_urls.py:216-223 | A path is in the result exactly when some walked file with that path produced a record. Its value is what one such file recorded. |
| Scanner.ScanCounts | scripts_bulk_update_org_urls.py:197-223 | Every recorded path comes from a walked, eligible, readable file with some hit; its URL count is that file's byte count of `old`, and with conversion on its link counts are the `findall` counts on the file's decoded text. |
| Scanner.OldHitRecorded | scripts_bulk_update_org_urls.py:197-223 | Every walked, eligible, readable file whose bytes contain `old` has its path in the result. |
| Scanner.ScanWithoutConvert | scripts_bulk_update_org_urls.py:197-214 | With conversion off, no result counts a license link. |
| Rewriter.Transform | scripts_bulk_update_org_urls.py:287-298 | The text changes only when something was counted. With conversion off, both link counts are 0. |
| Rewriter.ApplyReplacements | scripts_bulk_update_org_urls.py:256-309 | The corrected behaviour; see Findings. Every file ends as `ApplyFile` says: a file whose rewrite cannot be encoded is skipped and left as it was. `per_file` lists the written files with counts, in walk order. The totals are its column sums. |
| Rewriter.WrittenIff | scripts_bulk_update_org_urls.py:283-307 | A file is written exactly when it is walked and eligible, decodes, its text changes, it opens for writing, and the new text encodes in its codec. What is written is that encoding. |
| Rewriter.WrittenIffReported | scripts_bulk_update_org_urls.py:298-305 | A file is reported in `per_file` exactly when it was written. |
| Rewriter.UnwrittenUntouched | scripts_bulk_update_org_urls.py:298-307 | A file that is not written is left exactly as it was. |
| Rewriter.AsWrittenDiffers | scripts_bulk_update_org_urls.py:300 | The code as written differs from `ApplyFile` only by leaving an empty, unreported file. |
| Rewriter.TruncationExample | scripts_bulk_update_org_urls.py:300 | On a latin-1 file that gains U+0100, the code as written leaves the file empty, while `ApplyFile` leaves it untouched. |
| Fork.EnsureFork | scripts_bulk_update_org_urls.py:375-400 | The polling loop returns `EnsureForkSpec`. `create_fork` is called exactly when the first lookup misses. The number of lookups is one plus the polls made. |
| Fork.ExistingForkReused | scripts_bulk_update_org_urls.py:380-382 | An existing fork is returned as not created, without polling. |
| Fork.CreateFailureIsImmediate | scripts_bulk_update_org_urls.py:385-389 | A failing `create_fork` raises with its error, before any poll. |
| Fork.FirstVisibleForkWins | scripts_bulk_update_org_urls.py:391-396 | The first poll that sees the fork decides the result, marked as created, and no poll follows it. |
| Fork.NeverVisibleCarriesLastError | scripts_bulk_update_org_urls.py:393-400 | When no poll sees the fork, the error raised carries the last poll's error, or none if no poll ran. |
| Fork.ForkComesFromLookup | scripts_bulk_update_org_urls.py:375-400 | Any fork returned is one a lookup actually answered with. |
| Workflow.SelectRepos | scripts_bulk_update_org_urls.py:462-477 | The listing loop returns the first `limit` wanted repositories in listing order, or none when `limit <= 0`. Wanted means not archived unless included, not a fork, and not private when only public ones are asked for. |
| Workflow.NamedReposKeepsFound | scripts_bulk_update_org_urls.py:454-460 | With `--repos`, a repository whose lookup succeeds is never dropped. |
| Workflow.PermissionsDecide | scripts_bulk_update_org_urls.py:362-372 | `CanPushToRepo`: a permissions dictionary alone decides, through `push` or `admin`. The owner and the login are consulted only when there is none. |
| Workflow.UrlTail | scripts_bulk_update_org_urls.py:551-552 | The tail of a URL after its last `://` has no `/` left. |
| Workflow.BranchName | scripts_bulk_update_org_urls.py:551-553 | The branch name is non-empty, well formed and free of `--`, whatever the URLs and prefix. |
| Workflow.EmptyAnswerDeclines | scripts_bulk_update_org_urls.py:544-549 | Just pressing return at the confirmation declines. |
| Workflow.DecimalRoundTrip | scripts_bulk_update_org_urls.py:574-578 | The decimal rendering the messages use reads back as the same number. |
| Workflow.CommitMessageReportsTotals | scripts_bulk_update_org_urls.py:570-587 | The change line starts with `- Replaced ` exactly when the URL count is positive, and the count reads back from it. With conversion on and some link converted, the blob and raw counts read back from their line. |
| Workflow.PrBodyReportsTotals | scripts_bulk_update_org_urls.py:640-653 | All three totals read back from their lines of the pull-request body. |
| Workflow.SendsReport | scripts_bulk_update_org_urls.py:587-660 | Every commit in a run carries the report's message. Every pull request created carries the fixed title and the report's body. |
| Workflow.RunReportsTotals | scripts_bulk_update_org_urls.py:562-653 | In a whole run, the message committed and the body sent are built from the totals `apply_replacements` returned. |
| Workflow.EarlyExitTouchesNothing | scripts_bulk_update_org_urls.py:508-560 | A failed clone, empty scan, dry run or declined confirmation leaves only the clone (and scan) in the trace. Every later outcome switched to the branch right after the scan. |
| Workflow.LandSwitches | scripts_bulk_update_org_urls.py:553-598 | Past the confirmation, the next action is the switch to the branch, and no later outcome is an early exit. `EnsureBranch` (both checkouts, and where the branch starts) and `CommitAll` (add, staged, commit) decide the outcomes in between. |
| Workflow.ChangedOnlyAfterPush | scripts_bulk_update_org_urls.py:562-662 | A repository counts as changed only if four things hold: the scan found something, the totals are positive, `CommitAll` committed, and some push is in the trace. |
| Workflow.ForkBeforePush | scripts_bulk_update_org_urls.py:600-638 | In fork mode, every push goes to the fork after the fork is ensured. A fork is ensured only in fork mode or after the push to `origin` failed. |
| Workflow.PullHeadIsForkOwnerOrBranch | scripts_bulk_update_org_urls.py:600-660 | Every pull-request lookup and creation uses `<fork owner>:<branch>` when a fork was used and the bare branch otherwise, always against the default branch. |
| Workflow.ExistingPullNotRecreated | scripts_bulk_update_org_urls.py:655-662 | An open pull request with the same head and base means none is created. |
| Workflow.ProcessRepo | scripts_bulk_update_org_urls.py:493-666 | Processing one repository, with `prHead`, `pushRemote` and `useFork` updated as the source does, yields `RepoRun`: the outcome and trace every lemma above is about. |
| Workflow.RunAll | scripts_bulk_update_org_urls.py:489-662 | Every repository is processed, each independently. `changed` counts the runs whose pull request exists or was created. |

## Left out

- Git, GitHub, the network, `subprocess`, `sleep`, the temporary directory and its cleanup, `argparse`, the token, `https_url` and every `print`: their answers are inputs (`RepoEnv`, `FileEntry`) and their output is not modelled.
- Startup: `have_git`, the user lookup, the organisation lookup, and an exception while listing repositories all end the script with `sys.exit`. None of them is modelled; the model starts from the listing.
- `os.walk`: its order is the order of the file list in `Checkout`. Paths are the path below the clone root rather than the absolute `str(path)`; the two correspond one to one.
- The clone directory: removing an existing one before cloning is not modelled, and the clone's files are an input.
- An existing branch's tree is assumed to be the tree that was cloned and scanned.
- `Branch.SanitizeBranchName`: `str.isalnum()` beyond ASCII is a parameter (`unicodeAlnum`), because it depends on the Unicode database.
- `LicenseLinks.ConvertLicenseLinks`: `IGNORECASE` folding is modelled for ASCII and for `İ`, `ı`, `ſ` and `K`. For other non-ASCII characters, only identical characters match. Those characters can only matter in the repository name, and GitHub repository names are ASCII.
- `Text.LowerChar`: non-ASCII characters other than `K` are kept as they are. Their real lower-case forms are non-ASCII too, so no comparison with an ASCII literal can tell the difference.
- `Classifier.Suffix`: follows `Path.suffix` up to Python 3.12. A name ending in `.` has no suffix.
- `Workflow.Accepts`: `str.strip()` and `str.lower()` are exact for the whitespace `str.isspace()` accepts and for the letters `y`, `e` and `s`. An end of input at `input()` (which raises) is not modelled.
- `Workflow.CanPushToRepo`: `permissions` is modelled as an optional map to booleans. A permissions value that is not a dictionary, or whose entries are truthy non-booleans, is not distinguished.
- `Encoding.EncodeText`: writes `\n` as it is, i.e. `os.linesep` on POSIX. On Windows, `write_text` would write `\r\n`.
- `Fork.EnsureFork`: the 120-second deadline and the 2-second sleeps become the list of poll answers given before the deadline.
- `Workflow.RunAll`: the pull-request step catches only `GithubException`. Any other exception there (and any exception outside the guarded steps) ends the whole batch, but the model treats every repository independently and assumes such exceptions do not occur.
- The listing of the first 20 scan results and the summary printed per repository are output only and are not modelled.

## Findings

| source | as written | input that shows it | evidently intended | confidence | as-written member | corrected member |
|---|---|---|---|---|---|---|
| scripts_bulk_update_org_urls.py:300 | `path.write_text(text, encoding=enc)` opens the file with mode `"w"`, which truncates it, before encoding. When the new text cannot be encoded in latin-1, the `except` skips the file, which is left empty. | A latin-1 file with bytes `E9 61` (`éa`, not valid UTF-8), with old `a` and new `Ā` (U+0100). | The file is skipped and left as it was, like every other failed write. | not executed | Rewriter.ApplyFileAsWritten / Rewriter.TruncationExample | Rewriter.ApplyFile / Rewriter.UnwrittenUntouched / Rewriter.ApplyReplacements |
