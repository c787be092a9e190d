# awsrm, modelled in Dafny

awsrm is a small Go command-line tool that removes AWS resources. This
project models the three parts of it that hold logic of their own:

- **The bucket-name matcher.** The same loop is duplicated in the
  `awsrm s3 <term>` sub-command (`cmd/s3.go:57-70`) and the older
  stand-alone program (`main.go:82-95`); it is modelled once. It keeps,
  in the order the provider lists them, every bucket name that contains
  the lower-cased or the upper-cased search term.
- **The two runs that destroy buckets.** Each run is a method that
  records what it does to the outside world as a trace of events: list
  the buckets, prompt, look up a region, empty, delete, wait, dry-run
  report, exit. The method is proved equal to a specification function of
  the flags and the environment. The gating properties are lemmas about
  that function:
  - a "No" changes nothing;
  - quiet mode never prompts;
  - dry-run never mutates;
  - every `Delete` directly follows the `Empty` of the same bucket, in the
    same region;
  - buckets are deleted in match order;
  - the sub-command rebinds the session to each bucket's own region, while
    `main.go` uses one region throughout.
- **`ListVPCNames`** (`handlers/vpc.go`). It collects the value of every
  tag keyed exactly `Name` across the VPCs, then strips one trailing
  `-vpc` from each entry in place, in an array.

Every remote call is an opaque event. It succeeds or fails as the `Env`
value says:
- the listing fails;
- a bucket missing from the `regions` map is a failed region lookup;
- a bucket in `emptyFails` fails to empty;
- a bucket in `deleteFails` fails to delete.

A wait for absence may time out (`waitTimesOut`), but the program drops
the waiter's result. A lemma proves that the trace does not depend on it.
`exitErrorf` and `os.Exit` become an `Exit(code)` event that ends the trace.

The files:
- `text.dfy`: the ASCII subset of Go's `strings` package.
- `matcher.dfy`: the matcher.
- `effects.dfy`: events, the environment and trace predicates.
- `s3_command.dfy`: the sub-command.
- `legacy_main.dfy`: the older program.
- `vpc.dfy`: VPC name extraction.

The sub-command's per-bucket loop has no `os.Exit` after it. The closure
returns, Cobra's `Execute` (`cmd/root.go:35-37`) returns as well because
`cobra.CheckErr` is given no error, and the process ends with status 0
when `main` returns. That end is modelled as `Exit(0)`. In dry-run the
sub-command exits right after reporting the first matched bucket
(`cmd/s3.go:120`). The model keeps that behaviour as written, and
`S3Command.DryRunStopsAfterFirst` states it.

## Model

| member | source | states |
|---|---|---|
| Text.ToLower | cmd/s3.go:63 | `strings.ToLower` on ASCII: same length, no upper-case letter left, and every character is either kept or an upper-case letter replaced by its own lower-case letter |
| Text.ToUpper | cmd/s3.go:63 | `strings.ToUpper` on ASCII: same length, no lower-case letter left, and every character is either kept or a lower-case letter replaced by its own upper-case letter |
| Text.LowerAfterUpper | cmd/s3.go:63 | lower-casing after either case map equals lower-casing the original |
| Text.UpperAfterLower | cmd/s3.go:63 | upper-casing after either case map equals upper-casing the original |
| Text.ContainsIff | cmd/s3.go:63 | `strings.Contains(s, t)` holds iff `t` occurs in `s` at some offset |
| Text.TrimSuffix | handlers/vpc.go:32 | `strings.TrimSuffix`: with the suffix present the result plus the suffix is the input; otherwise the input is returned unchanged |
| Text.TrimSuffixOfAppend | handlers/vpc.go:32 | trimming a suffix undoes appending it |
| Matcher.MatchBuckets | cmd/s3.go:57-70 | the search loop returns exactly the matching names of the listing, in order |
| Matcher.MatchingInOrder | cmd/s3.go:57-70 | the i-th found name is the name at the i-th matching position; positions strictly increase; a position is listed iff its name matches |
| Matcher.MatchCount | main.go:82-95 | each matching name occurs in the result as often as in the listing, any other name not at all, so nothing is added twice |
| Matcher.MatchedIff | cmd/s3.go:60-69 | a name is found iff the provider lists it and it contains the lower- or upper-cased term |
| Matcher.EmptyTermMatchesAll | cmd/s3.go:63 | the empty term matches every bucket, so the result is the whole listing |
| Matcher.TermCaseIrrelevant | cmd/s3.go:63 | typing the term in lower or upper case gives the same matches |
| Matcher.MatchIsCaseInsensitive | cmd/s3.go:63 | a matched name contains the term case-insensitively |
| Matcher.MixedCaseNotMatched | cmd/s3.go:63 | `"App-Logs"` holds `"logs"` case-insensitively but is not matched by it |
| Matcher.LogsScenario | cmd/s3.go:57-70 | term `"logs"` over `app-logs-1`, `LOGS-ARCHIVE`, `other` keeps the first two, in order |
| Effects.DeletedBucketsIff | cmd/s3.go:155-162 | a bucket is listed as deleted iff the trace holds a `DeleteBucket` of it |
| S3Command.Run | cmd/s3.go:34-124 | the sub-command's run produces exactly the specified trace |
| S3Command.DestroyAll | cmd/s3.go:91-123 | the per-bucket loop, which rebinds the session to each bucket's region, produces exactly the specified trace of the loop |
| S3Command.DestroyFirst | cmd/s3.go:92-121 | one pass of the loop body emits the events of one bucket, reports whether the process exits, and rebinds the session to the bucket's looked-up region |
| S3Command.DestroyWellFormed | cmd/s3.go:91-123 | the loop ends with one `Exit`, pairs every `Empty` with the `Delete` that follows it, ends with `Exit(1)` right after any failing call, and exits with status 1 only right after a failing call, so an `Empty` is followed by `Exit(1)` only when emptying failed |
| S3Command.DestroyEffects | cmd/s3.go:101-115 | the loop empties or deletes only buckets it was given, never in dry-run, and always in the region looked up for that bucket |
| S3Command.DestroyOrder | cmd/s3.go:91-115 | the deleted buckets are a prefix of the given ones, and all of them, followed by `Exit(0)`, when no call fails |
| S3Command.DestroyIgnoresWait | cmd/s3.go:168-170 | the loop's trace does not depend on which waits time out |
| S3Command.WellFormed | cmd/s3.go:34-124 | every run lists first, ends with exactly one `Exit`, pairs every `Empty` with its `Delete`, ends with `Exit(1)` right after any failing call (the listing included), and exits with status 1 only right after a failing call |
| S3Command.NoMatchExitsCleanly | cmd/s3.go:73-76 | with no match the run lists and exits 0, before any prompt or change |
| S3Command.PromptIff | cmd/s3.go:78-89 | the prompt appears iff quiet mode is off, the listing succeeded and some bucket matched |
| S3Command.DeclineChangesNothing | cmd/s3.go:85-88 | answering "No" empties and deletes nothing and the run exits 0 |
| S3Command.OnlyApprovedMatchesChange | cmd/s3.go:91-115 | every `Empty`/`Delete` is of a listed, matching bucket, after quiet mode or a "Yes", outside dry-run, in that bucket's own looked-up region |
| S3Command.DryRunStopsAfterFirst | cmd/s3.go:116-121 | dry-run changes nothing, reports only the first matched bucket, and ends with its lookup, both reports and `Exit(0)` |
| S3Command.DeletesInMatchOrder | cmd/s3.go:91-123 | the deleted buckets are a prefix of the matches; with no failing call all matches are deleted and the run exits 0 |
| S3Command.DeletesInOrderAfterListing | cmd/s3.go:73-123 | the same, for any list the matcher returns, once the listing succeeded |
| S3Command.EmptyTermDeletesEverything | cmd/s3.go:33 | with no guard on the term, the empty term in quiet mode with no failure deletes every bucket of the account |
| S3Command.IgnoresWaitTimeouts | cmd/s3.go:168-170 | a run does not depend on whether waits for absence time out |
| LegacyMain.Run | main.go:17-144 | `main` produces exactly the specified trace |
| LegacyMain.DestroyAll | main.go:113-137 | the loop over confirmed buckets produces exactly the specified trace of the loop |
| LegacyMain.DestroyFirst | main.go:114-135 | one pass of the loop body emits the events of one bucket and reports whether a failure ended the run |
| LegacyMain.DestroyWellFormed | main.go:113-137 | the loop ends with one `Exit`, pairs every `Empty` with its `Delete`, ends with `Exit(1)` right after any failing call, and exits with status 1 only right after a failing call |
| LegacyMain.DestroyEffects | main.go:117-134 | the loop changes only buckets it was given, never in dry-run, always in the one configured region |
| LegacyMain.DestroyDryRun | main.go:113-137 | in dry-run the loop reports both actions for every bucket, in order, and exits 0 |
| LegacyMain.DestroyOrder | main.go:113-137 | the deleted buckets are a prefix of the given ones, and all of them, followed by `Exit(0)`, when no call fails |
| LegacyMain.DryRunReports | main.go:122-134 | the dry-run reports are two per bucket, entries 2i and 2i+1 being "would empty" and "would delete" for the i-th bucket |
| LegacyMain.DryRunReportsCover | main.go:122-134 | every bucket gets both dry-run reports and the reports change nothing |
| LegacyMain.WellFormed | main.go:17-144 | every run ends with exactly one `Exit`, pairs every `Empty` with its `Delete`, and ends with `Exit(1)` right after any failing call; once a term is given, it exits with status 1 only right after a failing call (the empty term is the one other status-1 exit) |
| LegacyMain.EmptyTermRejected | main.go:34-37 | an empty term exits 1 before any remote call or prompt |
| LegacyMain.NoMatchExitsCleanly | main.go:98-101 | with no match the run lists and exits 0, before any prompt or change |
| LegacyMain.PromptIff | main.go:103-108 | the prompt appears iff the term is given, the listing succeeded and some bucket matched; there is no quiet mode |
| LegacyMain.DeclineChangesNothing | main.go:138-143 | answering "No" changes nothing and the run exits 0 |
| LegacyMain.OnlyApprovedMatchesChange | main.go:62-71 | every `Empty`/`Delete` is of a listed, matching bucket, after a "Yes", outside dry-run, in the single configured region |
| LegacyMain.DryRunReportsAll | main.go:113-137 | confirmed dry-run is the listing, the prompt, both reports for every match in order, then `Exit(0)`, with no change |
| LegacyMain.DeletesInMatchOrder | main.go:113-137 | the deleted buckets are a prefix of the matches; with no failing call all are deleted and the run exits 0 |
| LegacyMain.DeletesInOrderAfterListing | main.go:97-137 | the same, for any list the matcher returns, once the listing succeeded |
| LegacyMain.IgnoresWaitTimeouts | main.go:195-197 | a run does not depend on whether waits for absence time out |
| Networks.CollectNames | handlers/vpc.go:21-29 | the nested loop collects the `Name` tag values in VPC order and then tag order |
| Networks.TrimInPlace | handlers/vpc.go:30-34 | the in-place pass replaces every entry with its trimmed form, keeping length and positions |
| Networks.ListVpcNames | handlers/vpc.go:10-35 | a failed describe exits 1; otherwise the result is the trimmed `Name` values |
| Networks.NameTagsAppend | handlers/vpc.go:22-29 | collecting over two runs of VPCs concatenates their names |
| Networks.OneVpc | handlers/vpc.go:24-27 | one VPC contributes exactly its `Name` tag values, and a tag with another key contributes nothing |
| Networks.NoNameTagNoEntry | handlers/vpc.go:24-27 | a VPC without a `Name` tag contributes nothing |
| Networks.CollectedIff | handlers/vpc.go:21-29 | a value is collected iff some VPC carries it under the key `Name` |
| Networks.NameValuesIff | handlers/vpc.go:24-27 | a value is taken from a VPC's tags iff it is tagged `Name` there |
| Networks.TrimOnce | handlers/vpc.go:32 | `a-vpc-vpc` becomes `a-vpc`, `a-vpc` becomes `a`, `acme` is unchanged |
| Networks.TrimTwiceIff | handlers/vpc.go:32 | trimming twice equals trimming once iff the name does not end in `-vpc-vpc` |
| Networks.TrimmedAt | handlers/vpc.go:31-34 | entry i of the result is the i-th name without one trailing `-vpc`, or the name itself without it |

## Left out

- The creation of AWS sessions and credentials is not modelled: `awsClient` (cmd/s3.go:173-190), `session.NewSessionWithOptions` (main.go:62-69) and handlers/aws.go. These are calls into the AWS SDK.
- The environment-variable setup at main.go:40-54 is left out. Its `os.Setenv` calls are taken to succeed.
- The SDK's batch delete, `DeleteBucket`, `WaitUntilBucketNotExists`, `GetBucketRegion`, `ListBuckets` and `DescribeVpcs` are opaque. Each one is an event, or the `Env` and `Described` inputs, that succeeds or fails as those inputs say.
- handlers/s3.go is not part of this model. It only repeats the SDK wrappers.
- The promptui selector (`yesNo`) is the boolean `answer`, standing for `result == "Yes"`. Its `log.Fatalf` on a prompt error is not modelled.
- Cobra and flag parsing, the version command and all printing and verbose output are left out. `--verbose` and `--profile` do not steer any run.
- `--safe` is declared (cmd/root.go:50) but nothing reads it. The VPC-collision skip is only a comment (cmd/s3.go:5), so the model has no such skip.
- Text.ToLower: ASCII only. Go's `strings.ToLower` also maps non-ASCII letters, and some of them to ASCII letters (the Kelvin sign U+212A becomes `k`, U+0130 becomes `i`). The term is typed by the user, so a non-ASCII term is case-mapped here only on its ASCII letters: the term `"\u212A"` matches every bucket holding `k` in Go, and no bucket with an ASCII name in the model.
- Text.ToUpper: ASCII only, for the same reason. Go maps, for example, the long s U+017F to `S` and the dotless i U+0131 to `I`, and the model does not.
- Go strings are byte strings. Here a character stands for one byte of an ASCII name.
- `exitErrorf` (cmd/root.go:68-74, main.go:147-153) and `handlers.ExitErrorf` (handlers/errors.go:9-15, called by `ListVPCs` at handlers/vpc.go:13) are modelled as exiting with status 1. If their write to stderr fails, the Go code returns and carries on instead. The model takes that write to succeed.
- The sub-command's dry-run branch opens a new session for the bucket's region before it reports (cmd/s3.go:102). Sessions are not modelled, so this shows only as the region lookup that precedes the report.
