# A verified model of the lancache monitor's stores

The monitor keeps three kinds of state: `rate-limit.conf`, a text file it uses as a database of per-address
rules; an aggregator that turns access-log lines into SQLite rows; and a live tracker of recent activity. This
project models them, and the small rate converter of the override dialogs, and proves what they are for.

**The rate-limit file** (`overrides.go`, `ratelimit.go`, and the endpoints of `handlers.go`). Text is `seq<char>`.
The regular expressions are greedy scanners proved sound and complete (`Regex.dfy`, `Patterns.dfy`). `Document.dfy`
says what each operation computes, `RateLimitDoc.dfy` and `Handlers.dfy` run it the way the program does (line
loops, upserts, the in-place compaction, the trimming loops, install and roll back), and the other files prove what
the operations mean: the parse / edit / print / install loop is a plain map from addresses to rules with one global
rate, over every run and every behaviour of nginx and docker; which requests are accepted can be told without the
file; the user's own text survives; and nginx gives every client the rate that map says (`Meaning.dfy`) and exempts
exactly the clients it exempts (`Exemption.dfy`). `Limits.dfy`, `SplitLine.dfy` and `Quotes.dfy` say exactly where this
ends, `Mishaps.dfy`, `MovedRegions.dfy` and `QuotingFiles.dfy` hold files on which it does, with the accepted requests
that show it, and `Samples.dfy` shows that the stock file is one the theorems speak about. What is read and what is
printed is also stated on the characters of the text alone, without the functions that compute it: `LineShapes.dfy`,
`FileReadings.dfy`, `ValueReadings.dfy` and `PrintedText.dfy`.

**The aggregator** (`aggregator.go`). `Aggregation.dfy` is the state machine of ingest, timer flush, close, clear and
the three separate deletes of retention, where every flush and clear may fail; a ledger says which lines are stored,
pending or dropped. `RowSums.dfy`, `Queries.dfy` and `Reports.dfy` relate the tables to each other, the dashboard's
queries to each other, and both to the log lines; `LineSums.dfy` states the counters as plain sums and numbers of
lines. `Aggregator.dfy` runs the machine with buckets updated in place and
transactions whose every call may fail.

**The live tracker** (`live.go`). `LiveTracking.dfy` proves each entry to be the fold of its own lines since it last
went away; `LiveTracker.dfy` runs it.

**The rate converter** (`templates/layout.html`). `LcmRate.dfy`, against the validator of the Go side.

## What is assumed

- Requests are served one at a time; a write installs all of its content or nothing; a roll-back succeeds
  (`restoreOk`). Reading, writing, nginx and docker are the parameter `World`, with every outcome allowed.
- The address validator is a parameter. A request is admissible (`Endpoints.Admissible`) if an accepted address is
  written with the characters of the entry pattern, raw content is well formed, and, where the request sets the user's
  `limit_rate` directive (the global rate of an unmanaged file), the text of that directive is not quoted earlier in
  the file. `Limits.AddressSurvivesIff` and `Quotes.TakesEffectIff` show these conditions to be exact. A migration may
  find the directive quoted: the map it leaves is the same (`QuotedMigration.MigrateStaysWellFormed`), but it edits the
  quote. Where that matters, for the rates nginx applies and for the block's own values, requests are required to be
  effective (`Endpoints.Effective`). `Survival.AdmissibleFromStart` gives both conditions for a whole run in terms of
  the initial file and the requests.
- A well-formed file (`Endpoints.WellFormedFile`) is a condition on the text alone; what is read from any text is in
  order and consistent (`Parsed.ParsedAgrees`). The first `geo $rate_limit` block starts after the managed region, and
  no directive is on a line its body touches: printing needs this to keep the directives
  (`Limits.DirectivesSurviveIff`), and it puts the first one apart from the block (`RoundTrip.SilentIsApart`). In a
  managed file the begin marker starts a line, no marker occurs in the text in front of it, and the global rate is one
  token without a closing brace. In an unmanaged file not both markers occur, and the first directive has such a value.
  Every operation keeps it, and so does printing; a quoted directive is no obstacle to either.
- For the rates nginx applies (`Meaning.Workable`): the file has a directive; an unmanaged one holds a literal rate; a
  managed one's directive names the effective-rate variable, and the text in front of the region, if any, does not
  itself declare `geo $lcm_rate_override` or `map $lcm_rate_override`. No rate is quoted or names the override variable.
  Raw saves keep to this. A managed region edited by hand counts from the next accepted request on, which prints it anew.
- Meaning under nginx (`Nginx.dfy`): a later entry for a key wins, quotes are dropped, a map result naming a variable
  is that variable's value. Addresses are exact keys. In the user's block, comments are whole lines
  (`Exemption.IsComment`).
- Log lines have a minute other than 0, which the program takes for "no bucket" (`Aggregation.TablesAreGroupByIff`).

## Where the code does less than its comments or its purpose

- `overrides.go:385-388` promises that everything outside the markers and the exempt entries is preserved. The printer
  adds one blank line after the end marker (`Survival.RunKeepsUserText`). It also drops every line of the block that is
  neither blank, a comment, a `default` line nor a zero entry (`Limits.BlockLosesNothingIff`): clearing any rule
  removes a line that denies an address (`Mishaps.ClearDropsLine`), and a directive in the block's body is lost in any
  print (`UserText.RewriteKeepsSpeakingIff`).
- `overrides.go:335-340` and `overrides.go:363-380` find a directive by pattern but edit the first occurrence of its
  text. The edit takes effect if and only if that text is not quoted earlier (`Quotes.TakesEffectIff`). A comment that
  quotes the directive is migrated in its place, and from then on no accepted rule changes any client's rate
  (`QuotingFiles.CommentIsMigratedInstead`, `QuotingFiles.AcceptedRuleHasNoEffect`). Setting a rate that a comment
  quotes works once and leads there (`QuotingFiles.QuotedRateIsSet`).
- `overrides.go:404-407` cuts the rewritten text at the old length. With the block in front of the region the region
  stays in place only if the body keeps its length (`Limits.CutIsRightIff`). A longer body pushes it into the user's
  lines: an accepted rule turns a commented-out directive into a live one (`MovedRegions.RegionSplitsLine`). Pushed into
  the block, it cuts an entry, and the rest of the address is exempt in its place (`SplitLine.SplitEntryIs`,
  `MovedRegions.OtherAddressIsExempt`). A much shorter body ends the program (`Limits.CutAtOldLength`). The rates are
  read back all the same (`Limits.CutIsReadBack`).
- `overrides.go:272-283` accepts addresses with a zone, which the entry pattern of `overrides.go:48` does not read: such
  a rule is accepted, printed and lost (`Mishaps.ZoneRuleIsLost`).
- `overrides.go:292-294` says that an empty rate without the flag removes the entry; it stays in the document and is
  not printed (`RoundTrip.PrintThenParse`).
- An exempt rule is kept if and only if the file has the block (`Limits.ExemptSurvivesIff`). A comment that mentions it
  is enough for the sanity check of `ratelimit.go:34-42`, so a rule can be accepted and lost
  (`Mishaps.ExemptRuleIsLost`).
- A positive total below the number of connections becomes "0", which means unlimited
  (`LcmRate.SmallTotalsBecomeUnlimited`).

## Model

| member | source | states |
|---|---|---|
| Endpoints.RunRefinesMap | handlers.go:178-421 | over every run of admissible requests, with any reload outcomes, what the file says is the map and global rate folded over exactly the accepted requests, and the file stays well formed |
| Endpoints.StepRefines | handlers.go:250-421 | one request applies to the map if accepted and otherwise leaves the file byte for byte alone |
| Acceptance.AcceptedIff | handlers.go:178-421 | on a well-formed file with a directive and a block opened with one space, a request is accepted if and only if its address and rate are usable and reading, writing and reloading succeed; the file stays such a file |
| Acceptance.RawSaveIff | ratelimit.go:34-42 | raw content is accepted if and only if `geo $rate_limit` and `limit_rate` occur in it, it can be written and nginx takes it |
| Acceptance.RunIsExpected | handlers.go:178-421 | so over every run the file says the map and global rate folded over the usable requests made while the world played along, told without the file |
| Acceptance.PrintedIsSane | ratelimit.go:34-42 | what is printed for such a file passes the sanity check |
| Endpoints.WantedIff | handlers.go:250-421 | on a well-formed file an edit fails only for an invalid address or rate, or a missing directive |
| Endpoints.RefusedFor | handlers.go:250-421 | and which of the three it is: the missing directive before all else, then the address, then the rate |
| Endpoints.SettingsSurvive | overrides.go:389-442 | a document's settings survive printing and reading |
| Endpoints.FileIsLastAccepted | handlers.go:178-235 | for arbitrary contents, a run ends like the run of the events whose reload returned OK alone, and these are the accepted ones; the file is the content the last of them installed, or the initial one, and keeps passing the sanity check |
| Meaning.RunMeaning | overrides.go:411-432 | after every run that edits no quoted directive, raw saves included, each client gets its own override if it has one and the global rate otherwise, as nginx evaluates the file; where a region was edited by hand, from the next accepted request on |
| Meaning.LiveMeaning | overrides.go:411-432 | the same for one file, before or after migration |
| Meaning.MigrationKeepsRates | overrides.go:358-383 | migrating changes no client's rate, even when it edits a quote instead of the directive |
| Meaning.MigrateWires | overrides.go:374-382 | after migrating a file that does not quote its directive, the first directive names the effective-rate variable |
| Exemption.RunExempts | overrides.go:445-498 | after every run with an accepted request, without raw saves and edited quotes, nginx gives `$rate_limit` the value "0" for exactly the clients that the accepted requests exempt, and for everyone else the value of the user's own lines of the block, which are those of the file at the start |
| Exemption.PrintedExemption | overrides.go:483-496 | a printed block of comments, default lines and entries gives "0" to the exempt addresses and the user's default to everyone else |
| Exemption.PrintedBlockIs | overrides.go:390-400 | the first block of the printed file, managed region included, is the user's with the rewritten body |
| Nginx.PrintedMeaning | overrides.go:411-432 | the printed geo and map blocks evaluate to the override or the global rate for every key |
| RoundTrip.PrintThenParse | overrides.go:389-442 | printing then parsing a well-formed document gives back the same document with exactly the rules that carry something, in order, well formed again |
| RoundTrip.EmitPrints | overrides.go:389-442 | on well-formed documents printing never fails, and the cut at the old length is right |
| RoundTrip.DirectiveStaysPlaced | overrides.go:389-402 | rewriting the block keeps the first directive and its parts |
| FixedPoint.EmitIsFixedPoint | overrides.go:437-441 | a printed file is printed again byte for byte, without growth of blank lines |
| FixedPoint.UserTextSurvives | overrides.go:385-442 | in one print, whatever the rules, the text of a document is in the printed file byte for byte except the block's body and at most one blank line after the region |
| PrintedText.PrintSpelled | overrides.go:389-498 | the whole text printed for a well-formed document, character by character: the region line by line, the separating newline, and the user's text with a body whose visible lines are the comments and default lines in order and then one entry for every exempt rule |
| PrintedText.PrintWithoutRegion | overrides.go:389-404 | the same for any file without a region that has a block |
| PrintedText.PrintingFailsIff | overrides.go:389-426 | printing any document fails only with a region, if no global rate is known or the cut lies behind the end |
| PrintedText.RunKeepsOwnLines | overrides.go:459-481 | over every run without raw saves and edited quotes, the comments and default lines of the block stay, in order and as often as they were there |
| PrintedText.RegionSpelled | overrides.go:411-434 | the printed region, line by line |
| PrintedText.EntriesSpelled | overrides.go:416-421 | the entries of rates and of exempt addresses, with the address in a column of sixteen |
| PrintedText.EditedSpelled | overrides.go:335-340 | a rewritten directive keeps its indentation and has one space in front of its value and none behind |
| PrintedText.ValidRateIff | overrides.go:27 | a rate is valid exactly if it is "0" or digits without a leading zero and at most one of k, K, m, M |
| Survival.RunKeepsUserText | overrides.go:317-442 | over every run without raw saves, the text in front of the region and the user's lines of the block stay, and the rest of the user's text stays except for the value of the first directive of a file that was unmanaged and one newline after the region; if a migration in the run found the directive's text quoted, this holds up to it and from it on, and it changed the first occurrence of that text and nothing else |
| Survival.TextAroundIs | overrides.go:390-409 | the text those statements are about is the text read behind the region, with the entries taken out of the block's body |
| Survival.AdmissibleFromStart | overrides.go:335-340 | a run is admissible and edits no quote if its accepted addresses have the pattern's characters, roll-backs succeed, and neither the directive nor a rate that the run sets is quoted in front of the directive at the start |
| Parsed.ContentIsSplit | overrides.go:106-125 | every file that is read is, byte for byte, the text in front, the begin marker, the managed text, the end marker, at most one newline, and the text behind; or the text behind alone |
| Parsed.ParsedAgrees | overrides.go:103-181 | whatever the file contains, the rules read are strictly sorted with printable addresses and rates, the connection limit is the one the text states, and an unmanaged file has no rates and its directive's value |
| Parsed.EditsKeepOrder | overrides.go:295-353 | from any file and over any run of set and clear, the list stays strictly sorted and is the plain map with the same edits |
| FileReadings.ExemptIff | overrides.go:127-149 | in any readable file an address is read as exempt if and only if the first block of the user has a line made of white space, the address, white space, "0", white space, a semicolon and anything behind it |
| FileReadings.RateIff | overrides.go:204-219 | in any readable file an address has a rate if and only if the geo block of the region gives it that rate in the last of the address's lines |
| FileReadings.ReadingFailsIff | overrides.go:113-122 | a file cannot be read exactly if its region lacks the geo block or the block's braces, and which error it is |
| FileReadings.RegionIsRead | overrides.go:109-125 | a file whose first end marker comes after its first begin marker is cut around the two, and one newline behind them is dropped |
| FileReadings.NoRegionIsRead | overrides.go:122-125 | any other file is all the user's |
| FileReadings.BlockIff | overrides.go:44 | the block that is found is the first opening, spelled out, with the text up to the next closing brace |
| FileReadings.BracedIff | overrides.go:186-202 | the two blocks of the region are cut at the first braces behind the first occurrence of their names |
| ValueReadings.GlobalIff | overrides.go:151-166 | the global rate is the value of the first line of the empty key in the map block, without it the first `limit_rate` that does not name the variable, and without that there is none |
| ValueReadings.ConnLimitIff | overrides.go:168-177 | the connection limit is the number in the first `limit_conn perip` line if it is positive and fits 64 bits, and otherwise 10 |
| LineShapes.EntryIff | overrides.go:48 | a line gives an address and a value exactly if it has this shape, whatever is behind the semicolon |
| LineShapes.KeptIff | overrides.go:459-472 | the lines kept are the blank ones and those whose first visible characters are `#` or `default` |
| LineShapes.RateLineIff | overrides.go:31 | a line is a `limit_rate` directive with a value exactly if it is spelled like one |
| LineShapes.ConnLineIff | overrides.go:36 | the same for `limit_conn perip` |
| LineShapes.OpeningIff | overrides.go:44 | the same for the opening of the user's block |
| Samples.StockFileIsLive | ratelimit_test.go:10-25 | the stock file is well formed, recognizable, its rates take effect, and it says one exempt address and the rate 2500k |
| Samples.StockDefaultIsOne | ratelimit_test.go:10-18 | the stock block's own lines give everyone "1", so exempting makes a difference |
| Edits.SetOverrideKeeps | overrides.go:295-315 | well-formedness is kept and only the entry of the rule's address changes |
| Edits.ClearOverrideKeeps | overrides.go:345-353 | well-formedness is kept and exactly the address's entry goes |
| Edits.SetGlobalKeeps | overrides.go:321-342 | well-formedness is kept, and the document is the old one with the new global rate and, unmanaged, with its first directive's text replaced in place |
| Edits.MigrateKeeps | overrides.go:358-383 | well-formedness is kept, and the document is the old one, managed, with its first directive's text replaced in place |
| Edits.ReadingsAfterEdit | overrides.go:335-340 | rewriting the first directive changes the rate read and leaves the connection limit |
| Edits.ReplacedInPlace | overrides.go:374-382 | when the directive's text occurs nowhere earlier, the textual replacement edits exactly the directive |
| Quotes.DirectiveIsEditedIff | overrides.go:363-380 | the directive that was found is the one edited if and only if its text does not occur earlier |
| Quotes.TakesEffectIff | overrides.go:363-380 | after the edit the first directive has the new value if and only if its text was not quoted earlier; otherwise it is the old one |
| Quotes.StaysUnquotedIff | overrides.go:335-340 | after an edit that took effect, the next one takes effect if and only if the text just written is not quoted earlier |
| Quotes.QuotedStays | overrides.go:335-340 | when the text is quoted earlier, wherever on a line, the directive stays the first one and unedited |
| QuotedMigration.MigrateStaysWellFormed | overrides.go:358-383 | migrating keeps a document well formed, with its rules and global rate, whether its directive is quoted or not; if it is, the first directive stays the literal one |
| QuotedMigration.QuotedText | overrides.go:374-382 | the text with a quote edited, wherever it is, still has its block with its opening, its first directive and its connection limit |
| QuotedMigration.MigrateEditsQuote | overrides.go:374-382 | migrating a file that quotes its directive replaces the value in the first occurrence of the directive's text and nothing else of the text |
| QuotingFiles.CommentIsMigratedInstead | overrides.go:358-383 | a concrete family of sane files whose migration is accepted and edits a comment; over every later run every client gets the old literal rate |
| QuotingFiles.AcceptedRuleHasNoEffect | overrides.go:374-382 | in such a file a rule with its own rate is accepted and in the file, and its client still gets the literal rate |
| QuotingFiles.StaysIneffective | overrides.go:358-383 | a migrated file whose directive holds a literal rate gives every client that rate over every run |
| QuotingFiles.QuotedRateIsSet | overrides.go:335-340 | a concrete file in which setting a rate works and makes the next migration edit a comment |
| Limits.CutIsRightIff | overrides.go:404-409 | with the block in front, the region goes back to its place if and only if the kept lines and the new entries are together as long as the old body |
| Limits.CutAtOldLength | overrides.go:404-409 | with the block in front, printing runs past the end exactly if kept lines, new entries and the text behind are together shorter than the old body; otherwise the region is put at the old length |
| Limits.CutIsReadBack | overrides.go:103-181 | wherever the region was put, rates, global rate and the text around are read back, and the exempt rules too unless it was put inside the block and the line there was separated |
| SplitLine.SplitLineIsReadBack | overrides.go:127-149 | in that case an address is read as exempt exactly if it was and its entry is not the split line, or if the second half of that line is its entry |
| SplitLine.SplitEntryIs | overrides.go:48 | an entry cut in its address leaves the entry of the rest of the address, and one cut behind it leaves none |
| Limits.GrownCutIsClean | overrides.go:404-409 | if the body does not shrink, no marker gets in front of the region |
| MovedRegions.RegionSplitsLine | overrides.go:404-441 | a concrete file in which exempting an address is accepted and puts the region into a comment, whose second half is a directive |
| MovedRegions.OtherAddressIsExempt | overrides.go:404-441 | a concrete file in which exempting an address is accepted and another address is exempt afterwards |
| Limits.AddressSurvivesIff | overrides.go:272-283 | an accepted rule is read back if and only if its address has the entry pattern's characters |
| Mishaps.ZoneRuleIsLost | overrides.go:272-283 | an exempt rule for a link-local address with a zone is accepted, and no rule is read back |
| Limits.OnlyEntryIPsAreRead | overrides.go:48 | no other addresses are ever read, from any content |
| Limits.ExemptSurvivesIff | overrides.go:393-402 | an exempt rule of a document, managed or not, is read back from the printed file if and only if the text has the block |
| Mishaps.ExemptRuleIsLost | ratelimit.go:34-42 | a concrete sane file in which an exempt rule is accepted and leaves no trace |
| ManagedRead.ManagedTextIsRead | overrides.go:184-241 | the printed managed region is read back as its rates and its global rate |
| PrintedLines.EntryLineIsReadIff | overrides.go:48 | a printed entry is read back if and only if its address has the pattern's characters |
| PrintedLines.RulesAreReadBack | overrides.go:103-181 | rates and exempt entries read from the two blocks merge to exactly the rules that carry something |
| Rewrite.RewriteIsCanonical | overrides.go:448-498 | a rewrite keeps the user's lines and a second rewrite overrides the first completely |
| Rewrite.NewBodyEntries | overrides.go:482-488 | the new body's entries are exactly the exempt addresses, in order |
| Rewrite.UserLinesAre | overrides.go:459-481 | every comment and default line of the body survives, in order, no other visible line does, and blank lines are dropped at the ends only |
| Rewrite.LineSurvivesIff | overrides.go:459-488 | a visible line survives a rewrite if and only if it is a comment, a default line, or the entry of an address that is exempt |
| FileReadings.OwnLinesStay | overrides.go:459-488 | the visible lines of a rewritten body are the lines that start with `#` or `default`, in order and as often as before, followed by the exempt entries |
| FileReadings.LineStaysIff | overrides.go:459-488 | told from the characters of the lines, a visible line stays if and only if it is a comment, a default line, or the zero entry of an exempt address |
| Limits.BlockLosesNothingIff | overrides.go:445-472 | reading and printing a file loses no line of the block if and only if every visible line is a comment, a default line or a zero entry |
| Mishaps.ClearDropsLine | overrides.go:459-472 | a concrete file that loses a line when any rule is cleared |
| Rewrite.RewriteReplacesBody | overrides.go:448-498 | on a matched block the rewrite never fails and replaces exactly the body |
| UserText.RewriteKeepsSpeaking | overrides.go:389-402 | rewriting the block changes no line any directive is read from |
| UserText.RewriteKeepsSpeakingIff | overrides.go:445-472 | rewriting any block keeps the text's directives if and only if none is on a line the body touches, apart from one in front of an opening that ends its line |
| Limits.DirectivesSurviveIff | overrides.go:389-402 | the same for reading and printing any file without a managed region, which never fails |
| RoundTrip.SilentIsApart | overrides.go:31-44 | a first directive that is on no line of the block's body lies wholly in front of the block or behind it |
| Directives.FindLimitRateIs | overrides.go:31 | the first directive is found |
| Directives.FindLimitRateFound | overrides.go:31 | what is found is the first directive, and the text is put together from it |
| Directives.NoLimitRateIff | overrides.go:31 | nothing is found exactly when no line is a directive |
| Patterns.FindGeoIs | overrides.go:44 | a decomposition without an earlier opening is what the block pattern finds |
| Patterns.FindGeoFound | overrides.go:44 | what the block pattern finds is such a decomposition |
| Regex.MatchSound | overrides.go:27-48 | what the scanner returns is a reading of the pattern |
| Regex.MatchComplete | overrides.go:27-48 | a reading of a deterministic pattern is what the scanner returns |
| Overrides.PutIsMapUpdate | overrides.go:303-312 | an update touches the entry of its own address only |
| Overrides.WithoutIsMapRemoval | overrides.go:345-353 | a removal keeps the order and removes exactly one key |
| Overrides.SortKeepsMap | overrides.go:265-269 | sorting yields strictly increasing addresses and the same map |
| Overrides.LessIff | overrides.go:265-269 | the order is that of the first position at which two addresses differ, the shorter first |
| Overrides.AnySortAgrees | overrides.go:265-269 | every sort by address, stable or not, gives this list |
| Overrides.SameMapSameList | overrides.go:63-74 | the sorted list is determined by the map |
| RateLimitDocs.RateLimitDoc.UpsertRate | overrides.go:244-253 | the rate of the address's first entry is set, or an entry appended |
| RateLimitDocs.RateLimitDoc.UpsertExempt | overrides.go:255-263 | the same for the flag |
| RateLimitDocs.RateLimitDoc.SetOverride | overrides.go:295-315 | the new document, or the error and no change |
| RateLimitDocs.RateLimitDoc.ClearOverride | overrides.go:345-353 | compacting in place keeps exactly the other entries, in order |
| RateLimitDocs.RateLimitDoc.SetGlobal | overrides.go:321-342 | the new document and the error, which can come after the rate was set |
| RateLimitDocs.RateLimitDoc.Migrate | overrides.go:358-383 | the migrated document, or the error and no change |
| RateLimitDocs.RateLimitDoc.ParseDoc | overrides.go:103-181 | the loops over lines compute the document the content stands for |
| RateLimitDocs.RateLimitDoc.ParseManaged | overrides.go:184-241 | the same for the managed text |
| RateLimitDocs.RateLimitDoc.RewriteGeoRateLimit | overrides.go:448-498 | the filtering, trimming and printing loops compute the rewritten block |
| RateLimitDocs.RateLimitDoc.Emit | overrides.go:389-442 | the printing loops compute the printed file |
| Handlers.RateLimitFile.Write | ratelimit.go:67-81 | the content is installed exactly if it is sane and the write works, and the backup is the old content |
| Handlers.RateLimitFile.Restore | ratelimit.go:52-54 | the backup is back in the file |
| Handlers.App.SaveAndReload | handlers.go:178-235 | the new content if nginx took it, the old one otherwise |
| Handlers.App.HandleSave | handlers.go:159-173 | one step with raw content |
| Handlers.App.HandleOverrideSet | handlers.go:250-298 | one step that sets a rule, migrating first when a rate needs it |
| Handlers.App.HandleOverrideClear | handlers.go:300-340 | one step that clears a rule |
| Handlers.App.HandleGlobalSet | handlers.go:342-387 | one step that sets the global rate |
| Handlers.App.HandleMigrate | handlers.go:389-421 | one step that migrates |
| Aggregation.BucketInvariant | aggregator.go:127-176 | in every reachable state the bucket is the group-by of the pending lines, all of the current minute |
| Aggregation.TableInvariant | aggregator.go:207-270 | in every reachable state each table row is the group-by of the stored lines at every minute retention spared, and is there only if such a line is |
| Aggregation.NoRequestsNoLines | aggregator.go:207-210 | a bucket without requests holds no line and no entry, so skipping its flush loses nothing |
| Aggregation.NoLineForgotten | aggregator.go:113-198 | stored, pending and dropped lines are the ingested ones since the last clear, for every selection of lines |
| Aggregation.MinutesConserved | aggregator.go:190-256 | minute row plus bucket plus lines of failed flushes is the group-by of the log |
| Aggregation.HostsConserved | aggregator.go:229-240 | the same for every host |
| Aggregation.IPsConserved | aggregator.go:241-254 | the same for every address |
| Aggregation.NothingLost | aggregator.go:135-142 | without a failed flush no line is dropped |
| Aggregation.MinutesAreGroupBy | aggregator.go:127-198 | without a failed flush, minute row and bucket together are the group-by of the log |
| Aggregation.HostsAreGroupBy | aggregator.go:127-198 | the same for every host |
| Aggregation.IPsAreGroupBy | aggregator.go:127-198 | the same for every address |
| Aggregation.StoredThenPending | aggregator.go:113-198 | without a failed flush, the stored lines followed by the pending ones are the log itself, in order |
| Aggregation.ClosedTablesAreGroupBy | aggregator.go:114-123 | after a final Close the tables alone are |
| Aggregation.ClearIsAllOrNothing | aggregator.go:345-369 | a run ends like the run without its failed clears and without everything before its last successful clear: same tables, bucket and ledger |
| Aggregation.TablesAreGroupByIff | aggregator.go:114-142 | after a run without retention and failed flushes that ends with Close, the tables are the group-by of the lines since the last clear if and only if none of them has minute 0 |
| Aggregation.MinuteZeroIsMisfiled | aggregator.go:132-134 | a concrete run in which a line of minute 0 is counted in another minute |
| Aggregators.MinuteBucket.Count | aggregator.go:144-175 | one line is added to the total, its host and, if it has one, its address |
| Aggregators.Aggregator.FlushLocked | aggregator.go:207-256 | the whole bucket is merged into the three tables or, if any call fails, nothing is |
| Aggregators.UpsertOneMore | aggregator.go:229-254 | upserting entry by entry, in any order, builds the merge |
| Aggregators.Aggregator.Ingest | aggregator.go:127-176 | the Ingest step |
| Aggregators.Aggregator.Tick | aggregator.go:189-198 | the step of the flush timer |
| Aggregators.Aggregator.Close | aggregator.go:114-123 | the Close step |
| Aggregators.Aggregator.ClearAll | aggregator.go:345-369 | the ClearAll step, which resets the bucket only after the commit |
| Aggregators.Aggregator.ApplyRetention | aggregator.go:258-270 | the first one, two or three delete steps |
| RowSums.TablesAgree | aggregator.go:207-270 | in every reachable state, at a minute retention spared, the host rows sum to the minute row, and the address rows to it less the lines without an address |
| RowSums.IPsWithinMinute | aggregator.go:162-175 | address rows sum to at most the minute row, and to it if every line had an address |
| Queries.HourlyRefinesMinutes | aggregator.go:289-340 | hourly timestamps increase strictly and are multiples of 60, each row is the sum of its minute rows, no hour is missing, and both queries add up to SinceMinute |
| Queries.HourRow | aggregator.go:315-326 | an hourly row's timestamp is a multiple of 60 and its counters are the sum of the minute rows of its hour |
| Queries.HourHasRow | aggregator.go:315-326 | there is an hourly row for exactly the hours of the minute rows |
| Queries.HourlySums | aggregator.go:315-326 | the hourly rows add up to SinceMinute |
| Queries.MinuteRowsSum | aggregator.go:289-295 | so do the minute rows |
| Queries.TopHostsAreTop | aggregator.go:471-493 | at most n distinct hosts with their totals, in descending order, none omitted that is larger |
| Queries.TopIPsAreTop | aggregator.go:392-419 | the same for addresses, with their newest minute |
| Queries.TopIsTop | aggregator.go:403-404 | ordering and limit, for any grouped table and either sign of the limit |
| Reports.TotalsAreTallies | aggregator.go:446-459 | after a run without failed flushes that ends with Close, the totals over a range are those of the log lines themselves |
| Reports.HostsAreTallies | aggregator.go:471-480 | so are each host's totals, and the hosts listed are those with a line in range |
| Reports.IPsAreTallies | aggregator.go:392-405 | so are each address's totals and newest minute |
| Reports.HostTotalIsTally | aggregator.go:473-476 | a host is listed exactly if it has a line in range, with the bytes of its lines |
| Reports.IPTotalIsTally | aggregator.go:394-402 | the same for addresses, and lastTS is the newest minute of their lines |
| Reports.TopHostsAddUp | aggregator.go:446-493 | when the limit leaves none out, host totals add up to SinceMinute's bytes |
| LineSums.ClosedTablesSum | aggregator.go:144-175 | after a run without failed flushes that ends with Close, each row holds the bytes and the number of the lines of its minute, host or address, apart for those with status HIT or REVALIDATED and the others |
| LineSums.RangeTotalsSum | aggregator.go:392-493 | so do the totals over a range, its first minute included |
| LineSums.TallySums | aggregator.go:144-175 | the counters of any selection of lines are these sums and numbers |
| Queries.MinuteRowsAre | aggregator.go:289-295 | the minute rows are those of the table from the given minute on, that one included, in ascending order |
| Reports.RetentionKeepsAnswers | aggregator.go:258-270 | no delete step changes any query's answer for a range at or after its cutoff |
| Reports.RetentionDeletes | aggregator.go:258-270 | the three steps delete from each table exactly the rows older than the cutoff |
| LiveTracking.EntriesAreFolds | live.go:43-121 | each entry is the fold of its key's accepted lines since its last eviction or reset, and is there exactly if there is one |
| LiveTracking.SampleInvariant | live.go:55-66 | hits plus misses are the requests and the sum of the host counts, and topHost has the largest count |
| LiveTracking.TopHostLeads | live.go:63-66 | of the hosts with the largest count, topHost was the first to reach it |
| LiveTracking.FoldTally | live.go:55-62 | an entry's counters are the tally of its lines |
| LiveTracking.HostCountIsTally | live.go:63 | a host's count is the number of its lines |
| LiveTracking.HostFoldIsPart | live.go:68-80 | hosts are counted like addresses |
| LiveTracking.PresentIffLasting | live.go:43-121 | told from the events alone, an entry is there exactly if some accepted line of its key was followed by no other line of the key, no sweep with a later cutoff and no reset, and lastSeen is that line's time |
| LiveTracking.SumsAgree | live.go:43-105 | until the first eviction after a reset, bytes and requests over addresses and over hosts are those of the accepted lines |
| LiveTracking.LineCounts | live.go:43-81 | a line with bytes or a status adds one request and its bytes to its address and its host, and any other changes nothing |
| LiveTrackers.RowsSayLines | live.go:143-184 | a listed row has its key's bytes, number of lines, share of lines from the cache, last time and, for an address, a host that no other host exceeds, all told from the lines |
| LiveTrackers.LiveTracker.Track | live.go:43-81 | the Track step |
| LiveTrackers.LiveTracker.Sweep | live.go:107-121 | the Sweep step, deleting while walking the keys: the entries seen within the window stay |
| LiveTrackers.LiveTracker.Reset | live.go:100-105 | the Reset step |
| LiveTrackers.LiveTracker.SnapshotIPs | live.go:143-159 | every entry once, most bytes first |
| LiveTrackers.LiveTracker.SnapshotHosts | live.go:162-177 | every entry once, most bytes first |
| LiveTrackers.RatioInRange | live.go:179-184 | a listed hit ratio lies between 0 and 1 |
| LcmRate.ParseFormat | templates/layout.html:19-35 | parse reads back what format writes |
| LcmRate.ParseIff | templates/layout.html:19-28 | a text is understood as a number exactly if it is digits with an optional unit, 1024 for k or K and 1048576 for m or M, with white space around it |
| LcmRate.FormatSpelled | templates/layout.html:29-35 | a multiple of 1048576 is written in m, another multiple of 1024 in k, any other number as it is |
| LcmRate.ConversionsSpelled | templates/layout.html:36-47 | divide and multiply give the formatted quotient, rounded down, and product, and the empty text for one that is not understood or a factor 0 |
| LcmRate.NegativeFactor | templates/layout.html:30-47 | a negative factor gives the empty text, except for a zero rate |
| LcmRate.HalfOfOneMega | templates/layout.html:36-41 | for example, half of "1m" is "512k" |
| LcmRate.FormatIsValid | templates/layout.html:29-35 | everything format writes for a number passes the server's rate pattern |
| LcmRate.ValidRatesParse | overrides.go:27 | every rate the server accepts is understood, and only "0" is zero |
| LcmRate.MultiplyThenDivide | templates/layout.html:36-47 | multiplying and dividing gives the same number, in canonical form |
| LcmRate.DivideThenMultiply | templates/layout.html:36-47 | dividing and multiplying loses less than the factor, nothing exactly when it divides the total, everything exactly when the total is smaller |
| LcmRate.ConversionsAreValid | templates/layout.html:36-47 | what the dialogs compute is a rate the server accepts |
| LcmRate.SmallTotalsBecomeUnlimited | templates/layout.html:36-41 | a total turns into "0" exactly if it is below the factor |
| Decimal.PrintIsRead | templates/layout.html:23-34 | decimal numerals are read back |

## Left out

- Concurrency: the endpoints have no lock and are modelled one request at a time; the locks of the aggregator and the tracker make their steps atomic.
- The insides of the install step: the temporary file, the rename and the truncating fallback (`ratelimit.go:89-130`), which is not all-or-nothing.
- A roll-back that fails; the steps model it (`restoreOk`), the run theorems assume it away.
- Bytes: text is a sequence of characters, so order and lengths are those of Unicode text without encoding.
- The address syntax of `netip` and longest-prefix matching of CIDR ranges, which is nginx's.
- Endpoints.RunRefinesMap: raw saves must be of well-formed content, because nginx may accept a file this program cannot read; and a request that sets a directive must not find its text quoted earlier, because then the rate read stays the old one (`Quotes.TakesEffectIff`).
- Meaning.RunMeaning: what nginx makes of a managed region while it is as somebody wrote it by hand, because nginx's grammar is modelled only as far as the program prints it.
- Exemption.RunExempts: default lines with something behind their semicolon, and what nginx makes of a block before the program has printed it.
- Docker exec and its output: a reload is accepted, refused or in error.
- LiveTrackers.LiveTracker.Track: samples are values in the two maps rather than objects behind pointers, so sharing is not captured; the same holds for the host and address counters of a bucket.
- Integer width: counters are unbounded, and the converter's numbers exact, as they are below 2^53.
- Aggregators.Aggregator.Ingest: the error of a failed flush is its result here and only logged there.
- Reading an existing database, and opening one: a run starts with empty tables.
- The queries' failures, rounding of ratios, and the order of rows with equal totals, which is not specified.
- Clocks: the minute of a tick, the time of a sweep and the cutoff of retention are arguments.
- Log parsing and tailing, sign-in, pages, streams, charts, themes and configuration.
