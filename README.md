# TorrentExtractor, modelled in Dafny

TorrentExtractor is a background worker that watches a download folder. When a
finished torrent lands there, the worker:

- checks the path against whitelisted and blacklisted words;
- waits until the file's length stops changing between polls;
- picks a destination library from the release name;
- copies video files (`.mkv`, `.avi`, `.mp4`) into that destination, or extracts the entries of `.rar` and `.zip` archives there.

The destination comes from the release name's tokens:

- A season marker (`S01E10`, `Seasons`, `S3`, …) makes it a TV show, and the TV path becomes `library/show name/season`.
- A resolution marker (`UHD`/`2160P`/`4K`, `1080P`, `720P`) selects the library's path for that resolution.
- Without one, or when that path is blank, the library's default path applies.

The settings classes validate the configured paths and intervals and render them for the log.

This project models that core and proves its properties:

| file | models |
|---|---|
| `wrappers.dfy` | `Option`, `Result` and a `Validation` verdict: null values, exceptions and `ValidationException` |
| `text.dfy` | the .NET string operations the core uses, with their edge cases (null and white-space tests, ordinal and ignore-case `Contains`, `Split` with `RemoveEmptyEntries`, `FirstOrDefault`, `TrimEnd`, `string.Join`, integer formatting) |
| `file_paths.dfy` | `Path.GetFileName`, `Path.GetExtension` and `Path.Combine` with the Unix separator |
| `path_builder.dfy` | `PathBuilder.GenerateDestinationPath`. The `foreach` over the tokens is a method with a loop invariant, proved against a fold `Run`; lemmas then characterise `Run` in closed form |
| `worker.dfy` | `Worker`: <ul><li>the word filter;</li><li>the length-stability wait;</li><li>the worker's own older classifier, used by `ProcessAsync`, as a second loop;</li><li>the directory walk and extension dispatch, as methods proved against functions over an abstract file tree;</li><li>`ExtractAndMoveAsync`;</li><li>`ProcessAsync` with its catch-all</li></ul> |
| `settings.dfy` | `Settings.Paths`, `Settings.Core` and `Settings.General`: defaults, `Validate` and `ToString`. `Paths.ToString` builds its list step by step and is a method |

Modelling choices:

- **Strings and nulls.** Strings are `seq<char>`. A nullable C# string is an `Option<string>`, and string interpolation renders null as `""`.
- **I/O as inputs.** The file-system reads the core performs are inputs:
  - the successive `FileInfo.Length` readings, each with the cancellation flag seen on entry;
  - the tree found at the source path (`Node`), with every archive given as its list of `(key, isDirectory)` entries, or as "does not open".
- **Writes as effects.** File-system writes and log lines are a list of `Effect`s. An `Outcome` says whether the run reached its end or stopped at an exception.
- **Case folding.** Case-insensitive comparison is ASCII upper-casing.

Behaviours of the code a reader might not expect, all modelled as written:

- The `Seasons` token yields an empty season, not the range after it. So a season pack lands in `tv/show name`, as the test `GenerateSeasonPackTvPath` expects.
- `ProcessAsync` catches every exception, cancellation included. The first exception inside the walk aborts the rest of it; there is no per-item isolation.
- `ProcessAsync` computes the destination with the worker's private `GenerateDestinationPath`, not with `PathBuilder`. That copy has:
  - no `Season` prefix;
  - a `[0]`-based season chain;
  - no final `TrimEnd`.

  `Worker.LegacySeasonPackExample` shows the consequence: the same season pack goes to `/movies` there.
- An arrival that is a directory makes `new FileInfo(path).Length` throw, so in the code only single-file arrivals reach extraction, unless the path changes kind between the wait and `ExtractAndMoveAsync`. The model does not tie the readings to the arrival. A `Missing` reading fails (`Worker.NoLengthFails`), and a directory arrival with stable readings is walked. The model therefore also covers the directory arrivals that the code reaches only through such a race.

## Model

| member | source | states |
|---|---|---|
| PathBuilder.Tokenize | TorrentExtractor/PathBuilder.cs:13-15 | every token is non-empty and free of `.`, space and `/` |
| PathBuilder.TokenizeJoin | TorrentExtractor/PathBuilder.cs:13-15 | tokenizing the `.`-join of clean tokens gives back exactly those tokens (round trip) |
| PathBuilder.TokenizeEmpty | TorrentExtractor/PathBuilder.cs:13-15 | the empty path has no tokens |
| PathBuilder.TokenizeSameFileName | TorrentExtractor/PathBuilder.cs:13 | two paths with the same final component have the same tokens: only the file name is tokenized |
| PathBuilder.TokenizeFileNameOnly | TorrentExtractor/PathBuilder.cs:13-15 | the directory in front of the last `/` never contributes a token |
| PathBuilder.TokenizeJoinedPath | TorrentExtractor/PathBuilder.cs:13-15 | `dir/` followed by the `.`-joined tokens tokenizes to those tokens, whatever `dir` is |
| PathBuilder.SeasonOfSteps | TorrentExtractor/PathBuilder.cs:36-48 | the season is the chain of first-non-empty-piece splits on `Seasons`, `Season`, `E`, `e`, `EP`, `ep`, in that order |
| PathBuilder.SeasonLacksEpisodeMarker | TorrentExtractor/PathBuilder.cs:36-48 | the season never contains `E` or `e` |
| PathBuilder.SeasonOfEpisode | TorrentExtractor/PathBuilder.cs:36-48 | for `head` + `E` + `tail` with a non-empty `head` free of `E`/`e` and no `Season` in the token, the season is `head` (`S01E10` gives `S01`) |
| PathBuilder.SeasonOfSeasons | TorrentExtractor/PathBuilder.cs:36-48 | the token `Seasons` gives the empty season |
| PathBuilder.SeasonTokenStartsWithS | TorrentExtractor/PathBuilder.cs:26-33 | a season token starts with `S` or `s` |
| PathBuilder.NotSeasonToken | TorrentExtractor/PathBuilder.cs:26-33 | a token not starting with `S`/`s` is never a season token |
| PathBuilder.LookUpTierMissing | TorrentExtractor/PathBuilder.cs:52-86 | a token matching no case label falls to the `default` branch |
| PathBuilder.FullHdToken | TorrentExtractor/PathBuilder.cs:64-71 | `1080p` matches the `1080P` label once upper-cased |
| PathBuilder.NotTierToken | TorrentExtractor/PathBuilder.cs:52-79 | tokens of length 1 or more than 5, or starting with a letter none of the labels starts with, are not resolution tokens |
| PathBuilder.Finish | TorrentExtractor/PathBuilder.cs:92 | a null destination is a `NullReference` failure and nothing else is; otherwise the result is a prefix of the destination with no trailing `/`, and equals the destination when that had none |
| PathBuilder.GenerateDestinationPath | TorrentExtractor/PathBuilder.cs:11-93 | the method's result is `DestinationPath`, the fold of `Step` over the tokens followed by the trim |
| PathBuilder.Classify | TorrentExtractor/PathBuilder.cs:17-92 | the `foreach` loop over the carried state computes the fold `Run` of the tokens (loop invariant), then trims |
| PathBuilder.LastTier | TorrentExtractor/PathBuilder.cs:52-79 | the index found is a resolution token |
| PathBuilder.LastSeason | TorrentExtractor/PathBuilder.cs:26-35 | the index found is a season token |
| PathBuilder.NoTierAfterLast | TorrentExtractor/PathBuilder.cs:52-79 | no resolution token follows the last one |
| PathBuilder.NoSeasonAfterLast | TorrentExtractor/PathBuilder.cs:26-35 | no season token follows the last one |
| PathBuilder.LastTierAt | TorrentExtractor/PathBuilder.cs:52-79 | a resolution token with none after it is the last one |
| PathBuilder.LastSeasonAt | TorrentExtractor/PathBuilder.cs:26-35 | a season token with none after it is the last one |
| PathBuilder.StepFields | TorrentExtractor/PathBuilder.cs:35-89 | one token: appends itself to the name accumulator; sets `isTvShow` on a season token and never clears it; sets `validDestinationDir` on a resolution token and never clears it; a season token captures the accumulator as show name and its own season |
| PathBuilder.StepDestination | TorrentExtractor/PathBuilder.cs:52-86 | a resolution token sets the destination from that tier, falling back to the default; any other token recomputes the default destination, and only while no resolution token has been seen |
| PathBuilder.StepKeepsDestination | TorrentExtractor/PathBuilder.cs:80-86 | after a resolution token, a non-resolution token leaves the destination alone |
| PathBuilder.RunNames | TorrentExtractor/PathBuilder.cs:89 | after all tokens the accumulator is the tokens joined by spaces |
| PathBuilder.RunState | TorrentExtractor/PathBuilder.cs:17-89 | `validDestinationDir` holds iff some token is a resolution token; `isTvShow` iff some token is a season token; the show name is the space-joined tokens before the last season token, and its season that token's season (both empty when there is none) |
| PathBuilder.RunTvIff | TorrentExtractor/PathBuilder.cs:35 | `isTvShow` holds iff a season token occurs |
| PathBuilder.RunValidIff | TorrentExtractor/PathBuilder.cs:62 | `validDestinationDir` holds iff a resolution token occurs |
| PathBuilder.RunShow | TorrentExtractor/PathBuilder.cs:35-89 | `tvShowName` is the accumulator at the most recent season token and `tvShowSeason` is that token's season |
| PathBuilder.SeasonStepShow | TorrentExtractor/PathBuilder.cs:35-49 | a season token as the last token: it is the last season token, the name is everything before it, the season its own |
| PathBuilder.PlainStepShow | TorrentExtractor/PathBuilder.cs:35 | a non-season token keeps the show name, season and last season index |
| PathBuilder.RunDestination | TorrentExtractor/PathBuilder.cs:24-90 | the destination after all tokens equals the closed form `ExpectedDestination`: <ul><li>the show or movie path of the last resolution token's tier, as things stood at that token;</li><li>or, with no resolution token, the show or movie path of the defaults at the end</li></ul> |
| PathBuilder.TierStepDestination | TorrentExtractor/PathBuilder.cs:52-79 | the closed form holds after a resolution token |
| PathBuilder.PlainStepDestination | TorrentExtractor/PathBuilder.cs:80-86 | a non-resolution token keeps the closed form |
| PathBuilder.ExpectedKeepsTier | TorrentExtractor/PathBuilder.cs:80-82 | once a resolution token has been seen, a later non-resolution token leaves the expected destination unchanged |
| PathBuilder.ExpectedWithTier | TorrentExtractor/PathBuilder.cs:52-79 | with a last resolution token at `j`, the destination is decided by the tokens up to `j` |
| PathBuilder.RunShowOrMovie | TorrentExtractor/PathBuilder.cs:57-62 | the directory built from the carried state is the show path when a season token was seen, and the movie base otherwise |
| PathBuilder.MovieDestination | TorrentExtractor/PathBuilder.cs:52-86 | with no season token, the destination is the movie path of the last resolution token's tier, with the default as fallback, and `Movies.Default` when there is no resolution token |
| PathBuilder.ShowDestination | TorrentExtractor/PathBuilder.cs:35-90 | with a season token at `k` before the last resolution token `j`, the destination is `tvBase/name/season`, where `tvBase` is `j`'s TV tier path, name the tokens before `k` and season `k`'s season |
| PathBuilder.TierPrefixShow | TorrentExtractor/PathBuilder.cs:52-62 | for a resolution token seen after a season token, the destination is the TV tier path with the show name and season |
| PathBuilder.AfterLastTier | TorrentExtractor/PathBuilder.cs:52-86 | no token after the last resolution token is one |
| PathBuilder.ShowOrMovieLastSeason | TorrentExtractor/PathBuilder.cs:57-60 | with a season token, the show path is built from the last one |
| PathBuilder.LastSeasonOfPrefix | TorrentExtractor/PathBuilder.cs:35 | a season token with no season token after it inside a prefix is that prefix's last season token |
| PathBuilder.StickyDestination | TorrentExtractor/PathBuilder.cs:62-86 | after a resolution token, any run of non-resolution tokens keeps both the destination and `validDestinationDir` |
| PathBuilder.FlagsStaySet | TorrentExtractor/PathBuilder.cs:35-62 | `isTvShow` and `validDestinationDir`, once set, stay set for any further tokens |
| PathBuilder.RunSnoc | TorrentExtractor/PathBuilder.cs:24-90 | one more token is one more step of the fold |
| PathBuilder.RunLast | TorrentExtractor/PathBuilder.cs:24-90 | appending a token is one more step of the fold |
| PathBuilder.DestinationOfFileName | TorrentExtractor/PathBuilder.cs:13 | the destination depends only on the final path component |
| PathBuilder.NoTokensNoDestination | TorrentExtractor/PathBuilder.cs:21-92 | with no tokens the result is the empty string |
| PathBuilder.FailureFromMoviePath | TorrentExtractor/PathBuilder.cs:52-92 | the method throws iff the result would be a movie and the chosen movie path (tier, then `Default`) is null |
| PathBuilder.ExpectedNone | TorrentExtractor/PathBuilder.cs:52-86 | the closed form is null iff the chosen movie base is null and no season token decided a show path |
| PathBuilder.ShowOrMovieNone | TorrentExtractor/PathBuilder.cs:57-60 | the show-or-movie directory is null iff there is no season token and the movie base is null |
| PathBuilder.DestinationOfJoinedTokens | TorrentExtractor/PathBuilder.cs:11-93 | a path `dir/` + tokens joined with `.` is classified by running the tokens |
| PathBuilder.MovieExample | TorrentExtractor.Tests/PathBuilderShould.cs:42-57 | `/src/Testing.2025.1080p.WEB.h264-Testers` goes to `/movies` |
| PathBuilder.MovieExampleRun | TorrentExtractor/PathBuilder.cs:64-71 | `1080p` with no `Res1080P` falls back to `Movies.Default` |
| PathBuilder.EpisodeExample | TorrentExtractor.Tests/PathBuilderShould.cs:24-40 | the episode test's full path, whatever directory precedes the file name, goes to `/tv/The Test/S01` |
| PathBuilder.EpisodeExampleRun | TorrentExtractor/PathBuilder.cs:36-71 | the tokens of `The.Test.S01E10.1080p…` give the destination `/tv/The Test/S01` |
| PathBuilder.EpisodeExampleSeason | TorrentExtractor/PathBuilder.cs:36-48 | `S01E10` has season `S01` |
| PathBuilder.EpisodeExampleTier | TorrentExtractor/PathBuilder.cs:64-71 | the last resolution token of the episode is `1080p` |
| PathBuilder.EpisodeExampleLastSeason | TorrentExtractor/PathBuilder.cs:26-35 | the episode's season token is `S01E10` |
| PathBuilder.SeasonPackExample | TorrentExtractor.Tests/PathBuilderShould.cs:8-22 | `/src/The.Test.Seasons.1-8.1080p…` goes to `/tv/The Test` |
| PathBuilder.SeasonPackExampleRun | TorrentExtractor/PathBuilder.cs:26-71 | before the trim, the season pack's destination is `/tv/The Test/` (empty season) |
| PathBuilder.SeasonPackExampleFinish | TorrentExtractor/PathBuilder.cs:92 | trimming removes that trailing `/` |
| PathBuilder.SeasonPackExampleSeason | TorrentExtractor/PathBuilder.cs:36-48 | `Seasons` has the empty season |
| PathBuilder.SeasonPackExampleLastSeason | TorrentExtractor/PathBuilder.cs:26-35 | the season pack's season token is `Seasons` |
| Worker.Filter | TorrentExtractor/Worker.cs:126-151 | `NotWhitelisted` iff the whitelist is non-empty and no entry occurs in the path ignoring case; `Blacklisted` only when a blacklist entry occurs |
| Worker.AcceptedIff | TorrentExtractor/Worker.cs:126-151 | a path goes on iff (the whitelist is empty or one of its words occurs) and no blacklisted word occurs |
| Worker.BlacklistWins | TorrentExtractor/Worker.cs:140-151 | a blacklisted word in the path stops it, whatever the whitelist matched |
| Worker.WhitelistedWordAccepts | TorrentExtractor/Worker.cs:126-138 | a path containing a whitelisted word passes the whitelist, and with no blacklisted word is accepted |
| Worker.FilterIgnoresCase | TorrentExtractor/Worker.cs:128-142 | upper-casing the path never changes the verdict |
| Worker.EmptyWordWhitelistsAll | TorrentExtractor/Worker.cs:126-131 | an empty whitelisted word matches every path |
| Worker.AwaitFileCopy | TorrentExtractor/Worker.cs:89-115 | the polls consumed are at most those given; each delayed poll read a length different from its predecessor; the wait ends `Cancelled` on a poll with cancellation requested, `NotFound` on a missing file, `Stable` on a length equal to its predecessor, and `StillCopying` only when the polls ran out |
| Worker.ChangedAmongLengths | TorrentExtractor/Worker.cs:153 | from the sentinel −1, the first real length always differs, and every later poll is a change iff its length differs from the previous one |
| Worker.StableAtFirstRepeat | TorrentExtractor/Worker.cs:104-114 | from −1 over lengths, the wait ends `Stable` after `k` delays iff `k` is the first index whose length repeats its predecessor (so `k ≥ 1`) |
| Worker.CancelledBeforeReading | TorrentExtractor/Worker.cs:96-99 | a cancellation already requested on entry ends the wait with no delay and before any reading |
| Worker.LegacyPrefixes | TorrentExtractor/Worker.cs:181-186 | the worker's prefixes are `PathBuilder`'s without `Season` |
| Worker.LegacySeasonTokenIff | TorrentExtractor/Worker.cs:181-186 | a worker season token is exactly a `PathBuilder` season token that does not start with `Season` |
| Worker.LegacyTokenStartsWithS | TorrentExtractor/Worker.cs:181-194 | a worker season token starts with `S`/`s`, so the `[0]` indexing of the split chain is in range |
| Worker.LegacySeasonOf | TorrentExtractor/Worker.cs:188-194 | the chain's `[0]` pieces exist; the season starts like the token and holds no `E`/`e` |
| Worker.SplitHead | TorrentExtractor/Worker.cs:188-194 | `Split(sep)[0]` is the first item of a split without empty entries when the string does not start with the separator, and starts like the string |
| Worker.LegacySeasonAgrees | TorrentExtractor/Worker.cs:188-194 | without `Season` in the token, the worker's `[0]` chain and `PathBuilder`'s `FirstOrDefault` chain yield the same season |
| Worker.GenerateDestinationPath | TorrentExtractor/Worker.cs:166-238 | the worker's classifier returns its fold `LegacyDestination`, untrimmed and possibly null |
| Worker.LegacyClassify | TorrentExtractor/Worker.cs:179-237 | the worker's `foreach` loop computes the fold `LegacyRun` (loop invariant) |
| Worker.LegacyRunSnoc | TorrentExtractor/Worker.cs:179-235 | one more token is one more worker step |
| Worker.LegacyStepAgrees | TorrentExtractor/Worker.cs:179-235 | on a token both classifiers read alike (same season test and season), one step of each is the same |
| Worker.LegacyRunAgrees | TorrentExtractor/Worker.cs:179-235 | on such tokens, the two folds carry the same state |
| Worker.ClassifiersAgree | TorrentExtractor/Worker.cs:166-238 | on such names, `PathBuilder`'s result is the worker's result with trailing `/` trimmed |
| Worker.LegacyMovieRun | TorrentExtractor/Worker.cs:197-232 | with no worker season token, the name is never a show, `validDestinationDir` holds iff a resolution token occurs, and the destination is the movie base |
| Worker.NotLegacySeasonToken | TorrentExtractor/Worker.cs:181-186 | tokens without a leading `S`/`s` followed by `0`–`5` are not worker season tokens |
| Worker.LegacySeasonPackExample | TorrentExtractor/Worker.cs:181-194 | the season pack of the tests goes to `/movies` with the worker's classifier but to `/tv/The Test` with `PathBuilder`'s |
| Worker.LegacySeasonPackRun | TorrentExtractor/Worker.cs:179-235 | the worker's fold over the season pack ends at `/movies` |
| Worker.Then | TorrentExtractor/Worker.cs:257-380 | sequencing keeps the first run's effects as a prefix, completes iff both do, and stops at a first run that threw |
| Worker.EntryEffects | TorrentExtractor/Worker.cs:313-370 | one effect per archive entry |
| Worker.ExtractEntries | TorrentExtractor/Worker.cs:313-335 | the `while (reader.MoveToNextEntry())` loop produces the entry effects in order (loop invariant) |
| Worker.ExtractAndMoveFile | TorrentExtractor/Worker.cs:259-378 | the per-file dispatch method computes `WalkFile` |
| Worker.ExtractAndMoveRecursion | TorrentExtractor/Worker.cs:257-380 | the recursive walk method computes `Walk`: subdirectories first, then files |
| Worker.ExtractAndMoveFiles | TorrentExtractor/Worker.cs:271-274 | the `foreach` over files computes `WalkFiles`, stopping at the first exception (loop invariant) |
| Worker.SequenceSnoc | TorrentExtractor/Worker.cs:265-277 | one more item is one more sequencing step |
| Worker.EntryEffectsSnoc | TorrentExtractor/Worker.cs:313-335 | one more entry appends its effect |
| Worker.SequenceStops | TorrentExtractor/Worker.cs:265-277 | after an outcome that threw, the remaining items add nothing |
| Worker.SequenceIntoDestination | TorrentExtractor/Worker.cs:265-277 | a sequence of runs that all write into the destination writes only there |
| Worker.EntryEffectsIntoDestination | TorrentExtractor/Worker.cs:313-370 | archive entries are written only into the destination |
| Worker.FilesIntoDestination | TorrentExtractor/Worker.cs:271-274 | a list of files is written only into the destination |
| Worker.FileIntoDestination | TorrentExtractor/Worker.cs:279-378 | one file is written only into the destination |
| Worker.WalkFlattens | TorrentExtractor/Worker.cs:265-277 | every copy and extraction of the whole walk targets the one destination, so the tree is flattened |
| Worker.SequenceOne | TorrentExtractor/Worker.cs:265-277 | a one-item sequence is that item |
| Worker.ThenAssociative | TorrentExtractor/Worker.cs:265-277 | sequencing is associative |
| Worker.SequenceAppend | TorrentExtractor/Worker.cs:265-277 | sequencing two lists is sequencing their results |
| Worker.WalkFilesAppend | TorrentExtractor/Worker.cs:271-274 | walking two file lists one after the other is walking their concatenation |
| Worker.WalkFilesConcat | TorrentExtractor/Worker.cs:265-277 | walking a concatenation of file lists is sequencing their walks |
| Worker.WalkInPreOrder | TorrentExtractor/Worker.cs:265-277 | for named directories, the walk handles the files in pre-order: every subdirectory's files, depth first, before the directory's own |
| Worker.VideoIsCopied | TorrentExtractor/Worker.cs:281-304 | `.mkv`, `.avi`, `.mp4` files are copied to `destinationDir/<fileName>`, the copy keeping the file name |
| Worker.FileNameNotBlank | TorrentExtractor/Worker.cs:287 | a file with an extension has a non-blank file name, so the "Filename is empty" branch never fires |
| Worker.ExtensionNotBlank | TorrentExtractor/Worker.cs:259-263 | a path with an extension is never blank |
| Worker.OtherExtensionSkipped | TorrentExtractor/Worker.cs:374-378 | every other non-empty extension is only reported as unsupported |
| Worker.ArchiveEntriesInOrder | TorrentExtractor/Worker.cs:313-370 | the k-th effect is the k-th entry's, and it is an extraction iff the entry is not a directory |
| Worker.UnreadableArchiveThrows | TorrentExtractor/Worker.cs:306-373 | an archive that does not open ends the walk with an exception and no effect |
| Worker.Extraction | TorrentExtractor/Worker.cs:240-255 | a null or empty destination throws before anything; otherwise the destination is created first; a vanished source leaves only that |
| Worker.ExtractAndMove | TorrentExtractor/Worker.cs:240-255 | the method computes `Extraction` |
| Worker.Process | TorrentExtractor/Worker.cs:117-164 | skipped iff the filter rejects the path, with that verdict; processed only after a stable wait from −1; waiting only when the length was still changing |
| Worker.SkippedBeforeWaiting | TorrentExtractor/Worker.cs:126-151 | a rejected path is dropped before any wait or extraction: the outcome is independent of readings and disk |
| Worker.CancellationSwallowed | TorrentExtractor/Worker.cs:160-163 | a cancelled wait is caught and logged, with no effect |
| Worker.NoLengthFails | TorrentExtractor/Worker.cs:102 | a length that cannot be read is caught and logged, with no effect |
| Worker.ProcessedIntoDestination | TorrentExtractor/Worker.cs:153-158 | a processed arrival first created the worker's non-empty destination and wrote everything else into it |
| Worker.ExtractionIntoDestination | TorrentExtractor/Worker.cs:243-254 | after the directory creation, extraction writes only into the destination |
| Worker.NoDestinationFails | TorrentExtractor/Worker.cs:155-163 | a null or empty destination makes `CreateDirectory` throw, which is caught, with no effect |
| Paths.Validate | TorrentExtractor/Settings/Paths.cs:21-31 | the source message iff the source is null or white space; the movies message iff the source is fine and `Movies?.ResDefault` is not; the TV message iff both are fine and `TvShows?.ResDefault` is not; no other failure |
| Paths.ValidIff | TorrentExtractor/Settings/Paths.cs:21-31 | validation succeeds iff all three values are set and non-blank |
| Paths.ValidateReadsOnlyDefaults | TorrentExtractor/Settings/Paths.cs:21-31 | tier paths and blacklisted words never affect validation |
| Paths.FreshFails | TorrentExtractor/Settings/Paths.cs:9-14 | a freshly constructed `Paths`, with no source, fails on the source |
| Paths.ToString | TorrentExtractor/Settings/Paths.cs:33-60 | the method builds the entry list step by step and joins it with `", "` |
| Paths.AddTiers | TorrentExtractor/Settings/Paths.cs:37-55 | the conditional `Add`s append exactly the non-blank tier entries, in the order 2160P, 1080P, 720P |
| Paths.EntriesShape | TorrentExtractor/Settings/Paths.cs:35-57 | the entries are `Source=…` first, then the movie tier entries, `Movies--ResDefault=…`, the TV tier entries, and `TvShows--ResDefault=…` last: three fixed entries plus one per set tier |
| Paths.TierEntriesShape | TorrentExtractor/Settings/Paths.cs:37-55 | one entry per set tier, each `<Library>--Res<tier>=<path>`, in the order 2160P, 1080P, 720P |
| Paths.ToStringStartsWithSource | TorrentExtractor/Settings/Paths.cs:35 | the text starts with `Source=<Source>` |
| Paths.ToStringSplits | TorrentExtractor/Settings/Paths.cs:59 | when no entry has a comma, splitting the text on `", "` gives back the entries |
| Core.Validate | TorrentExtractor/Settings/Core.cs:12-16 | valid iff `FileCompareInterval ≥ 1`, otherwise the one message |
| Core.DefaultIsValid | TorrentExtractor/Settings/Core.cs:8-16 | the default interval is 15 and passes validation |
| Core.ToString | TorrentExtractor/Settings/Core.cs:18-21 | the text starts with `FileCompareInterval=` |
| Core.ToStringParses | TorrentExtractor/Settings/Core.cs:20 | what follows the key is a decimal that parses back to the interval |
| General.Validate | TorrentExtractor/Settings/General.cs:9-13 | valid iff `FileCopyDelaySeconds > 0`, otherwise the one message |
| General.DefaultIsInvalid | TorrentExtractor/Settings/General.cs:7-13 | the default delay 0 fails validation |
| General.ToString | TorrentExtractor/Settings/General.cs:15-18 | the text starts with `FileCopyDelaySeconds=` |
| General.ToStringParses | TorrentExtractor/Settings/General.cs:17 | what follows the key is a decimal that parses back to the delay |

## Left out

- **The watcher loop.** `Worker.ExecuteAsync` is not modelled: the `FileSystemWatcher`, the dedup bag and the delay loop are event plumbing and concurrency. A single `ProcessAsync` call is modelled.
- **Logging.** `CustomLogger.cs` is not modelled; it only formats console output and reads the clock. Log lines the walk emits are `Effect`s.
- **Program.cs and `Extensions.cs`.** The host set-up, dependency injection and configuration binding are not modelled. `Extensions.cs` holds only a size sum over a real directory, which the core does not call. The `WhitelistedWordsAsArray` and `BlacklistedWordsAsArray` properties that `ProcessAsync` reads are defined in no file of this revision. The model takes the two word lists directly in `WorkerSettings`, with no null entries.
- **Configuration shape.** The classifiers read `Movies`/`Tv` with a `Default` path. The settings file in this revision has `TvShows`/`ResDefault`. The classifiers therefore take their own `LibraryPaths` record, with the fields they read, and `Paths` is validated on its own fields.
- **Archive library internals.** `RarArchive.Open`, `ReaderFactory.Open` and `WriteToDirectory` are not modelled. An archive is its entry list, or "cannot be opened" (which throws). How an entry key extends the destination is not modelled.
- **File-system failures.** Failures other than the modelled ones (a throwing `CreateDirectory` on an empty or null path, an unreadable length, an unopenable archive) are not modelled: copy errors, permissions, a full disk. Files and directories are not re-read during the walk.
- **Culture.**
  - Culture-aware case folding (`InvariantCultureIgnoreCase`, `ToUpper`) is approximated by ASCII upper-casing.
  - Integer formatting in `Core.ToString` and `General.ToString` assumes a current culture whose negative sign is `-`. This matters only for negative values, which fail validation anyway.
- **Time.** The length of each `Task.Delay` and the `FileCompareInterval` it uses are not modelled; only the number of delays is.
- Worker.AwaitFileCopy: a cancellation that arrives during a delay is modelled only as seen at the next entry, not as the delay itself throwing. The outcome is the same `TaskCanceledException` caught in `ProcessAsync`.
- Worker.AwaitFileCopy: the readings form a finite sequence, so a file that never stops changing ends as `StillCopying` rather than waiting forever.
- **Null libraries.** The classifiers' two libraries (`LibraryPaths.movies` and `tv`, and `WorkerSettings.libraries` in the worker) are never null in the model; the `Paths` constructor sets them. The code dereferences `paths.Movies` on every movie name and `paths.Tv` on every show name (`PathBuilder.cs` lines 58-61 and each later switch arm; `Worker.cs` lines 203-206 and its later arms), so a null library would throw a `NullReferenceException`. In the worker that exception is caught by `ProcessAsync`. That case is not modelled; a null `Default` path is.
- **Integer widths.** `Core` and `General` are `int` bounded to the `Int32` range. Arithmetic on them never occurs. File lengths are unbounded integers; `long` overflow cannot arise in a comparison.
- **The tests.** `PathBuilderShould.cs` is not modelled as code. Its three cases are the example lemmas, over the classifier's `LibraryPaths`.
