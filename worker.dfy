/** The ingestion rules of `Worker`: which arrivals are processed, when a file
    counts as completely copied, where it goes (the worker's own older copy of
    the classifier) and what the extraction walk does with it. */
module Worker {
  import opened Wrappers
  import opened Text
  import opened FilePaths
  import PathBuilder

  // ---------------------------------------------------------------------------
  // The whitelist and blacklist

  /** Some word of the list occurs in the path, ignoring case:
      `words.Any(word => path.Contains(word, InvariantCultureIgnoreCase))`. */
  predicate AnyContained(words: seq<string>, path: string)
  {
    exists i :: 0 <= i < |words| && ContainsIgnoreCase(path, words[i])
  }

  /** How the word lists judge an arrival. */
  datatype FilterVerdict = NotWhitelisted | Blacklisted | Accepted

  /** The two guards at the top of `ProcessAsync`: a non-empty whitelist must
      have a word in the path, then no blacklisted word may be in it. */
  function Filter(whitelist: seq<string>, blacklist: seq<string>, sourcePath: string): (v: FilterVerdict)
    ensures v == NotWhitelisted <==> |whitelist| != 0 && !AnyContained(whitelist, sourcePath)
    ensures v == Blacklisted ==> AnyContained(blacklist, sourcePath)
  {
    if |whitelist| != 0 && !AnyContained(whitelist, sourcePath) then NotWhitelisted
    else if AnyContained(blacklist, sourcePath) then Blacklisted
    else Accepted
  }

  /** An arrival is processed exactly when the whitelist is empty or matches,
      and the blacklist does not. */
  lemma AcceptedIff(whitelist: seq<string>, blacklist: seq<string>, sourcePath: string)
    ensures Filter(whitelist, blacklist, sourcePath) == Accepted
            <==> (|whitelist| == 0 || AnyContained(whitelist, sourcePath)) && !AnyContained(blacklist, sourcePath)
  {
  }

  /** A blacklisted word rejects the path whatever the whitelist says. */
  lemma BlacklistWins(whitelist: seq<string>, blacklist: seq<string>, sourcePath: string, i: nat)
    requires i < |blacklist| && ContainsIgnoreCase(sourcePath, blacklist[i])
    ensures Filter(whitelist, blacklist, sourcePath) != Accepted
  {
  }

  /** A path that spells out a whitelisted word, in any case, gets past the
      whitelist; with no blacklisted word in it, it is processed. */
  lemma WhitelistedWordAccepts(whitelist: seq<string>, blacklist: seq<string>, i: nat, before: string, after: string)
    requires i < |whitelist|
    ensures Filter(whitelist, blacklist, before + whitelist[i] + after) != NotWhitelisted
    ensures !AnyContained(blacklist, before + whitelist[i] + after)
            ==> Filter(whitelist, blacklist, before + whitelist[i] + after) == Accepted
  {
    ContainsIgnoreCaseInfix(before, whitelist[i], after);
  }

  /** The verdict does not depend on the case of the path. */
  lemma FilterIgnoresCase(whitelist: seq<string>, blacklist: seq<string>, sourcePath: string)
    ensures Filter(whitelist, blacklist, Upper(sourcePath)) == Filter(whitelist, blacklist, sourcePath)
  {
    UpperIdempotent(sourcePath);
  }

  /** An empty word in the whitelist lets every path through it. */
  lemma EmptyWordWhitelistsAll(whitelist: seq<string>, blacklist: seq<string>, sourcePath: string, i: nat)
    requires i < |whitelist| && whitelist[i] == ""
    ensures Filter(whitelist, blacklist, sourcePath) != NotWhitelisted
  {
    assert OccursAt(Upper(sourcePath), Upper(whitelist[i]), 0);
  }

  // ---------------------------------------------------------------------------
  // Waiting for the copy to finish

  /** What one look at the arrival gives: the length of the file, or nothing
      because no file of that name exists (`FileInfo.Length` throws
      `FileNotFoundException`, which it also does when the path is a directory). */
  datatype Reading = Length(bytes: int) | Missing

  /** One call of `AwaitFileCopy`: whether cancellation has been requested by
      the time it starts, and what the length reading would give. */
  datatype Poll = Poll(cancellationRequested: bool, reading: Reading)

  /** How the wait ends: the length stopped changing, it raised
      `TaskCanceledException` or `FileNotFoundException`, or the given polls
      ran out while the length was still changing. */
  datatype WaitEnd = Stable | Cancelled | NotFound | StillCopying

  /** The end of the wait and the number of delays taken before it. */
  datatype WaitOutcome = WaitOutcome(end: WaitEnd, delays: nat)

  /** The length call `i` compares its reading with: the last length read
      before it, or the caller's `previousFileLength` when there is none (a
      later call only ever follows a length). */
  function PreviousLength(polls: seq<Poll>, previousFileLength: int, i: nat): int
    requires i <= |polls|
  {
    if i == 0 then previousFileLength
    else match polls[i - 1].reading
      case Length(n) => n
      case Missing => PreviousLength(polls, previousFileLength, i - 1)
  }

  /** Call `i` goes on to a delay and a further call: not cancelled, and it
      reads a length that differs from the one before. */
  predicate Changed(polls: seq<Poll>, previousFileLength: int, i: nat)
    requires i < |polls|
  {
    && !polls[i].cancellationRequested
    && polls[i].reading.Length?
    && polls[i].reading.bytes != PreviousLength(polls, previousFileLength, i)
  }

  /** `AwaitFileCopy(sourcePath, previousFileLength, …)` over the polls its
      calls make: cancellation is checked before the length is read, and a
      length that differs from the previous one means one more delay and a
      call with that length as the previous one. */
  function AwaitFileCopy(polls: seq<Poll>, previousFileLength: int): (r: WaitOutcome)
    ensures r.delays <= |polls|
    ensures r.end == StillCopying <==> r.delays == |polls|
    ensures forall i :: 0 <= i < r.delays ==> Changed(polls, previousFileLength, i)
    ensures r.end == Cancelled ==> polls[r.delays].cancellationRequested
    ensures r.end == NotFound ==> !polls[r.delays].cancellationRequested && polls[r.delays].reading.Missing?
    ensures r.end == Stable ==>
              && !polls[r.delays].cancellationRequested
              && polls[r.delays].reading.Length?
              && polls[r.delays].reading.bytes == PreviousLength(polls, previousFileLength, r.delays)
    decreases |polls|
  {
    if |polls| == 0 then WaitOutcome(StillCopying, 0)
    else if polls[0].cancellationRequested then WaitOutcome(Cancelled, 0)
    else match polls[0].reading
      case Missing => WaitOutcome(NotFound, 0)
      case Length(fileLength) =>
        if fileLength != previousFileLength then
          var rest := AwaitFileCopy(polls[1..], fileLength);
          ChangedShift(polls, previousFileLength, fileLength, rest.delays);
          PreviousLengthShift(polls, previousFileLength, fileLength);
          WaitOutcome(rest.end, rest.delays + 1)
        else WaitOutcome(Stable, 0)
  }

  /** The delays of the recursive call, one index lower, are delays of the
      call itself, after its own first delay. */
  lemma ChangedShift(polls: seq<Poll>, previousFileLength: int, fileLength: int, d: nat)
    requires |polls| > 0 && !polls[0].cancellationRequested && polls[0].reading == Length(fileLength)
    requires fileLength != previousFileLength && d <= |polls| - 1
    requires forall i :: 0 <= i < d ==> Changed(polls[1..], fileLength, i)
    ensures forall i :: 0 <= i < d + 1 ==> Changed(polls, previousFileLength, i)
  {
    PreviousLengthShift(polls, previousFileLength, fileLength);
    forall i | 0 < i < d + 1 ensures Changed(polls, previousFileLength, i) {
      assert Changed(polls[1..], fileLength, i - 1);
      assert polls[1..][i - 1] == polls[i];
    }
  }

  /** The recursive call sees the same previous lengths, one index lower. */
  lemma PreviousLengthShift(polls: seq<Poll>, previousFileLength: int, fileLength: int)
    requires |polls| > 0 && polls[0].reading == Length(fileLength)
    ensures forall i :: 0 <= i <= |polls| - 1 ==>
              PreviousLength(polls[1..], fileLength, i) == PreviousLength(polls, previousFileLength, i + 1)
  {
    forall i | 0 <= i <= |polls| - 1
      ensures PreviousLength(polls[1..], fileLength, i) == PreviousLength(polls, previousFileLength, i + 1)
    {
      PreviousLengthShiftAt(polls, previousFileLength, fileLength, i);
    }
  }

  lemma {:induction false} PreviousLengthShiftAt(polls: seq<Poll>, previousFileLength: int, fileLength: int, i: nat)
    requires |polls| > 0 && polls[0].reading == Length(fileLength) && i <= |polls| - 1
    ensures PreviousLength(polls[1..], fileLength, i) == PreviousLength(polls, previousFileLength, i + 1)
  {
    if i > 0 {
      assert polls[1..][i - 1] == polls[i];
      PreviousLengthShiftAt(polls, previousFileLength, fileLength, i - 1);
    }
  }

  /** Polls without cancellation that all read the length of a file. */
  predicate AllLengths(polls: seq<Poll>)
  {
    forall i :: 0 <= i < |polls| ==>
      !polls[i].cancellationRequested && polls[i].reading.Length? && polls[i].reading.bytes >= 0
  }

  /** Reading `i` differs from the one before it. */
  predicate Grew(polls: seq<Poll>, i: nat)
    requires AllLengths(polls) && 0 < i < |polls|
  {
    polls[i].reading.bytes != polls[i - 1].reading.bytes
  }

  /** When every poll reads a length, call `i` goes on exactly when its
      reading differs from the one before it, and the first one always does. */
  lemma ChangedAmongLengths(polls: seq<Poll>)
    requires AllLengths(polls)
    ensures forall i :: 0 < i < |polls| ==> (Changed(polls, -1, i) <==> Grew(polls, i))
    ensures |polls| > 0 ==> Changed(polls, -1, 0)
  {
  }

  /** Starting from the sentinel -1, the wait on a file ends at the first
      reading that equals the one before it, after as many delays as that
      reading's index, and never before the first delay. */
  lemma StableAtFirstRepeat(polls: seq<Poll>, k: nat)
    requires AllLengths(polls)
    ensures AwaitFileCopy(polls, -1) == WaitOutcome(Stable, k)
            <==> 0 < k < |polls| && !Grew(polls, k) && forall i :: 0 < i < k ==> Grew(polls, i)
  {
    var r := AwaitFileCopy(polls, -1);
    ChangedAmongLengths(polls);
    assert r.end == Stable || r.end == StillCopying;
    if 0 < k < |polls| && !Grew(polls, k) && forall i :: 0 < i < k ==> Grew(polls, i) {
      assert !Changed(polls, -1, k);
      assert forall i :: 0 <= i < k ==> Changed(polls, -1, i);
      assert !(k < r.delays);
      assert r.delays < |polls| ==> !Changed(polls, -1, r.delays);
    }
  }

  /** Cancellation requested before a call raises `TaskCanceledException`
      before the length is read, whatever the reading would be. */
  lemma CancelledBeforeReading(polls: seq<Poll>, previousFileLength: int)
    requires |polls| > 0 && polls[0].cancellationRequested
    ensures AwaitFileCopy(polls, previousFileLength) == WaitOutcome(Cancelled, 0)
  {
  }

  // ---------------------------------------------------------------------------
  // The worker's own, older classifier
  //
  // `Worker.GenerateDestinationPath` is the loop of `PathBuilder` with three
  // differences: the season prefixes lack "Season", the season is cut with
  // `Split(…)[0]` on 'E', 'e', "EP" and "ep" only, and the destination is
  // returned as it is, possibly null and without trimming a trailing '/'.
  // The tokenizer and the resolution switch are the same code.

  /** The prefixes that mark a season token here, compared ignoring case. */
  const LegacySeasonPrefixes: seq<string> := ["S0", "S1", "S2", "S3", "S4", "S5"]

  predicate IsLegacySeasonToken(token: string)
  {
    exists i :: 0 <= i < |LegacySeasonPrefixes| && StartsWithIgnoreCase(token, LegacySeasonPrefixes[i])
  }

  /** The older prefixes are the newer ones without "Season". */
  lemma LegacyPrefixes()
    ensures LegacySeasonPrefixes == PathBuilder.SeasonPrefixes[1..]
  {
  }

  /** A season token here is exactly a season token of `PathBuilder` that
      does not start with "Season" (ignoring case). */
  lemma LegacySeasonTokenIff(token: string)
    ensures IsLegacySeasonToken(token)
            <==> PathBuilder.IsSeasonToken(token) && !StartsWithIgnoreCase(token, "Season")
  {
    if IsLegacySeasonToken(token) {
      LegacyTokenIsSeasonToken(token);
    }
    if PathBuilder.IsSeasonToken(token) && !StartsWithIgnoreCase(token, "Season") {
      SeasonTokenIsLegacy(token);
    }
  }

  lemma LegacyTokenIsSeasonToken(token: string)
    requires IsLegacySeasonToken(token)
    ensures PathBuilder.IsSeasonToken(token) && !StartsWithIgnoreCase(token, "Season")
  {
    LegacyPrefixes();
    var i :| 0 <= i < |LegacySeasonPrefixes| && StartsWithIgnoreCase(token, LegacySeasonPrefixes[i]);
    assert PathBuilder.SeasonPrefixes[i + 1] == LegacySeasonPrefixes[i];
    var p := LegacySeasonPrefixes[i];
    assert Upper(token[..2])[1] == UpperChar(token[1]);
    assert Upper(p)[1] == p[1];
    DigitNotSeason(token);
  }

  /** A token whose second character folds to a digit does not start with "Season". */
  lemma DigitNotSeason(token: string)
    requires |token| >= 2 && '0' <= UpperChar(token[1]) <= '9'
    ensures !StartsWithIgnoreCase(token, "Season")
  {
    if |token| >= 6 {
      assert Upper(token[..6])[1] == UpperChar(token[..6][1]);
      assert Upper("Season")[1] == 'E';
    }
  }

  lemma SeasonTokenIsLegacy(token: string)
    requires PathBuilder.IsSeasonToken(token) && !StartsWithIgnoreCase(token, "Season")
    ensures IsLegacySeasonToken(token)
  {
    LegacyPrefixes();
    var i :| 0 <= i < |PathBuilder.SeasonPrefixes| && StartsWithIgnoreCase(token, PathBuilder.SeasonPrefixes[i]);
    assert i > 0;
    assert LegacySeasonPrefixes[i - 1] == PathBuilder.SeasonPrefixes[i];
  }

  /** Every season token here starts with 'S' or 's'. */
  lemma LegacyTokenStartsWithS(token: string)
    requires IsLegacySeasonToken(token)
    ensures |token| > 0 && (token[0] == 'S' || token[0] == 's')
  {
    LegacySeasonTokenIff(token);
    PathBuilder.SeasonTokenStartsWithS(token);
  }

  /** `s.Split(sep, RemoveEmptyEntries)[0]` on a string that does not start
      with the separator's first character: the index is in range, and the
      piece starts like `s`. */
  function SplitHead(s: string, sep: string): (r: string)
    requires |sep| > 0 && |s| > 0 && s[0] != sep[0]
    ensures r == FirstPiece(s, sep)
    ensures |r| > 0 && r[0] == s[0]
  {
    FirstPieceStartsLike(s, sep);
    SplitNonEmpty(s, sep)[0]
  }

  /** The season of a season token, cut at 'E', 'e', "EP" and "ep". Each
      `[0]` is in range, because the token starts with 'S' or 's'. */
  function LegacySeasonOf(token: string): (r: string)
    requires IsLegacySeasonToken(token)
    ensures |r| > 0 && r[0] == token[0]
    ensures 'E' !in r && 'e' !in r
  {
    LegacyTokenStartsWithS(token);
    var s1 := SplitHead(token, "E");
    var s2 := SplitHead(s1, "e");
    var s3 := SplitHead(s2, "EP");
    FirstPieceLacksSeparator(token, 'E');
    FirstPieceLacksSeparator(s1, 'e');
    FirstPieceLacks(s1, "e", 'E');
    FirstPieceLacks(s2, "EP", 'E');
    FirstPieceLacks(s2, "EP", 'e');
    FirstPieceLacks(s3, "ep", 'E');
    FirstPieceLacks(s3, "ep", 'e');
    SplitHead(s3, "ep")
  }

  /** Without "Season" in the token, both classifiers cut the same season. */
  lemma LegacySeasonAgrees(token: string)
    requires IsLegacySeasonToken(token) && !Contains(token, "Season")
    ensures LegacySeasonOf(token) == PathBuilder.SeasonOf(token)
  {
    LegacyTokenStartsWithS(token);
    if Contains(token, "Seasons") {
      assert "Season" + "s" == "Seasons";
      ContainsLonger(token, "Season", "s");
    }
    FirstPieceWhole(token, "Seasons");
    FirstPieceWhole(token, "Season");
  }

  /** Season detection with the older prefixes and season cut. */
  function LegacyDetect(st: PathBuilder.Carry, token: string): PathBuilder.Carry
  {
    if IsLegacySeasonToken(token)
    then st.(isTvShow := true, tvShowSeason := LegacySeasonOf(token), tvShowName := st.names)
    else st
  }

  function LegacyStep(paths: PathBuilder.LibraryPaths, st: PathBuilder.Carry, token: string): PathBuilder.Carry
  {
    var st' := PathBuilder.Resolve(paths, LegacyDetect(st, token), token);
    st'.(names := PathBuilder.AppendName(st'.names, token))
  }

  /** The state after the older loop has consumed `tokens`. */
  function LegacyRun(paths: PathBuilder.LibraryPaths, tokens: seq<string>): PathBuilder.Carry
    decreases |tokens|
  {
    if tokens == [] then PathBuilder.Initial
    else LegacyStep(paths, LegacyRun(paths, tokens[..|tokens| - 1]), tokens[|tokens| - 1])
  }

  /** What the worker's `GenerateDestinationPath` returns: the destination as
      the loop leaves it, null included. */
  function LegacyDestination(sourcePath: string, paths: PathBuilder.LibraryPaths): Option<string>
  {
    LegacyRun(paths, PathBuilder.Tokenize(sourcePath)).destinationDir
  }

  lemma LegacyRunSnoc(paths: PathBuilder.LibraryPaths, tokens: seq<string>, i: nat)
    requires i < |tokens|
    ensures LegacyRun(paths, tokens[..i + 1]) == LegacyStep(paths, LegacyRun(paths, tokens[..i]), tokens[i])
  {
    assert tokens[..i + 1][..i] == tokens[..i];
  }

  /** The worker's classifier: the same tokenizer, then the older loop. */
  method GenerateDestinationPath(sourcePath: string, paths: PathBuilder.LibraryPaths) returns (r: Option<string>)
    ensures r == LegacyDestination(sourcePath, paths)
  {
    var fileNameParts := PathBuilder.Tokenize(sourcePath);
    r := LegacyClassify(fileNameParts, paths);
  }

  /** The older `foreach` loop over the tokens, with the same six locals. */
  method LegacyClassify(fileNameParts: seq<string>, paths: PathBuilder.LibraryPaths) returns (r: Option<string>)
    ensures r == LegacyRun(paths, fileNameParts).destinationDir
  {
    var validDestinationDir := false;
    var isTvShow := false;
    var tvShowSeason := "";
    var tvShowName := "";
    var destinationDir: Option<string> := Some("");
    var nameBuilder := "";
    for i := 0 to |fileNameParts|
      invariant PathBuilder.Carry(validDestinationDir, isTvShow, tvShowSeason, tvShowName, destinationDir, nameBuilder)
             == LegacyRun(paths, fileNameParts[..i])
    {
      var fileNamePart := fileNameParts[i];
      ghost var before := PathBuilder.Carry(validDestinationDir, isTvShow, tvShowSeason, tvShowName, destinationDir, nameBuilder);
      if IsLegacySeasonToken(fileNamePart) {
        isTvShow := true;
        tvShowSeason := LegacySeasonOf(fileNamePart);
        tvShowName := nameBuilder;
      }
      match PathBuilder.TierOf(fileNamePart) {
        case Some(tier) =>
          destinationDir :=
            if isTvShow then Some(PathBuilder.TvDirectory(PathBuilder.LibraryBase(paths.tv, tier), tvShowName, tvShowSeason))
            else PathBuilder.LibraryBase(paths.movies, tier);
          validDestinationDir := true;
        case None =>
          destinationDir :=
            if validDestinationDir then destinationDir
            else if isTvShow then Some(PathBuilder.TvDirectory(paths.tv.defaultPath, tvShowName, tvShowSeason))
            else paths.movies.defaultPath;
      }
      nameBuilder := PathBuilder.AppendName(nameBuilder, fileNamePart);
      assert PathBuilder.Carry(validDestinationDir, isTvShow, tvShowSeason, tvShowName, destinationDir, nameBuilder)
          == LegacyStep(paths, before, fileNamePart);
      LegacyRunSnoc(paths, fileNameParts, i);
    }
    assert fileNameParts[..|fileNameParts|] == fileNameParts;
    r := destinationDir;
  }

  /** A token both classifiers read the same way: no season token at all, or
      one with no "Season" in it. */
  predicate SameSeasonReading(token: string)
  {
    !PathBuilder.IsSeasonToken(token) || (!StartsWithIgnoreCase(token, "Season") && !Contains(token, "Season"))
  }

  /** On such a token both loops take the same step. */
  lemma LegacyStepAgrees(paths: PathBuilder.LibraryPaths, st: PathBuilder.Carry, token: string)
    requires SameSeasonReading(token)
    ensures LegacyStep(paths, st, token) == PathBuilder.Step(paths, st, token)
  {
    LegacySeasonTokenIff(token);
    if IsLegacySeasonToken(token) {
      LegacySeasonAgrees(token);
    }
  }

  /** On such tokens both loops end in the same state. */
  lemma {:induction false} LegacyRunAgrees(paths: PathBuilder.LibraryPaths, tokens: seq<string>)
    requires forall k :: 0 <= k < |tokens| ==> SameSeasonReading(tokens[k])
    ensures LegacyRun(paths, tokens) == PathBuilder.Run(paths, tokens)
    decreases |tokens|
  {
    if tokens != [] {
      var init := tokens[..|tokens| - 1];
      assert forall k :: 0 <= k < |init| ==> init[k] == tokens[k];
      LegacyRunAgrees(paths, init);
      LegacyStepAgrees(paths, LegacyRun(paths, init), tokens[|tokens| - 1]);
    }
  }

  /** Where no token mentions "Season", the two classifiers differ only in
      the last step: `PathBuilder` trims the trailing '/' of the same
      destination, and throws where the worker's copy returns null. */
  lemma ClassifiersAgree(sourcePath: string, paths: PathBuilder.LibraryPaths)
    requires forall k :: 0 <= k < |PathBuilder.Tokenize(sourcePath)| ==> SameSeasonReading(PathBuilder.Tokenize(sourcePath)[k])
    ensures PathBuilder.DestinationPath(sourcePath, paths) == PathBuilder.Finish(LegacyDestination(sourcePath, paths))
  {
    LegacyRunAgrees(paths, PathBuilder.Tokenize(sourcePath));
  }

  /** The movie directory of `tokens`: the last resolution token's path,
      else the movies' default path. */
  function MovieBase(paths: PathBuilder.LibraryPaths, tokens: seq<string>): Option<string>
  {
    match PathBuilder.LastTier(tokens)
    case None => paths.movies.defaultPath
    case Some(j) => PathBuilder.LibraryBase(paths.movies, PathBuilder.TierOf(tokens[j]).value)
  }

  /** Without a season token of its own, the older classifier files the name
      as a movie, under the last resolution token's path. */
  lemma {:induction false} LegacyMovieRun(paths: PathBuilder.LibraryPaths, tokens: seq<string>)
    requires forall k :: 0 <= k < |tokens| ==> !IsLegacySeasonToken(tokens[k])
    ensures !LegacyRun(paths, tokens).isTvShow
    ensures LegacyRun(paths, tokens).validDestinationDir <==> PathBuilder.LastTier(tokens).Some?
    ensures tokens != [] ==> LegacyRun(paths, tokens).destinationDir == MovieBase(paths, tokens)
    decreases |tokens|
  {
    if tokens != [] {
      var init := tokens[..|tokens| - 1];
      assert forall k :: 0 <= k < |init| ==> init[k] == tokens[k];
      LegacyMovieRun(paths, init);
      if PathBuilder.TierOf(tokens[|tokens| - 1]).None? {
        assert PathBuilder.LastTier(tokens) == PathBuilder.LastTier(init);
      }
    }
  }

  /** A token not starting with 'S' or 's', or whose second character is no
      digit 0 to 5, is no season token here. */
  lemma NotLegacySeasonToken(token: string)
    requires |token| < 2 || UpperChar(token[0]) != 'S' || !('0' <= token[1] <= '5')
    ensures !IsLegacySeasonToken(token)
  {
    forall i | 0 <= i < |LegacySeasonPrefixes| ensures !StartsWithIgnoreCase(token, LegacySeasonPrefixes[i]) {
      var p := LegacySeasonPrefixes[i];
      assert Upper(p)[0] == 'S' && Upper(p)[1] == p[1];
      if |token| >= 2 {
        assert Upper(token[..2])[0] == UpperChar(token[0]);
        assert Upper(token[..2])[1] == UpperChar(token[1]);
      }
    }
  }

  /** The season-pack test name: `PathBuilder` files it under the show, the
      worker's copy, which knows no "Season" prefix, as a movie. */
  lemma LegacySeasonPackExample(dir: string)
    ensures LegacyDestination(dir + "/" + Join(PathBuilder.SeasonPackTokens, "."), PathBuilder.TestPaths) == Some("/movies")
    ensures PathBuilder.DestinationPath(dir + "/" + Join(PathBuilder.SeasonPackTokens, "."), PathBuilder.TestPaths)
            == Success("/tv/The Test")
  {
    PathBuilder.SeasonPackExampleTokens();
    PathBuilder.TokenizeJoinedPath(dir, PathBuilder.SeasonPackTokens);
    LegacySeasonPackRun();
    PathBuilder.SeasonPackExample(dir);
  }

  lemma LegacySeasonPackRun()
    ensures LegacyRun(PathBuilder.TestPaths, PathBuilder.SeasonPackTokens).destinationDir == Some("/movies")
  {
    LegacySeasonPackNoSeason();
    LegacyMovieRun(PathBuilder.TestPaths, PathBuilder.SeasonPackTokens);
    PathBuilder.SeasonPackExampleTier();
  }

  lemma LegacySeasonPackNoSeason()
    ensures forall k :: 0 <= k < |PathBuilder.SeasonPackTokens| ==> !IsLegacySeasonToken(PathBuilder.SeasonPackTokens[k])
  {
    NotLegacySeasonToken("The");
    NotLegacySeasonToken("Test");
    NotLegacySeasonToken("Seasons");
    NotLegacySeasonToken("1-8");
    NotLegacySeasonToken("1080p");
    NotLegacySeasonToken("WEBRip");
    NotLegacySeasonToken("DD5");
    NotLegacySeasonToken("1");
    NotLegacySeasonToken("X");
    NotLegacySeasonToken("264-Testers");
  }

  // ---------------------------------------------------------------------------
  // The extraction walk

  /** An entry of an archive, as the archive library lists it. */
  datatype ArchiveEntry = ArchiveEntry(key: string, isDirectory: bool)

  /** A file the walk meets: its path and, when it opens as an archive, its
      entries in the order the archive yields them (`None`: opening it throws). */
  datatype FileEntry = FileEntry(path: string, archive: Option<seq<ArchiveEntry>>)

  /** What a path names on disk: a directory, with its subdirectories and its
      files in the order the directory listing returns them, or a file. */
  datatype Node =
    | Directory(path: string, subdirectories: seq<Node>, files: seq<FileEntry>)
    | RegularFile(file: FileEntry)

  /** The file-system writes and the logged events of the walk. */
  datatype Effect =
    | CreateDirectory(directory: string)
    | CopyFile(source: string, destination: string)   // `File.Copy` with overwrite
    | ExtractEntry(key: string, directory: string)    // written with `ExtractFullPath` and `Overwrite`
    | SkipSubDirectory(key: string)                   // "Extracting sub-dir is not supported!"
    | Unsupported(path: string)                       // "File not supported"
    | SourcePathEmpty                                 // "Source path is empty!"
    | FileNameEmpty                                   // "Filename is empty!"
    | SourceVanished                                  // the arrival was removed again

  /** The effects of a run, and whether it ran to its end (`false`: an
      exception ended it after those effects). */
  datatype Outcome = Outcome(effects: seq<Effect>, completed: bool)

  const Done: Outcome := Outcome([], true)

  /** `first`, then `second` unless `first` threw. */
  function Then(first: Outcome, second: Outcome): (r: Outcome)
    ensures first.effects <= r.effects
    ensures r.completed <==> first.completed && second.completed
    ensures !first.completed ==> r == first
  {
    if !first.completed then first else Outcome(first.effects + second.effects, second.completed)
  }

  /** The outcomes one after another, stopping at the first that threw. */
  function Sequence(outcomes: seq<Outcome>): Outcome
    decreases |outcomes|
  {
    if outcomes == [] then Done
    else Then(Sequence(outcomes[..|outcomes| - 1]), outcomes[|outcomes| - 1])
  }

  /** What the walk does with one archive entry: a directory entry is only
      reported, every other entry is written into the destination. */
  function EntryEffect(entry: ArchiveEntry, destinationDir: string): Effect
  {
    if entry.isDirectory then SkipSubDirectory(entry.key) else ExtractEntry(entry.key, destinationDir)
  }

  function EntryEffects(entries: seq<ArchiveEntry>, destinationDir: string): (r: seq<Effect>)
    ensures |r| == |entries|
    decreases |entries|
  {
    if entries == [] then []
    else EntryEffects(entries[..|entries| - 1], destinationDir) + [EntryEffect(entries[|entries| - 1], destinationDir)]
  }

  predicate IsVideoExtension(ext: string)
  {
    ext == ".mkv" || ext == ".avi" || ext == ".mp4"
  }

  predicate IsArchiveExtension(ext: string)
  {
    ext == ".rar" || ext == ".zip"
  }

  /** The `switch` on the exact, case-sensitive extension of a file. */
  function Dispatch(file: FileEntry, destinationDir: string): Outcome
  {
    var ext := GetExtension(file.path);
    if IsVideoExtension(ext) then
      var fileName := GetFileName(file.path);
      if IsBlank(fileName) then Outcome([FileNameEmpty], true)
      else Outcome([CopyFile(file.path, Combine(destinationDir, fileName))], true)
    else if IsArchiveExtension(ext) then
      match file.archive
      case None => Outcome([], false)
      case Some(entries) => Outcome(EntryEffects(entries, destinationDir), true)
    else Outcome([Unsupported(file.path)], true)
  }

  /** `ExtractAndMoveRecursionAsync` on a file. */
  function WalkFile(file: FileEntry, destinationDir: string): Outcome
  {
    if IsBlank(file.path) then Outcome([SourcePathEmpty], true) else Dispatch(file, destinationDir)
  }

  /** The files one after another. */
  function WalkFiles(files: seq<FileEntry>, destinationDir: string): Outcome
  {
    Sequence(seq(|files|, i requires 0 <= i < |files| => WalkFile(files[i], destinationDir)))
  }

  /** `ExtractAndMoveRecursionAsync`: a directory has its subdirectories
      walked first, then its files, everything into the one destination. */
  function Walk(node: Node, destinationDir: string): Outcome
    decreases node
  {
    match node
    case RegularFile(file) => WalkFile(file, destinationDir)
    case Directory(path, subdirectories, files) =>
      if IsBlank(path) then Outcome([SourcePathEmpty], true)
      else
        Then(Sequence(seq(|subdirectories|, i requires 0 <= i < |subdirectories| => Walk(subdirectories[i], destinationDir))),
             WalkFiles(files, destinationDir))
  }

  lemma SequenceSnoc(outcomes: seq<Outcome>, i: nat)
    requires i < |outcomes|
    ensures Sequence(outcomes[..i + 1]) == Then(Sequence(outcomes[..i]), outcomes[i])
  {
    assert outcomes[..i + 1][..i] == outcomes[..i];
  }

  lemma EntryEffectsSnoc(entries: seq<ArchiveEntry>, destinationDir: string, i: nat)
    requires i < |entries|
    ensures EntryEffects(entries[..i + 1], destinationDir) == EntryEffects(entries[..i], destinationDir) + [EntryEffect(entries[i], destinationDir)]
  {
    assert entries[..i + 1][..i] == entries[..i];
  }

  /** The loop over the entries of an opened archive. */
  method ExtractEntries(entries: seq<ArchiveEntry>, destinationDir: string) returns (effects: seq<Effect>)
    ensures effects == EntryEffects(entries, destinationDir)
  {
    effects := [];
    var i := 0;
    while i < |entries|
      invariant i <= |entries|
      invariant effects == EntryEffects(entries[..i], destinationDir)
    {
      var entry := entries[i];
      if !entry.isDirectory {
        effects := effects + [ExtractEntry(entry.key, destinationDir)];
      } else {
        effects := effects + [SkipSubDirectory(entry.key)];
      }
      EntryEffectsSnoc(entries, destinationDir, i);
      i := i + 1;
    }
    assert entries[..i] == entries;
  }

  /** `ExtractAndMoveRecursionAsync` on a file: the extension switch. */
  method ExtractAndMoveFile(file: FileEntry, destinationDir: string) returns (out: Outcome)
    ensures out == WalkFile(file, destinationDir)
  {
    if IsBlank(file.path) {
      return Outcome([SourcePathEmpty], true);
    }
    var ext := GetExtension(file.path);
    if ext == ".mkv" || ext == ".avi" || ext == ".mp4" {
      var fileName := GetFileName(file.path);
      if IsBlank(fileName) {
        return Outcome([FileNameEmpty], true);
      }
      var destinationPath := Combine(destinationDir, fileName);
      out := Outcome([CopyFile(file.path, destinationPath)], true);
    } else if ext == ".rar" || ext == ".zip" {
      match file.archive {
        case None =>
          out := Outcome([], false);
        case Some(entries) =>
          var effects := ExtractEntries(entries, destinationDir);
          out := Outcome(effects, true);
      }
    } else {
      out := Outcome([Unsupported(file.path)], true);
    }
  }

  /** `ExtractAndMoveRecursionAsync`: the two `foreach` loops of a directory,
      each ending the walk at the first exception. */
  method ExtractAndMoveRecursion(node: Node, destinationDir: string) returns (out: Outcome)
    ensures out == Walk(node, destinationDir)
    decreases node
  {
    match node {
      case RegularFile(file) =>
        out := ExtractAndMoveFile(file, destinationDir);
      case Directory(path, subdirectories, files) =>
        if IsBlank(path) {
          return Outcome([SourcePathEmpty], true);
        }
        ghost var walks := seq(|subdirectories|, i requires 0 <= i < |subdirectories| => Walk(subdirectories[i], destinationDir));
        var effects := [];
        for i := 0 to |subdirectories|
          invariant Sequence(walks[..i]) == Outcome(effects, true)
        {
          var sub := ExtractAndMoveRecursion(subdirectories[i], destinationDir);
          SequenceSnoc(walks, i);
          effects := effects + sub.effects;
          if !sub.completed {
            SequenceStops(walks, i + 1);
            assert walks[..|walks|] == walks;
            return Outcome(effects, false);
          }
        }
        assert walks[..|walks|] == walks;
        var rest := ExtractAndMoveFiles(files, destinationDir);
        out := Outcome(effects + rest.effects, rest.completed);
    }
  }

  /** The `foreach` loop over the files of a directory. */
  method ExtractAndMoveFiles(files: seq<FileEntry>, destinationDir: string) returns (out: Outcome)
    ensures out == WalkFiles(files, destinationDir)
  {
    ghost var walks := seq(|files|, i requires 0 <= i < |files| => WalkFile(files[i], destinationDir));
    var effects := [];
    for i := 0 to |files|
      invariant Sequence(walks[..i]) == Outcome(effects, true)
    {
      var f := ExtractAndMoveFile(files[i], destinationDir);
      SequenceSnoc(walks, i);
      effects := effects + f.effects;
      if !f.completed {
        SequenceStops(walks, i + 1);
        assert walks[..|walks|] == walks;
        return Outcome(effects, false);
      }
    }
    assert walks[..|walks|] == walks;
    out := Outcome(effects, true);
  }

  /** Once an outcome threw, the later ones add nothing. */
  lemma {:induction false} SequenceStops(outcomes: seq<Outcome>, i: nat)
    requires i <= |outcomes| && !Sequence(outcomes[..i]).completed
    ensures Sequence(outcomes) == Sequence(outcomes[..i])
    decreases |outcomes| - i
  {
    if i < |outcomes| {
      SequenceSnoc(outcomes, i);
      SequenceStops(outcomes, i + 1);
    } else {
      assert outcomes[..i] == outcomes;
    }
  }

  // ---------------------------------------------------------------------------
  // What the walk promises

  /** A write of the walk lands in `destinationDir`: an archive entry is
      written into that directory itself, a copied file becomes its child
      under the source's own file name; the walk creates no directory. */
  predicate IntoDestination(e: Effect, destinationDir: string)
  {
    match e
    case CopyFile(source, destination) => destination == Combine(destinationDir, GetFileName(source))
    case ExtractEntry(_, directory) => directory == destinationDir
    case CreateDirectory(_) => false
    case _ => true
  }

  predicate AllIntoDestination(effects: seq<Effect>, destinationDir: string)
  {
    forall k :: 0 <= k < |effects| ==> IntoDestination(effects[k], destinationDir)
  }

  lemma {:induction false} SequenceIntoDestination(outcomes: seq<Outcome>, destinationDir: string)
    requires forall i :: 0 <= i < |outcomes| ==> AllIntoDestination(outcomes[i].effects, destinationDir)
    ensures AllIntoDestination(Sequence(outcomes).effects, destinationDir)
    decreases |outcomes|
  {
    if outcomes != [] {
      var init := outcomes[..|outcomes| - 1];
      assert forall i :: 0 <= i < |init| ==> init[i] == outcomes[i];
      SequenceIntoDestination(init, destinationDir);
    }
  }

  lemma {:induction false} EntryEffectsIntoDestination(entries: seq<ArchiveEntry>, destinationDir: string)
    ensures AllIntoDestination(EntryEffects(entries, destinationDir), destinationDir)
    decreases |entries|
  {
    if entries != [] {
      EntryEffectsIntoDestination(entries[..|entries| - 1], destinationDir);
    }
  }

  lemma FilesIntoDestination(files: seq<FileEntry>, destinationDir: string)
    ensures AllIntoDestination(WalkFiles(files, destinationDir).effects, destinationDir)
  {
    var walks := seq(|files|, i requires 0 <= i < |files| => WalkFile(files[i], destinationDir));
    forall i | 0 <= i < |walks| ensures AllIntoDestination(walks[i].effects, destinationDir) {
      FileIntoDestination(files[i], destinationDir);
    }
    SequenceIntoDestination(walks, destinationDir);
  }

  lemma FileIntoDestination(file: FileEntry, destinationDir: string)
    ensures AllIntoDestination(WalkFile(file, destinationDir).effects, destinationDir)
  {
    var r := WalkFile(file, destinationDir);
    if !IsBlank(file.path) {
      var ext := GetExtension(file.path);
      if IsVideoExtension(ext) {
        var fileName := GetFileName(file.path);
        if !IsBlank(fileName) {
          assert r.effects == [CopyFile(file.path, Combine(destinationDir, fileName))];
        }
      } else if IsArchiveExtension(ext) && file.archive.Some? {
        EntryEffectsIntoDestination(file.archive.value, destinationDir);
      }
    }
  }

  /** The walk flattens the tree: whatever depth a file sits at, it is
      copied or extracted into the one destination directory. */
  lemma WalkFlattens(node: Node, destinationDir: string)
    ensures AllIntoDestination(Walk(node, destinationDir).effects, destinationDir)
    decreases node
  {
    match node {
      case RegularFile(file) =>
        FilesIntoDestination([file], destinationDir);
        SequenceOne(WalkFile(file, destinationDir));
        assert WalkFiles([file], destinationDir) == Sequence([WalkFile(file, destinationDir)]);
      case Directory(path, subdirectories, files) =>
        var walks := seq(|subdirectories|, i requires 0 <= i < |subdirectories| => Walk(subdirectories[i], destinationDir));
        forall i | 0 <= i < |walks| ensures AllIntoDestination(walks[i].effects, destinationDir) {
          WalkFlattens(subdirectories[i], destinationDir);
        }
        SequenceIntoDestination(walks, destinationDir);
        FilesIntoDestination(files, destinationDir);
    }
  }

  lemma SequenceOne(o: Outcome)
    ensures Sequence([o]) == o
  {
    assert [o][..0] == [];
  }

  /** `Then` groups either way. */
  lemma ThenAssociative(a: Outcome, b: Outcome, c: Outcome)
    ensures Then(Then(a, b), c) == Then(a, Then(b, c))
  {
    if a.completed && b.completed {
      assert a.effects + b.effects + c.effects == a.effects + (b.effects + c.effects);
    }
  }

  /** Running two lists of outcomes is running the first, then the second. */
  lemma {:induction false} SequenceAppend(xs: seq<Outcome>, ys: seq<Outcome>)
    ensures Sequence(xs + ys) == Then(Sequence(xs), Sequence(ys))
    decreases |ys|
  {
    if ys == [] {
      assert xs + ys == xs;
      assert Sequence(xs).effects + [] == Sequence(xs).effects;
    } else {
      var init := ys[..|ys| - 1];
      var last := ys[|ys| - 1];
      assert (xs + ys)[..|xs + ys| - 1] == xs + init;
      SequenceAppend(xs, init);
      ThenAssociative(Sequence(xs), Sequence(init), last);
    }
  }

  lemma WalkFilesAppend(a: seq<FileEntry>, b: seq<FileEntry>, destinationDir: string)
    ensures WalkFiles(a + b, destinationDir) == Then(WalkFiles(a, destinationDir), WalkFiles(b, destinationDir))
  {
    var wa := seq(|a|, i requires 0 <= i < |a| => WalkFile(a[i], destinationDir));
    var wb := seq(|b|, i requires 0 <= i < |b| => WalkFile(b[i], destinationDir));
    var ab := a + b;
    assert seq(|ab|, i requires 0 <= i < |ab| => WalkFile(ab[i], destinationDir)) == wa + wb;
    SequenceAppend(wa, wb);
  }

  /** The files of the nodes one after another. */
  function Concat<T>(xss: seq<seq<T>>): seq<T>
    decreases |xss|
  {
    if xss == [] then [] else Concat(xss[..|xss| - 1]) + xss[|xss| - 1]
  }

  /** Walking the concatenated lists is walking each list in turn. */
  lemma {:induction false} WalkFilesConcat(xss: seq<seq<FileEntry>>, destinationDir: string)
    ensures WalkFiles(Concat(xss), destinationDir)
            == Sequence(seq(|xss|, i requires 0 <= i < |xss| => WalkFiles(xss[i], destinationDir)))
    decreases |xss|
  {
    var walks := seq(|xss|, i requires 0 <= i < |xss| => WalkFiles(xss[i], destinationDir));
    if xss == [] {
      assert WalkFiles([], destinationDir) == Sequence([]);
    } else {
      var init := xss[..|xss| - 1];
      WalkFilesConcat(init, destinationDir);
      WalkFilesAppend(Concat(init), xss[|xss| - 1], destinationDir);
      assert walks[..|walks| - 1] == seq(|init|, i requires 0 <= i < |init| => WalkFiles(init[i], destinationDir));
    }
  }

  /** The files under a node in the order the walk reaches them: those of
      the subdirectories, each in turn and all the way down, then the
      directory's own. */
  function Files(node: Node): seq<FileEntry>
    decreases node
  {
    match node
    case RegularFile(file) => [file]
    case Directory(_, subdirectories, files) =>
      Concat(seq(|subdirectories|, i requires 0 <= i < |subdirectories| => Files(subdirectories[i]))) + files
  }

  /** No directory of the tree has a blank path (the listing never yields one). */
  predicate NamedDirectories(node: Node)
    decreases node
  {
    match node
    case RegularFile(_) => true
    case Directory(path, subdirectories, _) =>
      !IsBlank(path) && forall i :: 0 <= i < |subdirectories| ==> NamedDirectories(subdirectories[i])
  }

  /** The walk order: the recursive walk does to the tree what walking its
      files does, one by one, with every subdirectory's files before the
      files beside it, stopping at the first exception. */
  lemma WalkInPreOrder(node: Node, destinationDir: string)
    requires NamedDirectories(node)
    ensures Walk(node, destinationDir) == WalkFiles(Files(node), destinationDir)
    decreases node
  {
    match node {
      case RegularFile(file) =>
        SequenceOne(WalkFile(file, destinationDir));
        assert WalkFiles([file], destinationDir) == Sequence([WalkFile(file, destinationDir)]);
      case Directory(path, subdirectories, files) =>
        var n := |subdirectories|;
        var walks := seq(n, i requires 0 <= i < n => Walk(subdirectories[i], destinationDir));
        var lists := seq(n, i requires 0 <= i < n => Files(subdirectories[i]));
        forall i | 0 <= i < n ensures walks[i] == WalkFiles(lists[i], destinationDir) {
          WalkInPreOrder(subdirectories[i], destinationDir);
        }
        assert walks == seq(|lists|, i requires 0 <= i < |lists| => WalkFiles(lists[i], destinationDir));
        WalkFilesConcat(lists, destinationDir);
        WalkFilesAppend(Concat(lists), files, destinationDir);
    }
  }

  /** A file with a video extension is copied, never reported as having an
      empty name, to the child of the destination with the same file name. */
  lemma VideoIsCopied(file: FileEntry, destinationDir: string)
    requires IsVideoExtension(GetExtension(file.path))
    ensures WalkFile(file, destinationDir)
            == Outcome([CopyFile(file.path, Combine(destinationDir, GetFileName(file.path)))], true)
    ensures GetFileName(Combine(destinationDir, GetFileName(file.path))) == GetFileName(file.path)
  {
    ExtensionNotBlank(file.path);
    FileNameNotBlank(file.path);
    CombineChild(destinationDir, GetFileName(file.path));
  }

  /** The file name of a path with an extension holds that extension's '.'. */
  lemma FileNameNotBlank(path: string)
    requires GetExtension(path) != ""
    ensures GetFileName(path) != "" && !IsBlank(GetFileName(path))
  {
    SuffixOfFileName(path, GetExtension(path));
    DotNotBlank(GetFileName(path), GetExtension(path));
  }

  /** A string ending in a suffix that starts with '.' is not blank. */
  lemma DotNotBlank(s: string, suffix: string)
    requires 0 < |suffix| <= |s| && s[|s| - |suffix|..] == suffix && suffix[0] == '.'
    ensures !IsBlank(s)
  {
    assert s[|s| - |suffix|] == suffix[0];
  }

  /** A path with an extension is not blank: it holds a '.'. */
  lemma ExtensionNotBlank(path: string)
    requires GetExtension(path) != ""
    ensures !IsBlank(path)
  {
    var ext := GetExtension(path);
    assert path[|path| - |ext|] == ext[0] == '.';
  }

  /** The match is exact and case-sensitive: any other extension, ".MKV"
      and ".Zip" included, is only reported as not supported. */
  lemma OtherExtensionSkipped(file: FileEntry, destinationDir: string)
    requires GetExtension(file.path) != ""
    requires !IsVideoExtension(GetExtension(file.path)) && !IsArchiveExtension(GetExtension(file.path))
    ensures WalkFile(file, destinationDir) == Outcome([Unsupported(file.path)], true)
  {
    ExtensionNotBlank(file.path);
  }

  /** An opened archive has each entry handled in order: directory entries
      are only reported, every other entry is extracted into the destination. */
  lemma {:induction false} ArchiveEntriesInOrder(entries: seq<ArchiveEntry>, destinationDir: string)
    ensures forall k :: 0 <= k < |entries| ==>
              EntryEffects(entries, destinationDir)[k] == EntryEffect(entries[k], destinationDir)
    ensures forall k :: 0 <= k < |entries| ==>
              (EntryEffects(entries, destinationDir)[k].ExtractEntry? <==> !entries[k].isDirectory)
    decreases |entries|
  {
    if entries != [] {
      var init := entries[..|entries| - 1];
      ArchiveEntriesInOrder(init, destinationDir);
      assert forall k :: 0 <= k < |init| ==> init[k] == entries[k];
    }
  }

  /** An archive that does not open ends the walk with an exception. */
  lemma UnreadableArchiveThrows(file: FileEntry, destinationDir: string)
    requires IsArchiveExtension(GetExtension(file.path)) && file.archive.None?
    ensures WalkFile(file, destinationDir) == Outcome([], false)
  {
    ExtensionNotBlank(file.path);
  }

  // ---------------------------------------------------------------------------
  // One arrival, end to end

  /** `ExtractAndMoveAsync(sourcePath, destinationDir)`, with `arrival` what
      the file system holds at `sourcePath` by then (`None`: neither a file
      nor a directory any more). `Directory.CreateDirectory` throws on a null
      or empty path; otherwise it runs first, before the source is checked. */
  function Extraction(arrival: Option<Node>, destinationDir: Option<string>): (r: Outcome)
    ensures destinationDir.None? || destinationDir.value == "" ==> r == Outcome([], false)
    ensures destinationDir.Some? && destinationDir.value != "" ==>
              |r.effects| > 0 && r.effects[0] == CreateDirectory(destinationDir.value)
    ensures arrival.None? && destinationDir.Some? && destinationDir.value != "" ==>
              r == Outcome([CreateDirectory(destinationDir.value), SourceVanished], true)
  {
    match destinationDir
    case None => Outcome([], false)
    case Some(d) =>
      if d == "" then Outcome([], false)
      else
        Then(Outcome([CreateDirectory(d)], true),
             match arrival
             case None => Outcome([SourceVanished], true)
             case Some(node) => Walk(node, d))
  }

  /** `ExtractAndMoveAsync`: create the destination, check the arrival is
      still there, walk it. */
  method ExtractAndMove(arrival: Option<Node>, destinationDir: Option<string>) returns (out: Outcome)
    ensures out == Extraction(arrival, destinationDir)
  {
    if destinationDir.None? || destinationDir.value == "" {
      return Outcome([], false);
    }
    var d := destinationDir.value;
    var effects := [CreateDirectory(d)];
    if arrival.None? {
      return Outcome(effects + [SourceVanished], true);
    }
    var walked := ExtractAndMoveRecursion(arrival.value, d);
    out := Outcome(effects + walked.effects, walked.completed);
  }

  /** What `ProcessAsync` does with the path the watcher reported. */
  datatype ProcessOutcome =
    | Skipped(verdict: FilterVerdict)   // a word list rejected the path
    | Failed(effects: seq<Effect>)      // an exception was caught and logged after these effects
    | Processed(effects: seq<Effect>)   // the extraction ran to its end
    | Waiting                           // the given polls ran out while the length still changed

  /** The configuration `ProcessAsync` reads. */
  datatype WorkerSettings = WorkerSettings(
    whitelistedWords: seq<string>,
    blacklistedWords: seq<string>,
    libraries: PathBuilder.LibraryPaths)

  /** `ProcessAsync(sourcePath, …)`: the word lists, then the wait from the
      sentinel -1, then extraction into the worker's own destination; every
      exception, cancellation included, is caught and logged. */
  function Process(settings: WorkerSettings, sourcePath: string, polls: seq<Poll>, arrival: Option<Node>): (r: ProcessOutcome)
    ensures r.Skipped? <==> Filter(settings.whitelistedWords, settings.blacklistedWords, sourcePath) != Accepted
    ensures r.Skipped? ==> r.verdict == Filter(settings.whitelistedWords, settings.blacklistedWords, sourcePath)
    ensures r.Processed? ==> AwaitFileCopy(polls, -1).end == Stable
    ensures r.Waiting? ==> AwaitFileCopy(polls, -1).end == StillCopying
  {
    var verdict := Filter(settings.whitelistedWords, settings.blacklistedWords, sourcePath);
    if verdict != Accepted then Skipped(verdict)
    else
      match AwaitFileCopy(polls, -1).end
      case StillCopying => Waiting
      case Cancelled => Failed([])
      case NotFound => Failed([])
      case Stable =>
        var out := Extraction(arrival, LegacyDestination(sourcePath, settings.libraries));
        if out.completed then Processed(out.effects) else Failed(out.effects)
  }

  /** A rejected path is dropped before any wait or extraction: the outcome
      does not depend on the readings or on what is on disk. */
  lemma SkippedBeforeWaiting(settings: WorkerSettings, sourcePath: string,
                             polls: seq<Poll>, arrival: Option<Node>, otherPolls: seq<Poll>, otherArrival: Option<Node>)
    requires Filter(settings.whitelistedWords, settings.blacklistedWords, sourcePath) != Accepted
    ensures Process(settings, sourcePath, polls, arrival) == Process(settings, sourcePath, otherPolls, otherArrival)
  {
  }

  /** Cancellation is swallowed: an accepted path whose wait sees the
      cancellation request fails quietly, with nothing done. */
  lemma CancellationSwallowed(settings: WorkerSettings, sourcePath: string, polls: seq<Poll>, arrival: Option<Node>)
    requires Filter(settings.whitelistedWords, settings.blacklistedWords, sourcePath) == Accepted
    requires |polls| > 0 && polls[0].cancellationRequested
    ensures Process(settings, sourcePath, polls, arrival) == Failed([])
  {
    CancelledBeforeReading(polls, -1);
  }

  /** An arrival with no file length to read, a directory among them, fails
      in the wait, before any directory is created or anything is copied. */
  lemma NoLengthFails(settings: WorkerSettings, sourcePath: string, polls: seq<Poll>, arrival: Option<Node>)
    requires Filter(settings.whitelistedWords, settings.blacklistedWords, sourcePath) == Accepted
    requires |polls| > 0 && !polls[0].cancellationRequested && polls[0].reading.Missing?
    ensures Process(settings, sourcePath, polls, arrival) == Failed([])
  {
  }

  /** A completed run first creates the destination the worker's classifier
      chose, and every later write lands in it. */
  lemma ProcessedIntoDestination(settings: WorkerSettings, sourcePath: string, polls: seq<Poll>, arrival: Option<Node>)
    requires Process(settings, sourcePath, polls, arrival).Processed?
    ensures LegacyDestination(sourcePath, settings.libraries).Some?
    ensures var d := LegacyDestination(sourcePath, settings.libraries).value;
            var effects := Process(settings, sourcePath, polls, arrival).effects;
            && d != "" && |effects| > 0 && effects[0] == CreateDirectory(d)
            && AllIntoDestination(effects[1..], d)
  {
    var d := LegacyDestination(sourcePath, settings.libraries);
    var out := Extraction(arrival, d);
    assert Process(settings, sourcePath, polls, arrival) == Processed(out.effects);
    assert d.Some? && d.value != "";
    ExtractionIntoDestination(arrival, d.value);
  }

  /** Past the directory it creates first, an extraction writes only into
      that directory. */
  lemma ExtractionIntoDestination(arrival: Option<Node>, destinationDir: string)
    requires destinationDir != ""
    ensures var effects := Extraction(arrival, Some(destinationDir)).effects;
            |effects| > 0 && AllIntoDestination(effects[1..], destinationDir)
  {
    var rest := match arrival
                case None => Outcome([SourceVanished], true)
                case Some(node) => Walk(node, destinationDir);
    if arrival.Some? {
      WalkFlattens(arrival.value, destinationDir);
    }
    var effects := Extraction(arrival, Some(destinationDir)).effects;
    assert effects == [CreateDirectory(destinationDir)] + rest.effects;
    assert effects[1..] == rest.effects;
  }

  /** A name the worker's classifier leaves without destination (null, or
      empty as with no tokens) fails once it is stable, with nothing done. */
  lemma NoDestinationFails(settings: WorkerSettings, sourcePath: string, polls: seq<Poll>, arrival: Option<Node>)
    requires Filter(settings.whitelistedWords, settings.blacklistedWords, sourcePath) == Accepted
    requires AwaitFileCopy(polls, -1).end == Stable
    requires LegacyDestination(sourcePath, settings.libraries) in {None, Some("")}
    ensures Process(settings, sourcePath, polls, arrival) == Failed([])
  {
  }
}
