/** `PathBuilder.GenerateDestinationPath`: classifies a release name as a movie
    or a TV show and picks the destination directory for it. */
module PathBuilder {
  import opened Wrappers
  import opened Text
  import opened FilePaths

  /** The destination prefixes of one library (`Res2160P`, `Res1080P`,
      `Res720P`, `Default`); every one of them may be null. */
  datatype ResolutionPaths = ResolutionPaths(
    res2160P: Option<string>,
    res1080P: Option<string>,
    res720P: Option<string>,
    defaultPath: Option<string>)

  /** The two libraries the classifier reads, `paths.Movies` and `paths.Tv`. */
  datatype LibraryPaths = LibraryPaths(movies: ResolutionPaths, tv: ResolutionPaths)

  /** The one exception the classifier raises: `TrimEnd` on a null destination. */
  datatype ClassifierError = NullReference

  /** A resolution tier signalled by a token. */
  datatype Tier = Uhd | FullHd | Hd

  // ---------------------------------------------------------------------------
  // Tokens

  /** What every token is: non-empty, and free of '.', ' ' and '/'. */
  predicate IsToken(t: string)
  {
    t != "" && '.' !in t && ' ' !in t && '/' !in t
  }

  /** The release name's tokens: the file name with spaces turned into dots,
      split on dots, empty pieces dropped. */
  function Tokenize(sourcePath: string): (tokens: seq<string>)
    ensures forall k :: 0 <= k < |tokens| ==> IsToken(tokens[k])
  {
    var name := ReplaceChar(GetFileName(sourcePath), ' ', '.');
    FileNameClean(sourcePath);
    TokensClean(name);
    NonEmpty(Split(name, "."))
  }

  lemma FileNameClean(sourcePath: string)
    ensures ' ' !in ReplaceChar(GetFileName(sourcePath), ' ', '.')
    ensures '/' !in ReplaceChar(GetFileName(sourcePath), ' ', '.')
  {
    var name := ReplaceChar(GetFileName(sourcePath), ' ', '.');
    forall i | 0 <= i < |name| ensures name[i] != ' ' && name[i] != '/' {
      assert GetFileName(sourcePath)[i] in GetFileName(sourcePath);
    }
  }

  /** The dot-separated pieces of a name without ' ' and '/' are free of '.',
      ' ' and '/'. */
  lemma PiecesClean(name: string)
    requires ' ' !in name && '/' !in name
    ensures forall p :: p in Split(name, ".") ==> '.' !in p && ' ' !in p && '/' !in p
  {
    var pieces := Split(name, ".");
    SplitKeepsAbsent(name, ".", ' ');
    SplitKeepsAbsent(name, ".", '/');
    forall k | 0 <= k < |pieces| ensures '.' !in pieces[k] {
      if '.' in pieces[k] {
        CharContained(pieces[k], '.');
      }
    }
  }

  lemma TokensClean(name: string)
    requires ' ' !in name && '/' !in name
    ensures forall k :: 0 <= k < |NonEmpty(Split(name, "."))| ==> IsToken(NonEmpty(Split(name, "."))[k])
  {
    PiecesClean(name);
    var r := NonEmpty(Split(name, "."));
    forall k | 0 <= k < |r| ensures IsToken(r[k]) {
      assert r[k] in r;
    }
  }

  /** Tokenizing dot-joined tokens gives the tokens back. */
  lemma TokenizeJoin(tokens: seq<string>)
    requires forall k :: 0 <= k < |tokens| ==> IsToken(tokens[k])
    ensures Tokenize(Join(tokens, ".")) == tokens
  {
    if tokens == [] {
      TokenizeEmpty();
    } else {
      TokenizeJoinNonEmpty(tokens);
    }
  }

  lemma TokenizeJoinNonEmpty(tokens: seq<string>)
    requires |tokens| > 0
    requires forall k :: 0 <= k < |tokens| ==> IsToken(tokens[k])
    ensures Tokenize(Join(tokens, ".")) == tokens
  {
    JoinedNameClean(tokens);
    SplitJoin(tokens, ".");
    NonEmptyKeeps(tokens);
  }

  /** A joined name is its own file name, and has no space to turn into a dot. */
  lemma JoinedNameClean(tokens: seq<string>)
    requires forall k :: 0 <= k < |tokens| ==> IsToken(tokens[k])
    ensures GetFileName(Join(tokens, ".")) == Join(tokens, ".")
    ensures ReplaceChar(Join(tokens, "."), ' ', '.') == Join(tokens, ".")
  {
    JoinKeepsAbsent(tokens, ".", '/');
    JoinKeepsAbsent(tokens, ".", ' ');
    FileNameWithoutSeparator(Join(tokens, "."));
    ReplaceAbsent(Join(tokens, "."), ' ', '.');
  }

  /** The empty name has no tokens. */
  lemma TokenizeEmpty()
    ensures Tokenize("") == []
  {
    assert Split("", ".") == [""];
    assert NonEmpty([""]) == [];
  }

  /** Two paths with the same file name have the same tokens. */
  lemma TokenizeSameFileName(path: string, other: string)
    requires GetFileName(path) == GetFileName(other)
    ensures Tokenize(path) == Tokenize(other)
  {
  }

  /** Only the file name counts: the directories above it are ignored. */
  lemma TokenizeFileNameOnly(dir: string, name: string)
    requires '/' !in name
    ensures Tokenize(dir + "/" + name) == Tokenize(name)
  {
    FileNameOfChild(dir, name);
    FileNameWithoutSeparator(name);
  }

  // ---------------------------------------------------------------------------
  // Season and resolution detection

  /** The prefixes that mark a season token, compared ignoring case. */
  const SeasonPrefixes: seq<string> := ["Season", "S0", "S1", "S2", "S3", "S4", "S5"]

  /** `seasonPrefix.Any(prefix => token.StartsWith(prefix, InvariantCultureIgnoreCase))`. */
  predicate IsSeasonToken(token: string)
  {
    exists i :: 0 <= i < |SeasonPrefixes| && StartsWithIgnoreCase(token, SeasonPrefixes[i])
  }

  /** The separators of the season chain, in the order they are applied;
      each is compared case-sensitively. */
  const SeasonSeparators: seq<string> := ["Seasons", "Season", "E", "e", "EP", "ep"]

  /** The chain of `.Split(separator, RemoveEmptyEntries).FirstOrDefault("")`
      steps, one per separator. */
  function FirstPieces(s: string, separators: seq<string>): string
    requires forall i :: 0 <= i < |separators| ==> separators[i] != ""
    decreases |separators|
  {
    if separators == [] then s else FirstPieces(FirstPiece(s, separators[0]), separators[1..])
  }

  /** The season of a season token. */
  function SeasonOf(token: string): string
  {
    FirstPieces(token, SeasonSeparators)
  }

  /** The season chain written out step by step. */
  lemma SeasonOfSteps(token: string)
    ensures SeasonOf(token) ==
      FirstPiece(FirstPiece(FirstPiece(FirstPiece(FirstPiece(FirstPiece(token, "Seasons"), "Season"), "E"), "e"), "EP"), "ep")
  {
    var s1 := FirstPiece(token, "Seasons");
    var s2 := FirstPiece(s1, "Season");
    var s3 := FirstPiece(s2, "E");
    var s4 := FirstPiece(s3, "e");
    var s5 := FirstPiece(s4, "EP");
    var seps := SeasonSeparators;
    assert FirstPieces(token, seps) == FirstPieces(s1, seps[1..]);
    assert FirstPieces(s1, seps[1..]) == FirstPieces(s2, seps[2..]);
    assert FirstPieces(s2, seps[2..]) == FirstPieces(s3, seps[3..]);
    assert FirstPieces(s3, seps[3..]) == FirstPieces(s4, seps[4..]);
    assert FirstPieces(s4, seps[4..]) == FirstPieces(s5, seps[5..]);
    assert FirstPieces(s5, seps[5..]) == FirstPiece(s5, "ep");
  }

  /** The case labels of `switch (fileNamePart.ToUpper())`, with the tier
      each selects. */
  const TierNames: seq<(string, Tier)> :=
    [("UHD", Uhd), ("2160P", Uhd), ("4K", Uhd), ("1080P", FullHd), ("720P", Hd)]

  /** The tier of the first case label equal to `upper`; none is the
      `default` branch. */
  function LookUpTier(upper: string, names: seq<(string, Tier)>): Option<Tier>
    decreases |names|
  {
    if names == [] then None
    else if upper == names[0].0 then Some(names[0].1)
    else LookUpTier(upper, names[1..])
  }

  /** The resolution tier a token selects, compared upper-cased. */
  function TierOf(token: string): Option<Tier>
  {
    LookUpTier(Upper(token), TierNames)
  }

  /** No case label matches a name equal to none of them. */
  lemma {:induction false} LookUpTierMissing(upper: string, names: seq<(string, Tier)>)
    requires forall i :: 0 <= i < |names| ==> upper != names[i].0
    ensures LookUpTier(upper, names) == None
    decreases |names|
  {
    if names != [] {
      assert upper != names[0].0;
      LookUpTierMissing(upper, names[1..]);
    }
  }

  function TierPath(library: ResolutionPaths, tier: Tier): Option<string>
  {
    match tier
    case Uhd => library.res2160P
    case FullHd => library.res1080P
    case Hd => library.res720P
  }

  /** The tier's path unless it is null or blank, else the library default. */
  function LibraryBase(library: ResolutionPaths, tier: Tier): Option<string>
  {
    if !IsNullOrWhiteSpace(TierPath(library, tier)) then TierPath(library, tier) else library.defaultPath
  }

  /** `$"{base}/{tvShowName}/{tvShowSeason}"`. */
  function TvDirectory(base: Option<string>, showName: string, season: string): string
  {
    Render(base) + "/" + showName + "/" + season
  }

  // ---------------------------------------------------------------------------
  // The per-token state machine

  /** The loop's carried state: the six locals of the source, with the
      `StringBuilder` as the string it holds. */
  datatype Carry = Carry(
    validDestinationDir: bool,
    isTvShow: bool,
    tvShowSeason: string,
    tvShowName: string,
    destinationDir: Option<string>,
    names: string)

  const Initial: Carry := Carry(false, false, "", "", Some(""), "")

  /** Season detection: a season token makes the name a TV show and captures
      the names seen before it. */
  function DetectSeason(st: Carry, token: string): Carry
  {
    if IsSeasonToken(token)
    then st.(isTvShow := true, tvShowSeason := SeasonOf(token), tvShowName := st.names)
    else st
  }

  /** The resolution switch: a tier token sets the destination; any other
      token keeps it once a tier was seen, else recomputes the default one. */
  function Resolve(paths: LibraryPaths, st: Carry, token: string): Carry
  {
    match TierOf(token)
    case Some(tier) =>
      st.(destinationDir :=
            if st.isTvShow then Some(TvDirectory(LibraryBase(paths.tv, tier), st.tvShowName, st.tvShowSeason))
            else LibraryBase(paths.movies, tier),
          validDestinationDir := true)
    case None =>
      st.(destinationDir :=
            if st.validDestinationDir then st.destinationDir
            else if st.isTvShow then Some(TvDirectory(paths.tv.defaultPath, st.tvShowName, st.tvShowSeason))
            else paths.movies.defaultPath)
  }

  /** `nameBuilder.Append($"{(nameBuilder.Length == 0 ? "" : " ")}{fileNamePart}")`. */
  function AppendName(names: string, token: string): string
  {
    if |names| == 0 then token else names + " " + token
  }

  function Step(paths: LibraryPaths, st: Carry, token: string): Carry
  {
    var st' := Resolve(paths, DetectSeason(st, token), token);
    st'.(names := AppendName(st'.names, token))
  }

  /** The state after the loop has consumed `tokens`. */
  function Run(paths: LibraryPaths, tokens: seq<string>): Carry
    decreases |tokens|
  {
    if tokens == [] then Initial
    else Step(paths, Run(paths, tokens[..|tokens| - 1]), tokens[|tokens| - 1])
  }

  /** `return destinationDir.TrimEnd('/')`: throws exactly on a null
      destination, and never returns a path ending in '/'. */
  function Finish(destinationDir: Option<string>): (r: Result<string, ClassifierError>)
    ensures r.Failure? <==> destinationDir.None?
    ensures r.Success? ==> r.value <= destinationDir.value
    ensures r.Success? ==> r.value == "" || r.value[|r.value| - 1] != '/'
    ensures r.Success? && destinationDir.value != "" && destinationDir.value[|destinationDir.value| - 1] != '/'
            ==> r.value == destinationDir.value
  {
    match destinationDir
    case None => Failure(NullReference)
    case Some(d) => Success(TrimEnd(d, '/'))
  }

  /** What `GenerateDestinationPath(sourcePath, paths)` returns or throws. */
  function DestinationPath(sourcePath: string, paths: LibraryPaths): Result<string, ClassifierError>
  {
    Finish(Run(paths, Tokenize(sourcePath)).destinationDir)
  }

  /** A non-empty sequence is its front with its last element appended. */
  lemma SplitLast<T>(s: seq<T>)
    requires s != []
    ensures s == s[..|s| - 1] + [s[|s| - 1]]
  {
  }

  /** Appending a non-empty `b` appends its front, then its last element. */
  lemma AppendSplitLast<T>(a: seq<T>, b: seq<T>)
    requires b != []
    ensures a + b == (a + b[..|b| - 1]) + [b[|b| - 1]]
  {
    SplitLast(b);
  }

  /** One more token is one more step. */
  lemma RunSnoc(paths: LibraryPaths, tokens: seq<string>, i: nat)
    requires i < |tokens|
    ensures Run(paths, tokens[..i + 1]) == Step(paths, Run(paths, tokens[..i]), tokens[i])
  {
    assert tokens[..i + 1][..i] == tokens[..i];
  }

  /** A token appended is one more step. */
  lemma RunLast(paths: LibraryPaths, tokens: seq<string>, t: string)
    ensures Run(paths, tokens + [t]) == Step(paths, Run(paths, tokens), t)
  {
    assert (tokens + [t])[..|tokens|] == tokens;
  }

  /** The classifier: tokenizes the file name of `sourcePath` and runs the
      per-token loop over the tokens. */
  method GenerateDestinationPath(sourcePath: string, paths: LibraryPaths)
    returns (r: Result<string, ClassifierError>)
    ensures r == DestinationPath(sourcePath, paths)
  {
    var fileNameParts := Tokenize(sourcePath);
    r := Classify(fileNameParts, paths);
  }

  /** The `foreach` loop over the tokens, with the source's six locals. */
  method Classify(fileNameParts: seq<string>, paths: LibraryPaths) returns (r: Result<string, ClassifierError>)
    ensures r == Finish(Run(paths, fileNameParts).destinationDir)
  {
    var validDestinationDir := false;
    var isTvShow := false;
    var tvShowSeason := "";
    var tvShowName := "";
    var destinationDir: Option<string> := Some("");
    var nameBuilder := "";
    for i := 0 to |fileNameParts|
      invariant Carry(validDestinationDir, isTvShow, tvShowSeason, tvShowName, destinationDir, nameBuilder)
             == Run(paths, fileNameParts[..i])
    {
      var fileNamePart := fileNameParts[i];
      ghost var before := Carry(validDestinationDir, isTvShow, tvShowSeason, tvShowName, destinationDir, nameBuilder);
      if IsSeasonToken(fileNamePart) {
        isTvShow := true;
        tvShowSeason := SeasonOf(fileNamePart);
        tvShowName := nameBuilder;
      }
      match TierOf(fileNamePart) {
        case Some(tier) =>
          destinationDir :=
            if isTvShow then Some(TvDirectory(LibraryBase(paths.tv, tier), tvShowName, tvShowSeason))
            else LibraryBase(paths.movies, tier);
          validDestinationDir := true;
        case None =>
          destinationDir :=
            if validDestinationDir then destinationDir
            else if isTvShow then Some(TvDirectory(paths.tv.defaultPath, tvShowName, tvShowSeason))
            else paths.movies.defaultPath;
      }
      nameBuilder := AppendName(nameBuilder, fileNamePart);
      assert Carry(validDestinationDir, isTvShow, tvShowSeason, tvShowName, destinationDir, nameBuilder)
          == Step(paths, before, fileNamePart);
      RunSnoc(paths, fileNameParts, i);
    }
    assert fileNameParts[..|fileNameParts|] == fileNameParts;
    r := Finish(destinationDir);
  }

  // ---------------------------------------------------------------------------
  // The destination without the loop

  /** The index of the last resolution token, if any. */
  function LastTier(tokens: seq<string>): (r: Option<nat>)
    ensures r.Some? ==> r.value < |tokens| && TierOf(tokens[r.value]).Some?
    decreases |tokens|
  {
    if tokens == [] then None
    else if TierOf(tokens[|tokens| - 1]).Some? then Some(|tokens| - 1)
    else LastTier(tokens[..|tokens| - 1])
  }

  /** The index of the last season token, if any. */
  function LastSeason(tokens: seq<string>): (r: Option<nat>)
    ensures r.Some? ==> r.value < |tokens| && IsSeasonToken(tokens[r.value])
    decreases |tokens|
  {
    if tokens == [] then None
    else if IsSeasonToken(tokens[|tokens| - 1]) then Some(|tokens| - 1)
    else LastSeason(tokens[..|tokens| - 1])
  }

  /** No resolution token comes after the last one. */
  lemma {:induction false} NoTierAfterLast(tokens: seq<string>)
    ensures forall j :: (if LastTier(tokens).Some? then LastTier(tokens).value < j else 0 <= j) && j < |tokens|
                        ==> TierOf(tokens[j]).None?
    decreases |tokens|
  {
    if tokens != [] && TierOf(tokens[|tokens| - 1]).None? {
      var init := tokens[..|tokens| - 1];
      NoTierAfterLast(init);
      forall j | (if LastTier(tokens).Some? then LastTier(tokens).value < j else 0 <= j) && j < |tokens|
        ensures TierOf(tokens[j]).None?
      {
        if j < |init| {
          assert tokens[j] == init[j];
        }
      }
    }
  }

  /** No season token comes after the last one. */
  lemma {:induction false} NoSeasonAfterLast(tokens: seq<string>)
    ensures forall j :: (if LastSeason(tokens).Some? then LastSeason(tokens).value < j else 0 <= j) && j < |tokens|
                        ==> !IsSeasonToken(tokens[j])
    decreases |tokens|
  {
    if tokens != [] && !IsSeasonToken(tokens[|tokens| - 1]) {
      var init := tokens[..|tokens| - 1];
      NoSeasonAfterLast(init);
      forall j | (if LastSeason(tokens).Some? then LastSeason(tokens).value < j else 0 <= j) && j < |tokens|
        ensures !IsSeasonToken(tokens[j])
      {
        if j < |init| {
          assert tokens[j] == init[j];
        }
      }
    }
  }

  /** A TV directory when `tokens` hold a season token (named by the tokens
      before the last one, with its season), else the movie directory. */
  function ShowOrMovie(tvBase: Option<string>, movieBase: Option<string>, tokens: seq<string>): Option<string>
  {
    match LastSeason(tokens)
    case None => movieBase
    case Some(k) => Some(TvDirectory(tvBase, Join(tokens[..k], " "), SeasonOf(tokens[k])))
  }

  /** The destination stated without the loop. No tokens leave the initial
      empty destination. Otherwise the last resolution token picks the tier,
      and the name is a TV show when a season token comes before it; with no
      resolution token at all, the libraries' default paths are used and any
      season token makes a TV show. */
  function ExpectedDestination(paths: LibraryPaths, tokens: seq<string>): Option<string>
  {
    if tokens == [] then Some("")
    else match LastTier(tokens)
      case None => ShowOrMovie(paths.tv.defaultPath, paths.movies.defaultPath, tokens)
      case Some(j) =>
        var tier := TierOf(tokens[j]).value;
        ShowOrMovie(LibraryBase(paths.tv, tier), LibraryBase(paths.movies, tier), tokens[..j + 1])
  }

  /** What one step does to each field. */
  lemma StepFields(paths: LibraryPaths, st: Carry, t: string)
    ensures Step(paths, st, t).names == AppendName(st.names, t)
    ensures Step(paths, st, t).isTvShow == (st.isTvShow || IsSeasonToken(t))
    ensures Step(paths, st, t).validDestinationDir == (st.validDestinationDir || TierOf(t).Some?)
    ensures Step(paths, st, t).tvShowName == if IsSeasonToken(t) then st.names else st.tvShowName
    ensures Step(paths, st, t).tvShowSeason == if IsSeasonToken(t) then SeasonOf(t) else st.tvShowSeason
  {
  }

  /** What one step does to the destination, in terms of the new flags. */
  lemma StepDestination(paths: LibraryPaths, st: Carry, t: string)
    ensures var n := Step(paths, st, t);
      n.destinationDir ==
        match TierOf(t)
        case Some(tier) =>
          ShowDirectory(n, LibraryBase(paths.tv, tier), LibraryBase(paths.movies, tier))
        case None =>
          if st.validDestinationDir then st.destinationDir
          else ShowDirectory(n, paths.tv.defaultPath, paths.movies.defaultPath)
  {
  }

  /** The TV directory of a state's show and season, or the movie directory. */
  function ShowDirectory(st: Carry, tvBase: Option<string>, movieBase: Option<string>): Option<string>
  {
    if st.isTvShow then Some(TvDirectory(tvBase, st.tvShowName, st.tvShowSeason)) else movieBase
  }

  /** The loop's names after `tokens` are the tokens joined by spaces. */
  lemma {:induction false} RunNames(paths: LibraryPaths, tokens: seq<string>)
    requires forall k :: 0 <= k < |tokens| ==> tokens[k] != ""
    ensures Run(paths, tokens).names == Join(tokens, " ")
    decreases |tokens|
  {
    if tokens != [] {
      var init := tokens[..|tokens| - 1];
      var t := tokens[|tokens| - 1];
      RunNames(paths, init);
      StepFields(paths, Run(paths, init), t);
      SplitLast(tokens);
      if init != [] {
        JoinSnoc(init, " ", t);
        JoinHeadNonEmpty(init, " ");
      }
    }
  }

  /** The TV flag is set iff a season token was seen, the valid flag iff a
      resolution token was seen, and the show name and season come from the
      last season token. */
  lemma {:induction false} RunState(paths: LibraryPaths, tokens: seq<string>)
    requires forall k :: 0 <= k < |tokens| ==> tokens[k] != ""
    ensures Run(paths, tokens).validDestinationDir <==> LastTier(tokens).Some?
    ensures Run(paths, tokens).isTvShow <==> LastSeason(tokens).Some?
    ensures LastSeason(tokens).None? ==> Run(paths, tokens).tvShowName == "" && Run(paths, tokens).tvShowSeason == ""
    ensures LastSeason(tokens).Some? ==>
              Run(paths, tokens).tvShowName == Join(tokens[..LastSeason(tokens).value], " ")
              && Run(paths, tokens).tvShowSeason == SeasonOf(tokens[LastSeason(tokens).value])
  {
    RunValidIff(paths, tokens);
    RunTvIff(paths, tokens);
    RunShow(paths, tokens);
  }

  /** The TV flag is set iff a season token was seen. */
  lemma {:induction false} RunTvIff(paths: LibraryPaths, tokens: seq<string>)
    ensures Run(paths, tokens).isTvShow <==> LastSeason(tokens).Some?
    decreases |tokens|
  {
    if tokens != [] {
      var init := tokens[..|tokens| - 1];
      RunTvIff(paths, init);
      StepFields(paths, Run(paths, init), tokens[|tokens| - 1]);
    }
  }

  /** The show name and season come from the last season token. */
  lemma {:induction false} RunShow(paths: LibraryPaths, tokens: seq<string>)
    requires forall k :: 0 <= k < |tokens| ==> tokens[k] != ""
    ensures LastSeason(tokens).None? ==> Run(paths, tokens).tvShowName == "" && Run(paths, tokens).tvShowSeason == ""
    ensures LastSeason(tokens).Some? ==>
              Run(paths, tokens).tvShowName == Join(tokens[..LastSeason(tokens).value], " ")
              && Run(paths, tokens).tvShowSeason == SeasonOf(tokens[LastSeason(tokens).value])
    decreases |tokens|
  {
    if tokens != [] {
      var init := tokens[..|tokens| - 1];
      var t := tokens[|tokens| - 1];
      if IsSeasonToken(t) {
        SeasonStepShow(paths, tokens);
      } else {
        RunShow(paths, init);
        PlainStepShow(paths, tokens);
        if LastSeason(init).Some? {
          PrefixOfInit(tokens, LastSeason(init).value);
        }
      }
    }
  }

  /** A season token as the last token names the show after all before it. */
  lemma SeasonStepShow(paths: LibraryPaths, tokens: seq<string>)
    requires tokens != [] && IsSeasonToken(tokens[|tokens| - 1])
    requires forall k :: 0 <= k < |tokens| ==> tokens[k] != ""
    ensures LastSeason(tokens) == Some(|tokens| - 1)
    ensures Run(paths, tokens).tvShowName == Join(tokens[..|tokens| - 1], " ")
    ensures Run(paths, tokens).tvShowSeason == SeasonOf(tokens[|tokens| - 1])
  {
    var init := tokens[..|tokens| - 1];
    assert forall k :: 0 <= k < |init| ==> init[k] != "";
    RunNames(paths, init);
    StepFields(paths, Run(paths, init), tokens[|tokens| - 1]);
  }

  /** Any other last token leaves the show name and season as they were. */
  lemma PlainStepShow(paths: LibraryPaths, tokens: seq<string>)
    requires tokens != [] && !IsSeasonToken(tokens[|tokens| - 1])
    ensures LastSeason(tokens) == LastSeason(tokens[..|tokens| - 1])
    ensures Run(paths, tokens).tvShowName == Run(paths, tokens[..|tokens| - 1]).tvShowName
    ensures Run(paths, tokens).tvShowSeason == Run(paths, tokens[..|tokens| - 1]).tvShowSeason
  {
    StepFields(paths, Run(paths, tokens[..|tokens| - 1]), tokens[|tokens| - 1]);
  }

  /** The loop computes the reference destination. */
  lemma {:induction false} RunDestination(paths: LibraryPaths, tokens: seq<string>)
    requires forall k :: 0 <= k < |tokens| ==> tokens[k] != ""
    ensures Run(paths, tokens).destinationDir == ExpectedDestination(paths, tokens)
    decreases |tokens|
  {
    if tokens != [] {
      var init := tokens[..|tokens| - 1];
      if TierOf(tokens[|tokens| - 1]).Some? {
        TierStepDestination(paths, tokens);
      } else {
        RunDestination(paths, init);
        PlainStepDestination(paths, tokens);
      }
    }
  }

  /** Below its last element, a sequence and its initial part agree. */
  lemma PrefixOfInit<T>(s: seq<T>, k: nat)
    requires k < |s| - 1
    ensures s[..k] == s[..|s| - 1][..k]
    ensures s[k] == s[..|s| - 1][k]
  {
  }

  /** A resolution token as the last token picks the destination afresh. */
  lemma TierStepDestination(paths: LibraryPaths, tokens: seq<string>)
    requires tokens != [] && TierOf(tokens[|tokens| - 1]).Some?
    requires forall k :: 0 <= k < |tokens| ==> tokens[k] != ""
    ensures Run(paths, tokens).destinationDir == ExpectedDestination(paths, tokens)
  {
    var init := tokens[..|tokens| - 1];
    var t := tokens[|tokens| - 1];
    var tier := TierOf(t).value;
    StepDestination(paths, Run(paths, init), t);
    RunShowOrMovie(paths, tokens, LibraryBase(paths.tv, tier), LibraryBase(paths.movies, tier));
    assert LastTier(tokens) == Some(|init|);
    assert tokens[..|init| + 1] == tokens;
  }

  /** Any other last token keeps the destination of the tokens before it,
      or the default one when no resolution token came yet. */
  lemma PlainStepDestination(paths: LibraryPaths, tokens: seq<string>)
    requires tokens != [] && TierOf(tokens[|tokens| - 1]).None?
    requires forall k :: 0 <= k < |tokens| ==> tokens[k] != ""
    requires Run(paths, tokens[..|tokens| - 1]).destinationDir == ExpectedDestination(paths, tokens[..|tokens| - 1])
    ensures Run(paths, tokens).destinationDir == ExpectedDestination(paths, tokens)
  {
    var init := tokens[..|tokens| - 1];
    var t := tokens[|tokens| - 1];
    StepDestination(paths, Run(paths, init), t);
    assert LastTier(tokens) == LastTier(init);
    if LastTier(init).Some? {
      RunValidIff(paths, init);
      ExpectedKeepsTier(paths, tokens);
    } else {
      RunValidIff(paths, init);
      RunShowOrMovie(paths, tokens, paths.tv.defaultPath, paths.movies.defaultPath);
    }
  }

  /** The valid flag is set iff a resolution token was seen. */
  lemma {:induction false} RunValidIff(paths: LibraryPaths, tokens: seq<string>)
    ensures Run(paths, tokens).validDestinationDir <==> LastTier(tokens).Some?
    decreases |tokens|
  {
    if tokens != [] {
      var init := tokens[..|tokens| - 1];
      RunValidIff(paths, init);
      StepFields(paths, Run(paths, init), tokens[|tokens| - 1]);
    }
  }

  /** The state's show-or-movie choice is the reference one. */
  lemma RunShowOrMovie(paths: LibraryPaths, tokens: seq<string>, tvBase: Option<string>, movieBase: Option<string>)
    requires forall k :: 0 <= k < |tokens| ==> tokens[k] != ""
    ensures ShowDirectory(Run(paths, tokens), tvBase, movieBase) == ShowOrMovie(tvBase, movieBase, tokens)
  {
    RunState(paths, tokens);
  }

  /** A last token that is no resolution token leaves the reference
      destination of the tokens before it, once a resolution token came. */
  lemma ExpectedKeepsTier(paths: LibraryPaths, tokens: seq<string>)
    requires tokens != [] && TierOf(tokens[|tokens| - 1]).None?
    requires LastTier(tokens[..|tokens| - 1]).Some?
    ensures ExpectedDestination(paths, tokens) == ExpectedDestination(paths, tokens[..|tokens| - 1])
  {
    var init := tokens[..|tokens| - 1];
    var j := LastTier(init).value;
    assert LastTier(tokens) == Some(j);
    ExpectedWithTier(paths, tokens, j);
    ExpectedWithTier(paths, init, j);
    assert init[..j + 1] == tokens[..j + 1];
    assert init[j] == tokens[j];
  }

  /** Without a season token the name goes to the movie library: the last
      resolution token's path, else the movies' default path. */
  lemma MovieDestination(paths: LibraryPaths, tokens: seq<string>)
    requires |tokens| > 0
    requires forall k :: 0 <= k < |tokens| ==> tokens[k] != "" && !IsSeasonToken(tokens[k])
    ensures Run(paths, tokens).destinationDir ==
              match LastTier(tokens)
              case None => paths.movies.defaultPath
              case Some(j) => LibraryBase(paths.movies, TierOf(tokens[j]).value)
  {
    RunDestination(paths, tokens);
    if LastTier(tokens).Some? {
      var j := LastTier(tokens).value;
      var prefix := tokens[..j + 1];
      forall i | 0 <= i < |prefix| ensures !IsSeasonToken(prefix[i]) {
        assert prefix[i] == tokens[i];
      }
    }
  }

  /** When the last season token up to the last resolution token `j` is at
      `k`, the name is filed under the TV library of that resolution, as the
      show named by the tokens before `k`. */
  lemma ShowDestination(paths: LibraryPaths, tokens: seq<string>, k: nat, j: nat)
    requires forall i :: 0 <= i < |tokens| ==> tokens[i] != ""
    requires LastTier(tokens) == Some(j) && k < j
    requires LastSeason(tokens[..j + 1]) == Some(k)
    ensures Run(paths, tokens).destinationDir ==
              Some(TvDirectory(LibraryBase(paths.tv, TierOf(tokens[j]).value), Join(tokens[..k], " "), SeasonOf(tokens[k])))
  {
    var prefix, rest := tokens[..j + 1], tokens[j + 1..];
    TakeAvoids(tokens, j + 1, "");
    TakeLast(tokens, j + 1);
    TierPrefixShow(paths, prefix, k);
    AfterLastTier(tokens, j, rest);
    StickyDestination(paths, prefix, rest);
    PrefixOfPrefix(tokens, k, j + 1);
  }

  /** Tokens ending in a resolution token whose last season token is at `k`
      set the TV directory of that resolution, for good. */
  lemma TierPrefixShow(paths: LibraryPaths, tokens: seq<string>, k: nat)
    requires tokens != [] && TierOf(tokens[|tokens| - 1]).Some?
    requires forall i :: 0 <= i < |tokens| ==> tokens[i] != ""
    requires LastSeason(tokens) == Some(k)
    ensures Run(paths, tokens).validDestinationDir
    ensures Run(paths, tokens).destinationDir ==
              Some(TvDirectory(LibraryBase(paths.tv, TierOf(tokens[|tokens| - 1]).value), Join(tokens[..k], " "), SeasonOf(tokens[k])))
  {
    var init, t := tokens[..|tokens| - 1], tokens[|tokens| - 1];
    var tier := TierOf(t).value;
    var tvBase, movieBase := LibraryBase(paths.tv, tier), LibraryBase(paths.movies, tier);
    StepFields(paths, Run(paths, init), t);
    StepDestination(paths, Run(paths, init), t);
    RunShowOrMovie(paths, tokens, tvBase, movieBase);
    ShowOrMovieLastSeason(tvBase, movieBase, tokens, k);
  }

  /** The tokens after the last resolution token hold none, and follow the
      tokens up to it. */
  lemma AfterLastTier(tokens: seq<string>, j: nat, rest: seq<string>)
    requires LastTier(tokens) == Some(j) && rest == tokens[j + 1..]
    ensures tokens[..j + 1] + rest == tokens
    ensures forall i :: 0 <= i < |rest| ==> TierOf(rest[i]).None?
  {
    NoTierAfterLast(tokens);
    forall i | 0 <= i < |rest| ensures TierOf(rest[i]).None? {
      assert rest[i] == tokens[j + 1 + i];
    }
  }

  /** Tokens whose last season token is at `k` name a TV show: the tokens
      before `k`, with the season of token `k`. */
  lemma ShowOrMovieLastSeason(tvBase: Option<string>, movieBase: Option<string>, tokens: seq<string>, k: nat)
    requires LastSeason(tokens) == Some(k)
    ensures ShowOrMovie(tvBase, movieBase, tokens) == Some(TvDirectory(tvBase, Join(tokens[..k], " "), SeasonOf(tokens[k])))
  {
  }

  /** The last of the first `n` elements is element `n - 1`. */
  lemma TakeLast<T>(s: seq<T>, n: nat)
    requires 0 < n <= |s|
    ensures s[..n][n - 1] == s[n - 1]
  {
  }

  /** A value that no element equals is no element of a prefix either. */
  lemma TakeAvoids<T>(s: seq<T>, n: nat, x: T)
    requires n <= |s| && forall i :: 0 <= i < |s| ==> s[i] != x
    ensures forall i :: 0 <= i < n ==> s[..n][i] != x
  {
  }

  /** Below `n`, a sequence and its first `n` elements agree. */
  lemma PrefixOfPrefix<T>(s: seq<T>, k: nat, n: nat)
    requires k < n <= |s|
    ensures s[..n][..k] == s[..k]
    ensures s[..n][k] == s[k]
  {
  }

  /** With a last resolution token at `j`, the reference destination is
      decided by the tokens up to `j`. */
  lemma ExpectedWithTier(paths: LibraryPaths, tokens: seq<string>, j: nat)
    requires LastTier(tokens) == Some(j)
    ensures ExpectedDestination(paths, tokens)
            == ShowOrMovie(LibraryBase(paths.tv, TierOf(tokens[j]).value), LibraryBase(paths.movies, TierOf(tokens[j]).value), tokens[..j + 1])
  {
    assert tokens != [];
  }

  /** The last season token of a prefix. */
  lemma LastSeasonOfPrefix(tokens: seq<string>, k: nat, n: nat)
    requires k < n <= |tokens| && IsSeasonToken(tokens[k])
    requires forall i :: k < i < n ==> !IsSeasonToken(tokens[i])
    ensures LastSeason(tokens[..n]) == Some(k)
  {
    var prefix := tokens[..n];
    assert prefix[k] == tokens[k];
    forall i | k < i < n ensures !IsSeasonToken(prefix[i]) {
      assert prefix[i] == tokens[i];
    }
    LastSeasonAt(prefix, k);
  }

  /** Once a resolution token fixed the destination, tokens without one
      leave it and the valid flag unchanged. */
  lemma {:induction false} StickyDestination(paths: LibraryPaths, tokens: seq<string>, rest: seq<string>)
    requires Run(paths, tokens).validDestinationDir
    requires forall i :: 0 <= i < |rest| ==> TierOf(rest[i]).None?
    ensures Run(paths, tokens + rest).validDestinationDir
    ensures Run(paths, tokens + rest).destinationDir == Run(paths, tokens).destinationDir
    decreases |rest|
  {
    if rest != [] {
      var init := rest[..|rest| - 1];
      var t := rest[|rest| - 1];
      var before := tokens + init;
      StickyDestination(paths, tokens, init);
      assert TierOf(t).None?;
      RunLast(paths, before, t);
      AppendSplitLast(tokens, rest);
      StepKeepsDestination(paths, Run(paths, before), t);
    } else {
      assert tokens + rest == tokens;
    }
  }

  /** A step without a resolution token keeps a valid destination. */
  lemma StepKeepsDestination(paths: LibraryPaths, st: Carry, t: string)
    requires st.validDestinationDir && TierOf(t).None?
    ensures Step(paths, st, t).validDestinationDir
    ensures Step(paths, st, t).destinationDir == st.destinationDir
  {
  }

  /** The TV and valid flags are never cleared by later tokens. */
  lemma {:induction false} FlagsStaySet(paths: LibraryPaths, tokens: seq<string>, rest: seq<string>)
    ensures Run(paths, tokens).isTvShow ==> Run(paths, tokens + rest).isTvShow
    ensures Run(paths, tokens).validDestinationDir ==> Run(paths, tokens + rest).validDestinationDir
    decreases |rest|
  {
    if rest != [] {
      var init := rest[..|rest| - 1];
      var t := rest[|rest| - 1];
      var before := tokens + init;
      FlagsStaySet(paths, tokens, init);
      RunLast(paths, before, t);
      AppendSplitLast(tokens, rest);
      StepFields(paths, Run(paths, before), t);
    } else {
      assert tokens + rest == tokens;
    }
  }

  /** The classifier only looks at the file name: the directories above it
      do not change the result. */
  lemma DestinationOfFileName(sourcePath: string, paths: LibraryPaths)
    ensures DestinationPath(sourcePath, paths) == DestinationPath(GetFileName(sourcePath), paths)
  {
    FileNameIdempotent(sourcePath);
  }

  /** A name with no tokens keeps the initial empty destination. */
  lemma NoTokensNoDestination(sourcePath: string, paths: LibraryPaths)
    requires Tokenize(sourcePath) == []
    ensures DestinationPath(sourcePath, paths) == Success("")
  {
  }

  /** The tokens make a movie (no season token up to the last resolution
      token, or at all without one) whose base path is null. */
  predicate NullMovieBase(paths: LibraryPaths, tokens: seq<string>)
  {
    tokens != []
    && LastSeason(if LastTier(tokens).Some? then tokens[..LastTier(tokens).value + 1] else tokens).None?
    && match LastTier(tokens)
       case None => paths.movies.defaultPath.None?
       case Some(j) => LibraryBase(paths.movies, TierOf(tokens[j]).value).None?
  }

  /** The result is a `Failure` exactly when the name is a movie whose base
      path is null: a null TV base still renders as "". */
  lemma FailureFromMoviePath(sourcePath: string, paths: LibraryPaths)
    ensures DestinationPath(sourcePath, paths).Failure? <==> NullMovieBase(paths, Tokenize(sourcePath))
  {
    var tokens := Tokenize(sourcePath);
    RunDestination(paths, tokens);
    ExpectedNone(paths, tokens);
  }

  /** The reference destination is null exactly for a movie with a null base. */
  lemma ExpectedNone(paths: LibraryPaths, tokens: seq<string>)
    ensures ExpectedDestination(paths, tokens).None? <==> NullMovieBase(paths, tokens)
  {
    if tokens != [] {
      if LastTier(tokens).Some? {
        var j := LastTier(tokens).value;
        ExpectedWithTier(paths, tokens, j);
        var tier := TierOf(tokens[j]).value;
        ShowOrMovieNone(LibraryBase(paths.tv, tier), LibraryBase(paths.movies, tier), tokens[..j + 1]);
      } else {
        ShowOrMovieNone(paths.tv.defaultPath, paths.movies.defaultPath, tokens);
      }
    }
  }


  /** Only a movie can lack a directory, and only when its base is null. */
  lemma ShowOrMovieNone(tvBase: Option<string>, movieBase: Option<string>, tokens: seq<string>)
    ensures ShowOrMovie(tvBase, movieBase, tokens).None? <==> LastSeason(tokens).None? && movieBase.None?
  {
  }

  // ---------------------------------------------------------------------------
  // Seasons

  /** Every season token starts with 'S' or 's'. */
  lemma SeasonTokenStartsWithS(token: string)
    requires IsSeasonToken(token)
    ensures |token| > 0 && UpperChar(token[0]) == 'S'
  {
    var i :| 0 <= i < |SeasonPrefixes| && StartsWithIgnoreCase(token, SeasonPrefixes[i]);
    var p := SeasonPrefixes[i];
    assert p[0] == 'S';
    assert Upper(token[..|p|])[0] == UpperChar(token[0]);
    assert Upper(p)[0] == UpperChar('S');
  }

  /** "1080p" is the full-HD token, whatever its case. */
  lemma FullHdToken()
    ensures TierOf("1080p") == Some(FullHd)
  {
    assert Upper("1080p") == "1080P";
  }

  /** A token whose first letter starts none of the resolution names is no
      resolution token. */
  lemma NotTierToken(token: string)
    requires |token| == 1 || |token| > 5 || (|token| > 0 && UpperChar(token[0]) !in "U2417")
    ensures TierOf(token).None?
  {
    var upper := Upper(token);
    if |token| > 0 {
      assert upper[0] == UpperChar(token[0]);
    }
    forall i | 0 <= i < |TierNames| ensures upper != TierNames[i].0 {
      assert 2 <= |TierNames[i].0| <= 5 && TierNames[i].0[0] in "U2417";
    }
    LookUpTierMissing(upper, TierNames);
  }

  /** The last resolution token is the one with none after it. */
  lemma {:induction false} LastTierAt(tokens: seq<string>, j: nat)
    requires j < |tokens| && TierOf(tokens[j]).Some?
    requires forall i :: j < i < |tokens| ==> TierOf(tokens[i]).None?
    ensures LastTier(tokens) == Some(j)
    decreases |tokens|
  {
    if j < |tokens| - 1 {
      var init := tokens[..|tokens| - 1];
      assert TierOf(tokens[|tokens| - 1]).None?;
      forall i | j < i < |init| ensures TierOf(init[i]).None? {
        assert init[i] == tokens[i];
      }
      assert init[j] == tokens[j];
      LastTierAt(init, j);
    }
  }

  /** The last season token is the one with none after it. */
  lemma {:induction false} LastSeasonAt(tokens: seq<string>, k: nat)
    requires k < |tokens| && IsSeasonToken(tokens[k])
    requires forall i :: k < i < |tokens| ==> !IsSeasonToken(tokens[i])
    ensures LastSeason(tokens) == Some(k)
    decreases |tokens|
  {
    if k < |tokens| - 1 {
      var init := tokens[..|tokens| - 1];
      assert !IsSeasonToken(tokens[|tokens| - 1]);
      forall i | k < i < |init| ensures !IsSeasonToken(init[i]) {
        assert init[i] == tokens[i];
      }
      assert init[k] == tokens[k];
      LastSeasonAt(init, k);
    }
  }

  /** A season never holds an episode marker 'E' or 'e'. */
  lemma SeasonLacksEpisodeMarker(token: string)
    ensures 'E' !in SeasonOf(token) && 'e' !in SeasonOf(token)
  {
    var s1 := FirstPiece(token, "Seasons");
    var s2 := FirstPiece(s1, "Season");
    var s3 := FirstPiece(s2, "E");
    var s4 := FirstPiece(s3, "e");
    var s5 := FirstPiece(s4, "EP");
    FirstPieceLacksSeparator(s2, 'E');
    FirstPieceLacksSeparator(s3, 'e');
    FirstPieceLacks(s3, "e", 'E');
    FirstPieceLacks(s4, "EP", 'E');
    FirstPieceLacks(s4, "EP", 'e');
    FirstPieceLacks(s5, "ep", 'E');
    FirstPieceLacks(s5, "ep", 'e');
  }

  /** In an episode token `head + "E" + tail` (no "Season" in it, no 'E' or
      'e' in `head`) the season is `head`. */
  lemma SeasonOfEpisode(head: string, tail: string)
    requires head != "" && 'E' !in head && 'e' !in head
    requires !Contains(head + "E" + tail, "Season")
    ensures SeasonOf(head + "E" + tail) == head
  {
    var token := head + "E" + tail;
    if Contains(token, "Seasons") {
      assert "Season" + "s" == "Seasons";
      ContainsLonger(token, "Season", "s");
    }
    FirstPieceWhole(token, "Seasons");
    FirstPieceWhole(token, "Season");
    FirstPieceHead(head, "E", tail);
    AbsentFirstChar(head, "e");
    FirstPieceWhole(head, "e");
    AbsentFirstChar(head, "EP");
    FirstPieceWhole(head, "EP");
    AbsentFirstChar(head, "ep");
    FirstPieceWhole(head, "ep");
  }

  /** The season-range token "Seasons" has the empty season. */
  lemma SeasonOfSeasons()
    ensures SeasonOf("Seasons") == ""
  {
    FirstPieceOfSeparator("Seasons");
    FirstPieceEmpty("Season");
    FirstPieceEmpty("E");
    FirstPieceEmpty("e");
    FirstPieceEmpty("EP");
    FirstPieceEmpty("ep");
  }

  // ---------------------------------------------------------------------------
  // The unit tests' three names
  //
  // Each test's file name is its tokens joined by dots, under any directory.

  /** The destination of a path whose file name is `tokens` joined by dots
      is what the loop computes from exactly those tokens. */
  lemma DestinationOfJoinedTokens(dir: string, tokens: seq<string>, paths: LibraryPaths)
    requires forall k :: 0 <= k < |tokens| ==> IsToken(tokens[k])
    ensures DestinationPath(dir + "/" + Join(tokens, "."), paths) == Finish(Run(paths, tokens).destinationDir)
  {
    TokenizeJoinedPath(dir, tokens);
  }

  /** A path whose file name is `tokens` joined by dots has exactly those tokens. */
  lemma TokenizeJoinedPath(dir: string, tokens: seq<string>)
    requires forall k :: 0 <= k < |tokens| ==> IsToken(tokens[k])
    ensures Tokenize(dir + "/" + Join(tokens, ".")) == tokens
  {
    TokenizeJoin(tokens);
    JoinKeepsAbsent(tokens, ".", '/');
    TokenizeFileNameOnly(dir, Join(tokens, "."));
  }

  /** A token that does not start with 'S' or 's' is no season token. */
  lemma NotSeasonToken(token: string)
    requires token == "" || UpperChar(token[0]) != 'S'
    ensures !IsSeasonToken(token)
  {
    if IsSeasonToken(token) {
      SeasonTokenStartsWithS(token);
    }
  }

  /** Only the two default paths are configured. */
  const TestPaths: LibraryPaths :=
    LibraryPaths(ResolutionPaths(None, None, None, Some("/movies")), ResolutionPaths(None, None, None, Some("/tv")))

  /** "Testing.2025.1080p.WEB.h264-Testers". */
  const MovieTokens: seq<string> := ["Testing", "2025", "1080p", "WEB", "h264-Testers"]

  /** A movie release goes to the movies' default path. */
  lemma MovieExample(dir: string)
    ensures DestinationPath(dir + "/" + Join(MovieTokens, "."), TestPaths) == Success("/movies")
  {
    MovieExampleTokens();
    DestinationOfJoinedTokens(dir, MovieTokens, TestPaths);
    MovieExampleRun();
    MovieExampleFinish();
  }

  lemma MovieExampleFinish()
    ensures Finish(Some("/movies")) == Success("/movies")
  {
  }

  lemma MovieExampleTokens()
    ensures forall k :: 0 <= k < |MovieTokens| ==> IsToken(MovieTokens[k])
  {
    assert IsToken("Testing") && IsToken("2025") && IsToken("1080p");
    assert IsToken("WEB") && IsToken("h264-Testers");
  }

  lemma MovieExampleNoSeason()
    ensures forall k :: 0 <= k < |MovieTokens| ==> MovieTokens[k] != "" && !IsSeasonToken(MovieTokens[k])
  {
    forall k | 0 <= k < |MovieTokens| ensures MovieTokens[k] != "" && !IsSeasonToken(MovieTokens[k]) {
      if k == 0 {
        NotSeasonToken("Testing");
      } else if k == 1 {
        NotSeasonToken("2025");
      } else if k == 2 {
        NotSeasonToken("1080p");
      } else if k == 3 {
        NotSeasonToken("WEB");
      } else {
        NotSeasonToken("h264-Testers");
      }
    }
  }

  lemma MovieExampleRun()
    ensures Run(TestPaths, MovieTokens).destinationDir == Some("/movies")
  {
    MovieExampleNoSeason();
    MovieExampleTier();
    MovieDestination(TestPaths, MovieTokens);
  }

  lemma MovieExampleTier()
    ensures LastTier(MovieTokens) == Some(2) && TierOf(MovieTokens[2]) == Some(FullHd)
  {
    FullHdToken();
    MovieExampleAfterTier();
    LastTierAt(MovieTokens, 2);
  }

  lemma MovieExampleAfterTier()
    ensures forall i :: 2 < i < |MovieTokens| ==> TierOf(MovieTokens[i]).None?
  {
    forall i | 2 < i < |MovieTokens| ensures TierOf(MovieTokens[i]).None? {
      if i == 3 {
        NotTierToken("WEB");
      } else {
        NotTierToken("h264-Testers");
      }
    }
  }

  /** "The.Test.S01E10.1080p.WEBRip.DD5.1.X.264-Testers.mkv". */
  const EpisodeTokens: seq<string> := ["The", "Test", "S01E10", "1080p", "WEBRip", "DD5", "1", "X", "264-Testers", "mkv"]

  /** An episode goes to the show's season directory. */
  lemma EpisodeExample(dir: string)
    ensures DestinationPath(dir + "/" + Join(EpisodeTokens, "."), TestPaths) == Success("/tv/The Test/S01")
  {
    EpisodeExampleTokens();
    DestinationOfJoinedTokens(dir, EpisodeTokens, TestPaths);
    EpisodeExampleRun();
    EpisodeExampleFinish();
  }

  lemma EpisodeExampleFinish()
    ensures Finish(Some("/tv/The Test/S01")) == Success("/tv/The Test/S01")
  {
  }

  lemma EpisodeExampleTokens()
    ensures forall k :: 0 <= k < |EpisodeTokens| ==> IsToken(EpisodeTokens[k])
  {
    ReleaseTokensClean();
    assert IsToken("S01E10") && IsToken("mkv");
  }

  /** The tokens the three tests share. */
  lemma ReleaseTokensClean()
    ensures IsToken("The") && IsToken("Test") && IsToken("1080p") && IsToken("WEBRip")
    ensures IsToken("DD5") && IsToken("1") && IsToken("X") && IsToken("264-Testers")
  {
    ReleaseTokensCleanLeft();
    assert IsToken("DD5") && IsToken("1") && IsToken("X") && IsToken("264-Testers");
  }

  lemma ReleaseTokensCleanLeft()
    ensures IsToken("The") && IsToken("Test") && IsToken("1080p") && IsToken("WEBRip")
  {
  }

  lemma EpisodeExampleRun()
    ensures Run(TestPaths, EpisodeTokens).destinationDir == Some("/tv/The Test/S01")
  {
    EpisodeExampleNonEmpty();
    EpisodeExampleTier();
    EpisodeExampleLastSeason();
    EpisodeExampleSeason();
    EpisodeExampleShow();
    ShowDestination(TestPaths, EpisodeTokens, 2, 3);
    EpisodeExampleDirectory();
  }

  lemma EpisodeExampleNonEmpty()
    ensures forall i :: 0 <= i < |EpisodeTokens| ==> EpisodeTokens[i] != ""
  {
    EpisodeExampleTokens();
  }

  lemma EpisodeExampleShow()
    ensures Join(EpisodeTokens[..2], " ") == "The Test"
  {
    assert EpisodeTokens[..2] == ["The", "Test"];
  }

  lemma EpisodeExampleDirectory()
    ensures TvDirectory(LibraryBase(TestPaths.tv, FullHd), "The Test", "S01") == "/tv/The Test/S01"
  {
  }

  lemma EpisodeExampleTier()
    ensures LastTier(EpisodeTokens) == Some(3) && TierOf(EpisodeTokens[3]) == Some(FullHd)
  {
    FullHdToken();
    EpisodeExampleAfterTier();
    LastTierAt(EpisodeTokens, 3);
  }

  lemma EpisodeExampleAfterTier()
    ensures forall i :: 3 < i < |EpisodeTokens| ==> TierOf(EpisodeTokens[i]).None?
  {
    forall i | 3 < i < |EpisodeTokens| ensures TierOf(EpisodeTokens[i]).None? {
      if i == 4 {
        NotTierToken("WEBRip");
      } else if i == 5 {
        NotTierToken("DD5");
      } else if i == 6 {
        NotTierToken("1");
      } else if i == 7 {
        NotTierToken("X");
      } else if i == 8 {
        NotTierToken("264-Testers");
      } else {
        NotTierToken("mkv");
      }
    }
  }

  lemma EpisodeExampleLastSeason()
    ensures LastSeason(EpisodeTokens[..4]) == Some(2)
  {
    EpisodeExampleSeasonToken();
    LastSeasonOfPrefix(EpisodeTokens, 2, 4);
  }

  lemma EpisodeExampleSeasonToken()
    ensures IsSeasonToken(EpisodeTokens[2])
    ensures forall i :: 2 < i <= 3 ==> !IsSeasonToken(EpisodeTokens[i])
  {
    forall i | 2 < i <= 3 ensures !IsSeasonToken(EpisodeTokens[i]) {
      NotSeasonToken("1080p");
    }
    assert "S01E10"[..2] == "S0";
    assert Upper("S0") == "S0";
    assert StartsWithIgnoreCase("S01E10", SeasonPrefixes[1]);
  }

  lemma EpisodeExampleSeason()
    ensures SeasonOf(EpisodeTokens[2]) == "S01"
  {
    assert EpisodeTokens[2] == "S01E10";
    assert !OccursAt("S01E10", "Season", 0) by {
      assert "S01E10"[0..6][1] != "Season"[1];
    }
    assert "S01" + "E" + "10" == "S01E10";
    SeasonOfEpisode("S01", "10");
  }

  /** "The.Test.Seasons.1-8.1080p.WEBRip.DD5.1.X.264-Testers". */
  const SeasonPackTokens: seq<string> := ["The", "Test", "Seasons", "1-8", "1080p", "WEBRip", "DD5", "1", "X", "264-Testers"]

  /** A season pack goes to the show's directory: the range token has the
      empty season, and the trailing '/' is trimmed. */
  lemma SeasonPackExample(dir: string)
    ensures DestinationPath(dir + "/" + Join(SeasonPackTokens, "."), TestPaths) == Success("/tv/The Test")
  {
    SeasonPackExampleTokens();
    DestinationOfJoinedTokens(dir, SeasonPackTokens, TestPaths);
    SeasonPackExampleRun();
    SeasonPackExampleFinish();
  }

  lemma SeasonPackExampleFinish()
    ensures Finish(Some("/tv/The Test/")) == Success("/tv/The Test")
  {
    assert "/tv/The Test" + ['/'] == "/tv/The Test/";
    TrimEndOnce("/tv/The Test", '/');
  }

  lemma SeasonPackExampleTokens()
    ensures forall k :: 0 <= k < |SeasonPackTokens| ==> IsToken(SeasonPackTokens[k])
  {
    ReleaseTokensClean();
    assert IsToken("Seasons") && IsToken("1-8");
  }

  lemma SeasonPackExampleRun()
    ensures Run(TestPaths, SeasonPackTokens).destinationDir == Some("/tv/The Test/")
  {
    SeasonPackExampleNonEmpty();
    SeasonPackExampleTier();
    SeasonPackExampleLastSeason();
    SeasonPackExampleSeason();
    SeasonPackExampleShow();
    ShowDestination(TestPaths, SeasonPackTokens, 2, 4);
    SeasonPackExampleDirectory();
  }

  lemma SeasonPackExampleNonEmpty()
    ensures forall i :: 0 <= i < |SeasonPackTokens| ==> SeasonPackTokens[i] != ""
  {
    SeasonPackExampleTokens();
  }

  lemma SeasonPackExampleShow()
    ensures Join(SeasonPackTokens[..2], " ") == "The Test"
  {
    assert SeasonPackTokens[..2] == ["The", "Test"];
  }

  lemma SeasonPackExampleLastSeason()
    ensures LastSeason(SeasonPackTokens[..5]) == Some(2)
  {
    SeasonPackExampleSeasonToken();
    SeasonPackExampleOthers();
    LastSeasonOfPrefix(SeasonPackTokens, 2, 5);
  }

  lemma SeasonPackExampleOthers()
    ensures forall i :: 2 < i <= 4 ==> !IsSeasonToken(SeasonPackTokens[i])
  {
    forall i | 2 < i <= 4 ensures !IsSeasonToken(SeasonPackTokens[i]) {
      if i == 3 {
        NotSeasonToken("1-8");
      } else {
        NotSeasonToken("1080p");
      }
    }
  }

  lemma SeasonPackExampleDirectory()
    ensures TvDirectory(LibraryBase(TestPaths.tv, FullHd), "The Test", "") == "/tv/The Test/"
  {
  }

  lemma SeasonPackExampleTier()
    ensures LastTier(SeasonPackTokens) == Some(4) && TierOf(SeasonPackTokens[4]) == Some(FullHd)
  {
    FullHdToken();
    SeasonPackExampleAfterTier();
    LastTierAt(SeasonPackTokens, 4);
  }

  lemma SeasonPackExampleAfterTier()
    ensures forall i :: 4 < i < |SeasonPackTokens| ==> TierOf(SeasonPackTokens[i]).None?
  {
    forall i | 4 < i < |SeasonPackTokens| ensures TierOf(SeasonPackTokens[i]).None? {
      if i == 5 {
        NotTierToken("WEBRip");
      } else if i == 6 {
        NotTierToken("DD5");
      } else if i == 7 {
        NotTierToken("1");
      } else if i == 8 {
        NotTierToken("X");
      } else {
        NotTierToken("264-Testers");
      }
    }
  }

  lemma SeasonPackExampleSeasonToken()
    ensures IsSeasonToken(SeasonPackTokens[2])
  {
    assert "Seasons"[..6] == "Season";
    assert Upper("Season") == "SEASON";
    assert StartsWithIgnoreCase("Seasons", SeasonPrefixes[0]);
  }

  lemma SeasonPackExampleSeason()
    ensures SeasonOf(SeasonPackTokens[2]) == ""
  {
    assert SeasonPackTokens[2] == "Seasons";
    SeasonOfSeasons();
  }
}
