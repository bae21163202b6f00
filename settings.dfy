/** `Settings.Paths`: where arrivals come from and where each library goes.
    Every property may be null, as configuration binding leaves it. */
module Paths {
  import opened Wrappers
  import opened Text

  /** `PathsByResolution`: one library's per-resolution destinations. */
  datatype PathsByResolution = PathsByResolution(
    res2160P: Option<string>,
    res1080P: Option<string>,
    res720P: Option<string>,
    resDefault: Option<string>)

  datatype Paths = Paths(
    source: Option<string>,
    blacklistedWords: Option<seq<string>>,
    movies: Option<PathsByResolution>,
    tvShows: Option<PathsByResolution>)

  const Unset: PathsByResolution := PathsByResolution(None, None, None, None)

  /** `new Paths()`: no words blacklisted, both libraries present but unset,
      no source. */
  const Fresh: Paths := Paths(None, Some([]), Some(Unset), Some(Unset))

  /** `library?.ResDefault` and the tier properties, null through a null library. */
  function ResDefault(library: Option<PathsByResolution>): Option<string>
  {
    if library.Some? then library.value.resDefault else None
  }

  function Res2160P(library: Option<PathsByResolution>): Option<string>
  {
    if library.Some? then library.value.res2160P else None
  }

  function Res1080P(library: Option<PathsByResolution>): Option<string>
  {
    if library.Some? then library.value.res1080P else None
  }

  function Res720P(library: Option<PathsByResolution>): Option<string>
  {
    if library.Some? then library.value.res720P else None
  }

  const SourceMessage := "A valid Source is required!"
  const MoviesMessage := "A valid Movies--ResDefault is required!"
  const TvShowsMessage := "A valid TvShows--ResDefault is required!"

  /** `Paths.Validate`: the source, then the movies' default path, then the
      TV shows' default path must be set and not blank; the first that is
      not is reported. */
  function Validate(p: Paths): (r: Validation)
    ensures r == Invalid(SourceMessage) <==> IsNullOrWhiteSpace(p.source)
    ensures r == Invalid(MoviesMessage) <==> !IsNullOrWhiteSpace(p.source) && IsNullOrWhiteSpace(ResDefault(p.movies))
    ensures r == Invalid(TvShowsMessage) <==>
              && !IsNullOrWhiteSpace(p.source) && !IsNullOrWhiteSpace(ResDefault(p.movies))
              && IsNullOrWhiteSpace(ResDefault(p.tvShows))
    ensures r.Valid? || r in {Invalid(SourceMessage), Invalid(MoviesMessage), Invalid(TvShowsMessage)}
  {
    if IsNullOrWhiteSpace(p.source) then Invalid(SourceMessage)
    else if IsNullOrWhiteSpace(ResDefault(p.movies)) then Invalid(MoviesMessage)
    else if IsNullOrWhiteSpace(ResDefault(p.tvShows)) then Invalid(TvShowsMessage)
    else Valid
  }

  /** Validation passes exactly when the source and both default paths are
      set and not blank. */
  lemma ValidIff(p: Paths)
    ensures Validate(p).Valid? <==>
              !IsNullOrWhiteSpace(p.source) && !IsNullOrWhiteSpace(ResDefault(p.movies)) && !IsNullOrWhiteSpace(ResDefault(p.tvShows))
  {
  }

  /** The tier paths and the blacklist are never checked: two settings that
      agree on the source and the default paths validate alike. */
  lemma ValidateReadsOnlyDefaults(p: Paths, q: Paths)
    requires p.source == q.source
    requires ResDefault(p.movies) == ResDefault(q.movies) && ResDefault(p.tvShows) == ResDefault(q.tvShows)
    ensures Validate(p) == Validate(q)
  {
  }

  /** A fresh `Paths` fails on its missing source. */
  lemma FreshFails()
    ensures Validate(Fresh) == Invalid(SourceMessage)
  {
  }

  /** A tier entry of `ToString`: present only when the path is not blank. */
  function TierEntry(key: string, path: Option<string>): seq<string>
  {
    if IsNullOrWhiteSpace(path) then [] else [key + path.value]
  }

  /** A library's tier entries, in the order 2160P, 1080P, 720P. */
  function TierEntries(library: string, paths: Option<PathsByResolution>): seq<string>
  {
    TierEntry(library + "--Res2160P=", Res2160P(paths))
      + TierEntry(library + "--Res1080P=", Res1080P(paths))
      + TierEntry(library + "--Res720P=", Res720P(paths))
  }

  /** The list `ToString` joins: the source, the movies' tiers and default,
      the TV shows' tiers and default. */
  function Entries(p: Paths): seq<string>
  {
    ["Source=" + Render(p.source)]
      + TierEntries("Movies", p.movies) + ["Movies--ResDefault=" + Render(ResDefault(p.movies))]
      + TierEntries("TvShows", p.tvShows) + ["TvShows--ResDefault=" + Render(ResDefault(p.tvShows))]
  }

  /** `Paths.ToString`: the entries added one by one, joined with ", ". */
  method ToString(p: Paths) returns (s: string)
    ensures s == Join(Entries(p), ", ")
  {
    var info := ["Source=" + Render(p.source)];
    info := AddTiers(info, "Movies", p.movies);
    info := info + ["Movies--ResDefault=" + Render(ResDefault(p.movies))];
    info := AddTiers(info, "TvShows", p.tvShows);
    info := info + ["TvShows--ResDefault=" + Render(ResDefault(p.tvShows))];
    s := Join(info, ", ");
  }

  /** The three conditional `info.Add` calls for one library's tiers. */
  method AddTiers(info: seq<string>, library: string, paths: Option<PathsByResolution>) returns (r: seq<string>)
    ensures r == info + TierEntries(library, paths)
  {
    r := info;
    if !IsNullOrWhiteSpace(Res2160P(paths)) {
      r := r + [library + "--Res2160P=" + paths.value.res2160P.value];
    }
    if !IsNullOrWhiteSpace(Res1080P(paths)) {
      r := r + [library + "--Res1080P=" + paths.value.res1080P.value];
    }
    if !IsNullOrWhiteSpace(Res720P(paths)) {
      r := r + [library + "--Res720P=" + paths.value.res720P.value];
    }
  }

  /** The number of tier paths of a library that are set and not blank. */
  function SetTiers(paths: Option<PathsByResolution>): nat
  {
    (if IsNullOrWhiteSpace(Res2160P(paths)) then 0 else 1)
      + (if IsNullOrWhiteSpace(Res1080P(paths)) then 0 else 1)
      + (if IsNullOrWhiteSpace(Res720P(paths)) then 0 else 1)
  }

  /** The shape of the entries: the source first, both default entries
      always (null rendered as ""), each after its library's set tiers,
      and one entry per set tier and no more. */
  lemma EntriesShape(p: Paths)
    ensures var e := Entries(p);
            var m := SetTiers(p.movies);
            && |e| == 3 + m + SetTiers(p.tvShows)
            && e[0] == "Source=" + Render(p.source)
            && e[1..1 + m] == TierEntries("Movies", p.movies)
            && e[1 + m] == "Movies--ResDefault=" + Render(ResDefault(p.movies))
            && e[2 + m..|e| - 1] == TierEntries("TvShows", p.tvShows)
            && e[|e| - 1] == "TvShows--ResDefault=" + Render(ResDefault(p.tvShows))
  {
    TierEntriesShape("Movies", p.movies);
    TierEntriesShape("TvShows", p.tvShows);
    var e := Entries(p);
    var m := SetTiers(p.movies);
    var a := ["Source=" + Render(p.source)];
    var b := TierEntries("Movies", p.movies);
    var c := ["Movies--ResDefault=" + Render(ResDefault(p.movies))];
    var d := TierEntries("TvShows", p.tvShows);
    var z := ["TvShows--ResDefault=" + Render(ResDefault(p.tvShows))];
    assert e == a + b + (c + d + z);
    MiddleSlice(a, b, c + d + z);
    assert e == (a + b + c) + d + z;
    MiddleSlice(a + b + c, d, z);
  }

  lemma MiddleSlice<T>(x: seq<T>, y: seq<T>, z: seq<T>)
    ensures (x + y + z)[|x|..|x| + |y|] == y
  {
  }

  /** A library's tier entries: one per set tier, each the tier's key and
      path, in the order 2160P, 1080P, 720P. */
  lemma TierEntriesShape(library: string, paths: Option<PathsByResolution>)
    ensures var t := TierEntries(library, paths);
            var uhd := if IsNullOrWhiteSpace(Res2160P(paths)) then 0 else 1;
            && |t| == SetTiers(paths)
            && (!IsNullOrWhiteSpace(Res2160P(paths)) ==> t[0] == library + "--Res2160P=" + Res2160P(paths).value)
            && (!IsNullOrWhiteSpace(Res1080P(paths)) ==> t[uhd] == library + "--Res1080P=" + Res1080P(paths).value)
            && (!IsNullOrWhiteSpace(Res720P(paths)) ==> t[|t| - 1] == library + "--Res720P=" + Res720P(paths).value)
  {
  }

  /** The string always starts with `Source=<Source>`. */
  lemma ToStringStartsWithSource(p: Paths)
    ensures "Source=" + Render(p.source) <= Join(Entries(p), ", ")
  {
    JoinStartsWithHead(Entries(p), ", ");
  }

  /** When no entry holds a ',', splitting the string at ", " gives the
      entries back. */
  lemma ToStringSplits(p: Paths)
    requires forall k :: 0 <= k < |Entries(p)| ==> ',' !in Entries(p)[k]
    ensures Split(Join(Entries(p), ", "), ", ") == Entries(p)
  {
    SplitJoin(Entries(p), ", ");
  }
}

/** `Settings.Core`: the interval between two length readings of an arrival. */
module Core {
  import opened Wrappers
  import opened Text

  datatype Core = Core(fileCompareInterval: Int32)

  /** `new Core()`: 15 seconds. */
  const Default: Core := Core(15)

  const IntervalMessage := "A valid FileCompareInterval is required!"

  /** `Core.Validate`: the interval must be at least 1. */
  function Validate(c: Core): (r: Validation)
    ensures r.Valid? <==> c.fileCompareInterval >= 1
    ensures r.Invalid? ==> r.message == IntervalMessage
  {
    if c.fileCompareInterval < 1 then Invalid(IntervalMessage) else Valid
  }

  /** The default interval passes validation. */
  lemma DefaultIsValid()
    ensures Default.fileCompareInterval == 15 && Validate(Default) == Valid
  {
  }

  /** `Core.ToString`: `FileCompareInterval=<value>`. */
  function ToString(c: Core): (s: string)
    ensures "FileCompareInterval=" <= s
  {
    "FileCompareInterval=" + IntToString(c.fileCompareInterval)
  }

  /** The value after the name reads back as the interval. */
  lemma ToStringParses(c: Core)
    ensures var value := ToString(c)[|"FileCompareInterval="|..];
            IsDecimal(value) && ParseInt(value) == c.fileCompareInterval
  {
    assert ToString(c)[|"FileCompareInterval="|..] == IntToString(c.fileCompareInterval);
    ParseIntToString(c.fileCompareInterval);
  }
}

/** `Settings.General`: the delay before copying. */
module General {
  import opened Wrappers
  import opened Text

  datatype General = General(fileCopyDelaySeconds: Int32)

  /** `new General()`: the property's default 0. */
  const Default: General := General(0)

  const DelayMessage := "A valid FileCopyDelaySeconds is required!"

  /** `General.Validate`: the delay must be positive. */
  function Validate(g: General): (r: Validation)
    ensures r.Valid? <==> g.fileCopyDelaySeconds > 0
    ensures r.Invalid? ==> r.message == DelayMessage
  {
    if g.fileCopyDelaySeconds <= 0 then Invalid(DelayMessage) else Valid
  }

  /** A default-constructed `General` fails validation. */
  lemma DefaultIsInvalid()
    ensures Validate(Default) == Invalid(DelayMessage)
  {
  }

  /** `General.ToString`: `FileCopyDelaySeconds=<value>`. */
  function ToString(g: General): (s: string)
    ensures "FileCopyDelaySeconds=" <= s
  {
    "FileCopyDelaySeconds=" + IntToString(g.fileCopyDelaySeconds)
  }

  /** The value after the name reads back as the delay. */
  lemma ToStringParses(g: General)
    ensures var value := ToString(g)[|"FileCopyDelaySeconds="|..];
            IsDecimal(value) && ParseInt(value) == g.fileCopyDelaySeconds
  {
    assert ToString(g)[|"FileCopyDelaySeconds="|..] == IntToString(g.fileCopyDelaySeconds);
    ParseIntToString(g.fileCopyDelaySeconds);
  }
}
