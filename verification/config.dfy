/**
 * The configuration loader: the default policy used when there is no
 * configuration file, and the three-way decision on the outcome of reading it.
 */
module ConfigFile {
  import opened Results
  import opened Sizes
  import opened Durations
  import opened Limits

  /** The loaded configuration: the retention policy keyed by byte range. */
  datatype Config = Config(limits: Policy)

  /** Why the file could not be read; only `NotFound` is told apart from the rest. */
  datatype IoError = NotFound | OtherIo(description: string)

  /** The outcome of reading the configuration file into a string. */
  datatype ReadOutcome = Contents(text: string) | Failed(cause: IoError)

  /**
   * Deserialization of the TOML text into the raw `limits` list: the TOML
   * grammar, the shape of the document and the byte-size literals. It is not
   * part of this model; it either yields the entries or a message.
   */
  type TomlParser = string -> Result<seq<RawEntry>, string>

  /** What a `ParseFailure` carries: a malformed document, or an entry the builder rejected. */
  datatype ParseCause = Syntax(message: string) | Rejected(error: LimitError)

  /** The two errors the loader reports to its caller. */
  datatype ConfigError = Io(ioError: IoError) | ParseFailure(reason: ParseCause)

  /** The whole byte-size domain `[0, u64::MAX]`. */
  const FULL_RANGE: SizeRange := SizeRange(0, U64_MAX)

  /**
   * The default policy: a single range, the whole domain, so every size falls
   * into exactly that range, and it is kept for one day.
   */
  function Default(): (c: Config)
    ensures c.limits.Keys == {FULL_RANGE}
    ensures forall size: U64 :: Matching(c.limits.Keys, size) == {FULL_RANGE}
    ensures c.limits[FULL_RANGE] == FromSecs(SECS_PER_DAY)
    ensures Validated(c.limits)
  {
    Config(map[FULL_RANGE := FromSecs(SECS_PER_DAY)])
  }

  /**
   * Deserializes the text of a configuration file. Every failure, of the
   * document or of an entry, is a `ParseFailure`: a malformed document carries
   * the parser's message, a rejected entry carries the builder's first error.
   * Success holds exactly the entries' keys, each with its own parsed duration.
   */
  function Parse(text: string, toml: TomlParser, parse: DurationParser): (r: Result<Config, ConfigError>)
    ensures r.Err? ==> r.error.ParseFailure?
    ensures r.Ok? <==> toml(text).Ok? && Accepts(toml(text).value, parse)
    ensures r.Ok? ==> r.value.limits.Keys == KeySet(toml(text).value)
    ensures r.Ok? ==> forall e :: e in toml(text).value ==>
      KeyOf(e) in r.value.limits && parse(e.duration) == Some(r.value.limits[KeyOf(e)])
    ensures r.Ok? ==> Validated(r.value.limits)
    ensures toml(text).Err? ==> r == Err(ParseFailure(Syntax(toml(text).error)))
    ensures toml(text).Ok? && r.Err? ==>
      && r.error.reason.Rejected?
      && exists i :: (0 <= i < |toml(text).value|
        && Accepts(toml(text).value[..i], parse)
        && Reports(r.error.reason.error, KeySet(toml(text).value[..i]), toml(text).value[i], parse))
  {
    match toml(text)
    case Err(message) => Err(ParseFailure(Syntax(message)))
    case Ok(entries) =>
      BuildSucceedsIff(entries, parse);
      match Build(entries, parse)
      case Err(error) =>
        FirstErrorWins(entries, parse);
        Err(ParseFailure(Rejected(error)))
      case Ok(limits) =>
        BuildContents(entries, parse);
        Ok(Config(limits))
  }

  /**
   * Loads the configuration from the outcome of reading its file: a missing
   * file selects the default policy, any other read error is an `Io` error,
   * and text that is present must parse and validate.
   */
  function TryRead(read: ReadOutcome, toml: TomlParser, parse: DurationParser): (r: Result<Config, ConfigError>)
    ensures read == Failed(NotFound) ==> r == Ok(Default())
    ensures read.Contents? ==> r == Parse(read.text, toml, parse)
    ensures r.Ok? <==>
      || read == Failed(NotFound)
      || (read.Contents? && toml(read.text).Ok? && Accepts(toml(read.text).value, parse))
    ensures r.Err? ==> (r.error.Io? <==> read.Failed?)
    ensures r.Err? && r.error.Io? ==> r.error.ioError == read.cause && r.error.ioError != NotFound
    ensures r.Ok? ==> Validated(r.value.limits)
  {
    match read
    case Failed(NotFound) => Ok(Default())
    case Failed(cause) => Err(Io(cause))
    case Contents(text) => Parse(text, toml, parse)
  }

  /**
   * The default policy is what the builder makes of a file holding the single
   * entry `(0, u64::MAX)` with a duration text that means one day.
   */
  lemma DefaultIsBuildable(text: string, parse: DurationParser)
    requires parse(text) == Some(FromSecs(SECS_PER_DAY))
    ensures Build([RawEntry(0, U64_MAX, text)], parse) == Ok(Default().limits)
  {
    var es := [RawEntry(0, U64_MAX, text)];
    assert Accepts(es, parse);
    BuildSucceedsIff(es, parse);
    BuildContents(es, parse);
    assert KeySet(es) == {FULL_RANGE};
    var m := Build(es, parse).value;
    assert KeyOf(es[0]) == FULL_RANGE;
    assert m[FULL_RANGE] == FromSecs(SECS_PER_DAY);
    assert m == Default().limits;
  }

  /**
   * Text that is present is never replaced by the default: a file whose only
   * entry is `(0, u64::MAX)` with a one-day duration loads a policy equal to
   * the default, but one with any other acceptable entries loads those.
   */
  lemma FileContentsAreLoaded(text: string, toml: TomlParser, parse: DurationParser)
    requires toml(text).Ok? && Accepts(toml(text).value, parse)
    ensures TryRead(Contents(text), toml, parse).Ok?
    ensures TryRead(Contents(text), toml, parse).value.limits.Keys == KeySet(toml(text).value)
    ensures TryRead(Contents(text), toml, parse) == Ok(Default()) <==>
      KeySet(toml(text).value) == {FULL_RANGE} &&
      forall e :: e in toml(text).value ==> parse(e.duration) == Some(FromSecs(SECS_PER_DAY))
  {
    var es := toml(text).value;
    var m := TryRead(Contents(text), toml, parse).value.limits;
    if KeySet(es) == {FULL_RANGE} && forall e :: e in es ==> parse(e.duration) == Some(FromSecs(SECS_PER_DAY)) {
      assert FULL_RANGE in KeySet(es);
      var e :| e in es && KeyOf(e) == FULL_RANGE;
      assert m[FULL_RANGE] == FromSecs(SECS_PER_DAY);
      assert m == Default().limits;
    }
  }
}
