/**
 * The start of main (tweet_search.py): merging the command-line arguments with
 * config.json, which may be missing, into the configuration of one run and its
 * resume cursor.
 */
module Config {
  import opened Wrappers

  /** The record main builds and writes to config.json. */
  datatype Config = Config(
    keywords: string,
    acceptText: string,
    rejectText: string,
    acceptUser: string,
    rejectUser: string,
    authPath: string,
    latest: Option<int>)

  /** main's arguments; None stands for an argument left out on the command line. */
  datatype Args = Args(
    keywords: Option<string>,
    acceptText: Option<string>,
    rejectText: Option<string>,
    acceptUser: Option<string>,
    rejectUser: Option<string>,
    authPath: Option<string>)

  datatype ConfigError =
    | KeywordsRequired            // no config.json and no keywords: main raises
    | SearchConditionKeyMissing   // the change message reads a key the dict lacks: KeyError

  // The built-in values used when there is no config.json.
  const DefaultAcceptText: string := ""
  const DefaultRejectText: string := "(?!)"
  const DefaultAcceptUser: string := ""
  const DefaultRejectUser: string := "(?!)"
  const DefaultAuthPath: string := "./auth.json"

  /** The merged configuration and the old keywords that main remembers when they change. */
  datatype Merged = Merged(config: Config, oldKeywords: Option<string>)

  /** An argument given on the command line, else the fallback. */
  function Pick(arg: Option<string>, fallback: string): string
  {
    if arg.Some? then arg.value else fallback
  }

  /** Explicit argument, then persisted value, then built-in default. */
  function Precedence(arg: Option<string>, saved: Option<string>, default: string): string
  {
    if arg.Some? then arg.value else if saved.Some? then saved.value else default
  }

  function SavedField(saved: Option<Config>, field: Config -> string): Option<string>
  {
    if saved.Some? then Some(field(saved.value)) else None
  }

  /** The persisted cursor survives exactly when the keywords were omitted or are unchanged. */
  predicate KeepsCursor(args: Args, saved: Config)
  {
    args.keywords.None? || args.keywords.value == saved.keywords
  }

  /** main's reading of config.json and of its arguments, before anything is printed. */
  function Merge(args: Args, saved: Option<Config>): (r: Result<Merged, ConfigError>)
    ensures r.Failure? <==> saved.None? && args.keywords.None?
    ensures r.Failure? ==> r.error == KeywordsRequired
    ensures r.Success? ==>
      var c := r.value.config;
      && c.keywords == Precedence(args.keywords, SavedField(saved, (x: Config) => x.keywords), "")
      && c.acceptText == Precedence(args.acceptText, SavedField(saved, (x: Config) => x.acceptText), DefaultAcceptText)
      && c.rejectText == Precedence(args.rejectText, SavedField(saved, (x: Config) => x.rejectText), DefaultRejectText)
      && c.acceptUser == Precedence(args.acceptUser, SavedField(saved, (x: Config) => x.acceptUser), DefaultAcceptUser)
      && c.rejectUser == Precedence(args.rejectUser, SavedField(saved, (x: Config) => x.rejectUser), DefaultRejectUser)
      && c.authPath == Precedence(args.authPath, SavedField(saved, (x: Config) => x.authPath), DefaultAuthPath)
    ensures r.Success? ==>
      r.value.config.latest == (if saved.Some? && KeepsCursor(args, saved.value) then saved.value.latest else None)
    ensures r.Success? ==>
      (r.value.oldKeywords.Some? <==>
        saved.Some? && !KeepsCursor(args, saved.value) && args.keywords.value != "")
    ensures r.Success? && r.value.oldKeywords.Some? ==> r.value.oldKeywords.value == saved.value.keywords
  {
    match saved
    case Some(file) =>
      var keep := args.keywords.None? || file.keywords == args.keywords.value;
      var latest := if keep then file.latest else None;
      var previous := if !keep && args.keywords.value != "" then Some(file.keywords) else None;
      Success(Merged(
        Config(
          Pick(args.keywords, file.keywords),
          Pick(args.acceptText, file.acceptText),
          Pick(args.rejectText, file.rejectText),
          Pick(args.acceptUser, file.acceptUser),
          Pick(args.rejectUser, file.rejectUser),
          Pick(args.authPath, file.authPath),
          latest),
        previous))
    case None =>
      if args.keywords.None? then Failure(KeywordsRequired)
      else
        Success(Merged(
          Config(
            args.keywords.value,
            Pick(args.acceptText, DefaultAcceptText),
            Pick(args.rejectText, DefaultRejectText),
            Pick(args.acceptUser, DefaultAcceptUser),
            Pick(args.rejectUser, DefaultRejectUser),
            Pick(args.authPath, DefaultAuthPath),
            None),
          None))
  }

  /**
   * main up to the point where it opens the credentials: the merge, then the
   * keyword-change message, which looks up config['search_condition'] in a
   * dict that never has that key, so it raises whenever the old keywords are
   * non-empty.
   */
  function Configure(args: Args, saved: Option<Config>): (r: Result<Config, ConfigError>)
    ensures r.Failure? <==>
      (saved.None? && args.keywords.None?) ||
      (saved.Some? && !KeepsCursor(args, saved.value) && args.keywords.value != "" && saved.value.keywords != "")
    ensures r.Failure? ==> r.error == (if saved.None? then KeywordsRequired else SearchConditionKeyMissing)
    ensures r.Success? ==> r.value == Merge(args, saved).value.config
  {
    match Merge(args, saved)
    case Failure(e) => Failure(e)
    case Success(m) =>
      if m.oldKeywords.Some? && m.oldKeywords.value != "" then Failure(SearchConditionKeyMissing)
      else Success(m.config)
  }

  /** What main evidently meant: announce the change and go on with the cursor reset. */
  function ConfigureIntended(args: Args, saved: Option<Config>): (r: Result<Config, ConfigError>)
    ensures r.Failure? <==> saved.None? && args.keywords.None?
    ensures r.Failure? ==> r.error == KeywordsRequired
    ensures r.Success? ==> r.value == Merge(args, saved).value.config
  {
    match Merge(args, saved)
    case Failure(e) => Failure(e)
    case Success(m) => Success(m.config)
  }

  /**
   * With the intended behaviour, a change to different keywords starts a full
   * re-fetch: the cursor is dropped while the new keywords are used.
   */
  lemma {:induction false} IntendedKeywordChangeResetsCursor(args: Args, saved: Config)
    requires args.keywords.Some? && args.keywords.value != saved.keywords
    ensures ConfigureIntended(args, Some(saved)).Success?
    ensures ConfigureIntended(args, Some(saved)).value.latest.None?
    ensures ConfigureIntended(args, Some(saved)).value.keywords == args.keywords.value
  {
    var m := Merge(args, Some(saved));
    assert m.Success? && m.value.config.latest.None?;
  }

  /**
   * As written, the same change aborts whenever both the old and the new
   * keywords are non-empty, e.g. a cursor of 500 for "foo" and a new run for "bar".
   */
  lemma {:induction false} KeywordChangeCrashes()
    ensures var saved := Config("foo", "", "(?!)", "", "(?!)", "./auth.json", Some(500));
            var args := Args(Some("bar"), None, None, None, None, None);
            Configure(args, Some(saved)) == Failure(SearchConditionKeyMissing)
            && ConfigureIntended(args, Some(saved)).Success?
            && ConfigureIntended(args, Some(saved)).value.latest == None
  {
    var saved := Config("foo", "", "(?!)", "", "(?!)", "./auth.json", Some(500));
    var args := Args(Some("bar"), None, None, None, None, None);
    assert "foo" != "bar" by { assert "foo"[0] != "bar"[0]; }
    var m := Merge(args, Some(saved));
    assert m.value.oldKeywords == Some("foo");
  }

  /** Omitting every argument resumes the persisted run unchanged. */
  lemma ResumeWithoutArgs(saved: Config)
    ensures Configure(Args(None, None, None, None, None, None), Some(saved)) == Success(saved)
  {
  }

  /** A first run uses the defaults, which accept every text and user and reject none. */
  lemma FirstRunDefaults(keywords: string)
    ensures Configure(Args(Some(keywords), None, None, None, None, None), None)
      == Success(Config(keywords, "", "(?!)", "", "(?!)", "./auth.json", None))
  {
  }
}
