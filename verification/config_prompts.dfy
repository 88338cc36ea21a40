/** The table of configuration questions (`PROMPTS`) and the loop that fills
    the missing entries of a configuration dictionary (`get_missing_details`).

    The dictionary is a `ConfigDict` object whose `entries` the loop updates in
    place: when a validator raises, the caller keeps the dictionary as it was at
    that moment. `FillFrom` states what the loop does from a given row of the
    table on; the lemmas below it state what the loop guarantees. */
module ConfigPrompts {
  import opened Strings
  import opened Validators
  import opened BucketNames

  datatype Option<T> = None | Some(value: T)

  /** A configuration dictionary: a key maps to a string or to `None`; a key
      may also be absent. */
  type Config = map<string, Option<string>>

  /** `config.get(key) is not None` */
  predicate IsSet(config: Config, key: string) {
    key in config && config[key].Some?
  }

  /** Two dictionaries agree on `key`: both lack it or both map it to the same value. */
  predicate SameEntry(c: Config, d: Config, key: string) {
    (key in c <==> key in d) && (key in c ==> c[key] == d[key])
  }

  /** The key written after the table is done, and `get_s3_profile()`. */
  const ProfileKey: string := "profile"
  const S3Profile: string := "default"

  /** The default shown with a question: a fixed string, or a function of the
      dictionary filled so far (`get_slug`, `get_bucket_name`). */
  datatype Default = Literal(text: string) | SlugOfProjectName | BucketFromSlug

  /** The validators a row names. */
  datatype Check = NotEmpty | ValidBucketName | ValidEntrypoint | ValidDjangoSettingsModule | ValidRequirementsFile

  datatype Prompt = Prompt(key: string, default: Default, checks: seq<Check>, question: string)

  /** The rows of `PROMPTS`, in order. */
  const ProjectNameRow := Prompt("project_name", Literal("My project"), [NotEmpty], "What's your project name?")
  const ProjectSlugRow := Prompt("project_slug", SlugOfProjectName, [], "What's your project slug?")
  const DescriptionRow := Prompt("description", Literal(""), [], "What's your project description?")
  const EntrypointRow := Prompt("entrypoint", Literal("wsgi.app"), [ValidEntrypoint],
                                "Please specify entrypoint (skip if it is Django project)")
  const DjangoSettingsRow := Prompt("django_settings_module", Literal(""), [ValidDjangoSettingsModule],
                                    "Please specify Django settings module")
  const BucketRow := Prompt("bucket", BucketFromSlug, [NotEmpty, ValidBucketName], "Please specify bucket name")
  const RequirementsRow := Prompt("requirements_file", Literal("requirements.txt"),
                                  [NotEmpty, ValidRequirementsFile], "Please specify requirements file")

  /** `PROMPTS` */
  const Prompts: seq<Prompt> :=
    [ProjectNameRow, ProjectSlugRow, DescriptionRow, EntrypointRow, DjangoSettingsRow, BucketRow, RequirementsRow]

  /** What the loop receives from outside: the slugify function, the text of
      a fresh UUID, and the line the user types in answer to each question. */
  datatype Env = Env(slugify: string -> string, uuid: string, typed: string -> string)

  /** `click.prompt` with a default: an empty line takes the default. */
  function Answer(line: string, default: string): string {
    if line == "" then default else line
  }

  /** The keys a default reads from the dictionary. */
  function DefaultReads(d: Default): set<string> {
    match d
    case Literal(_) => {}
    case SlugOfProjectName => {"project_name"}
    case BucketFromSlug => {"project_slug"}
  }

  predicate DefaultReady(d: Default, config: Config) {
    forall key :: key in DefaultReads(d) ==> IsSet(config, key)
  }

  /** `default(config) if callable(default) else default` */
  function DefaultValue(d: Default, config: Config, env: Env): string
    requires DefaultReady(d, config)
  {
    match d
    case Literal(text) => text
    case SlugOfProjectName =>
      assert "project_name" in DefaultReads(d);
      env.slugify(config["project_name"].value)
    case BucketFromSlug =>
      assert "project_slug" in DefaultReads(d);
      GetBucketName(config["project_slug"].value, env.uuid)
  }

  /** A default gives the same value on two dictionaries that agree on the
      keys it reads. */
  lemma DefaultValueReadsOnly(d: Default, c: Config, e: Config, env: Env)
    requires DefaultReady(d, c)
    requires forall key :: key in DefaultReads(d) ==> SameEntry(c, e, key)
    ensures DefaultReady(d, e) && DefaultValue(d, c, env) == DefaultValue(d, e, env)
  {
    if d.SlugOfProjectName? {
      assert "project_name" in DefaultReads(d);
    } else if d.BucketFromSlug? {
      assert "project_slug" in DefaultReads(d);
    }
  }

  function Apply(check: Check, value: string): Outcome {
    match check
    case NotEmpty => IsNotEmpty(value)
    case ValidBucketName => IsValidBucketName(value)
    case ValidEntrypoint => IsValidEntrypoint(value)
    case ValidDjangoSettingsModule => IsValidDjangoSettingsModule(value)
    case ValidRequirementsFile => IsValidRequirementsFile(value)
  }

  /** `for validator in validators: validator(value)`: the error of the first
      validator that raises, or `Pass`. */
  function RunChecks(checks: seq<Check>, value: string): Outcome {
    if checks == [] then Pass
    else match Apply(checks[0], value)
      case Fail(e) => Fail(e)
      case Pass => RunChecks(checks[1..], value)
  }

  /** The validators pass exactly when each of them passes; when they fail,
      the error is one that some validator raised. */
  lemma {:induction false} RunChecksPassIff(checks: seq<Check>, value: string)
    ensures RunChecks(checks, value).Pass? <==> forall j :: 0 <= j < |checks| ==> Apply(checks[j], value).Pass?
    ensures RunChecks(checks, value).Fail? ==>
              exists j :: 0 <= j < |checks| && Apply(checks[j], value) == RunChecks(checks, value)
  {
    if checks != [] {
      RunChecksPassIff(checks[1..], value);
      assert forall j :: 1 <= j < |checks| ==> checks[j] == checks[1..][j - 1];
      if Apply(checks[0], value).Pass? && RunChecks(checks, value).Fail? {
        var j :| 0 <= j < |checks[1..]| && Apply(checks[1..][j], value) == RunChecks(checks, value);
        assert Apply(checks[j + 1], value) == RunChecks(checks, value);
      }
    }
  }

  /** The validators stop at the first one that raises, and its error is the result. */
  lemma {:induction false} RunChecksFirstFailure(checks: seq<Check>, value: string, k: nat)
    requires k < |checks| && Apply(checks[k], value).Fail?
    requires forall m :: 0 <= m < k ==> Apply(checks[m], value).Pass?
    ensures RunChecks(checks, value) == Apply(checks[k], value)
  {
    if k > 0 {
      assert Apply(checks[0], value).Pass?;
      assert checks[1..][k - 1] == checks[k];
      RunChecksFirstFailure(checks[1..], value, k - 1);
    }
  }

  /** The keys a table asks for. */
  function Keys(rows: seq<Prompt>): set<string> {
    set j | 0 <= j < |rows| :: rows[j].key
  }

  /** What the loop relies on in its table: distinct keys, none of them the
      profile key, and callable defaults that read only keys of earlier rows. */
  predicate WellFormed(rows: seq<Prompt>) {
    && (forall a, b :: 0 <= a < b < |rows| ==> rows[a].key != rows[b].key)
    && ProfileKey !in Keys(rows)
    && (forall i, key :: 0 <= i < |rows| && key in DefaultReads(rows[i].default) ==>
          exists j :: 0 <= j < i && rows[j].key == key)
  }

  /** `PROMPTS` has the shape the loop relies on: the slug's default reads the
      project name of row 0 and the bucket's default reads the slug of row 1. */
  lemma PromptsWellFormed()
    ensures WellFormed(Prompts)
  {
    forall i, key | 0 <= i < |Prompts| && key in DefaultReads(Prompts[i].default)
      ensures exists j :: 0 <= j < i && Prompts[j].key == key
    {
      if i == 1 {
        assert Prompts[0] == ProjectNameRow;
      } else {
        assert i == 5 && Prompts[1] == ProjectSlugRow;
      }
    }
  }

  /** Every row before `n` has its key set. */
  predicate PrefixSet(rows: seq<Prompt>, config: Config, n: nat)
    requires n <= |rows|
  {
    forall j :: 0 <= j < n ==> IsSet(config, rows[j].key)
  }

  /** With the keys of the earlier rows set, a row's default can be computed. */
  lemma DefaultsReadEarlierRows(rows: seq<Prompt>, i: nat, config: Config)
    requires WellFormed(rows) && i < |rows| && PrefixSet(rows, config, i)
    ensures DefaultReady(rows[i].default, config)
  {
    forall key | key in DefaultReads(rows[i].default)
      ensures IsSet(config, key)
    {
      var j :| 0 <= j < i && rows[j].key == key;
    }
  }

  /** The value a row stores: the typed line, or the default when it is empty. */
  function RowValue(p: Prompt, config: Config, env: Env): string
    requires DefaultReady(p.default, config)
  {
    Answer(env.typed(p.question), DefaultValue(p.default, config, env))
  }

  /** The outcome of the loop and the dictionary it leaves behind. */
  datatype Filled = Filled(outcome: Outcome, config: Config)

  /** The loop from row `i` of `rows` on, over the dictionary as it is then. A
      row whose key is set is skipped; otherwise the answer (or the default) is
      checked and stored. After the last row the profile is written. */
  function FillFrom(rows: seq<Prompt>, i: nat, config: Config, env: Env): Filled
    requires WellFormed(rows) && i <= |rows| && PrefixSet(rows, config, i)
    decreases |rows| - i
  {
    if i == |rows| then Filled(Pass, config[ProfileKey := Some(S3Profile)])
    else
      var p := rows[i];
      if IsSet(config, p.key) then FillFrom(rows, i + 1, config, env)
      else
        DefaultsReadEarlierRows(rows, i, config);
        var value := RowValue(p, config, env);
        match RunChecks(p.checks, value)
        case Fail(e) => Filled(Fail(e), config)
        case Pass => FillFrom(rows, i + 1, config[p.key := Some(value)], env)
  }

  /** One step of the loop at a row whose key is set. */
  lemma FillFromSkip(rows: seq<Prompt>, i: nat, config: Config, env: Env)
    requires WellFormed(rows) && i < |rows| && PrefixSet(rows, config, i)
    requires IsSet(config, rows[i].key)
    ensures PrefixSet(rows, config, i + 1)
    ensures FillFrom(rows, i, config, env) == FillFrom(rows, i + 1, config, env)
  {
  }

  /** One step of the loop at a row whose key is missing: a failing check
      stops the loop with the dictionary unchanged, a passing one stores the
      value and moves on. */
  lemma FillFromAsk(rows: seq<Prompt>, i: nat, config: Config, env: Env, value: string)
    requires WellFormed(rows) && i < |rows| && PrefixSet(rows, config, i)
    requires !IsSet(config, rows[i].key) && DefaultReady(rows[i].default, config)
    requires value == RowValue(rows[i], config, env)
    ensures RunChecks(rows[i].checks, value).Fail? ==>
              FillFrom(rows, i, config, env) == Filled(RunChecks(rows[i].checks, value), config)
    ensures RunChecks(rows[i].checks, value).Pass? ==>
              && PrefixSet(rows, config[rows[i].key := Some(value)], i + 1)
              && FillFrom(rows, i, config, env) == FillFrom(rows, i + 1, config[rows[i].key := Some(value)], env)
  {
  }

  /** `get_missing_details` over `PROMPTS`. */
  function Fill(config: Config, env: Env): Filled {
    PromptsWellFormed();
    FillFrom(Prompts, 0, config, env)
  }

  /** Keys other than the profile that are already set, or that the table
      does not ask for, come out of the loop exactly as they went in. */
  lemma {:induction false} FillKeepsOtherKeys(rows: seq<Prompt>, i: nat, config: Config, env: Env)
    requires WellFormed(rows) && i <= |rows| && PrefixSet(rows, config, i)
    ensures forall key :: key != ProfileKey && (key !in Keys(rows) || IsSet(config, key)) ==>
              SameEntry(FillFrom(rows, i, config, env).config, config, key)
    decreases |rows| - i
  {
    if i < |rows| {
      var p := rows[i];
      if IsSet(config, p.key) {
        FillFromSkip(rows, i, config, env);
        FillKeepsOtherKeys(rows, i + 1, config, env);
      } else {
        DefaultsReadEarlierRows(rows, i, config);
        var value := RowValue(p, config, env);
        FillFromAsk(rows, i, config, env, value);
        if RunChecks(p.checks, value).Pass? {
          var next := config[p.key := Some(value)];
          var r := FillFrom(rows, i + 1, next, env);
          FillKeepsOtherKeys(rows, i + 1, next, env);
          assert p.key in Keys(rows);
          forall key | key != ProfileKey && (key !in Keys(rows) || IsSet(config, key))
            ensures SameEntry(r.config, config, key)
          {
            assert key != p.key;
            assert SameEntry(r.config, next, key);
          }
        }
      }
    }
  }

  /** When the loop completes, every key of the table is set and the profile
      is `"default"`. */
  lemma {:induction false} FillSuccessComplete(rows: seq<Prompt>, i: nat, config: Config, env: Env)
    requires WellFormed(rows) && i <= |rows| && PrefixSet(rows, config, i)
    ensures var r := FillFrom(rows, i, config, env);
      r.outcome.Pass? ==>
        PrefixSet(rows, r.config, |rows|) && ProfileKey in r.config && r.config[ProfileKey] == Some(S3Profile)
    decreases |rows| - i
  {
    if i < |rows| {
      var p := rows[i];
      if IsSet(config, p.key) {
        FillFromSkip(rows, i, config, env);
        FillSuccessComplete(rows, i + 1, config, env);
      } else {
        DefaultsReadEarlierRows(rows, i, config);
        var value := RowValue(p, config, env);
        FillFromAsk(rows, i, config, env, value);
        if RunChecks(p.checks, value).Pass? {
          FillSuccessComplete(rows, i + 1, config[p.key := Some(value)], env);
        }
      }
    } else {
      assert forall j :: 0 <= j < |rows| ==> rows[j].key in Keys(rows);
    }
  }

  /** The row at which the loop stopped on a failure: its key was missing, the
      rows before it have their keys set and those that were missing hold
      their answers, its key and every later one are as they were, and the
      outcome is what its validators made of its answer. */
  predicate StoppedAt(rows: seq<Prompt>, j: nat, final: Config, config: Config, env: Env, outcome: Outcome)
    requires j < |rows|
  {
    && !IsSet(config, rows[j].key)
    && PrefixSet(rows, final, j)
    && (forall m :: 0 <= m < j && !IsSet(config, rows[m].key) ==> Answered(rows[m], final, env))
    && (forall m :: j <= m < |rows| ==> SameEntry(final, config, rows[m].key))
    && DefaultReady(rows[j].default, final)
    && RunChecks(rows[j].checks, RowValue(rows[j], final, env)) == outcome
  }

  /** When a validator raises, the profile is not written and there is a row
      at which the loop stopped, whose validators raised that error. */
  lemma {:induction false} FillFailureShape(rows: seq<Prompt>, i: nat, config: Config, env: Env)
    requires WellFormed(rows) && i <= |rows| && PrefixSet(rows, config, i)
    ensures var r := FillFrom(rows, i, config, env);
      r.outcome.Fail? ==>
        SameEntry(r.config, config, ProfileKey)
        && exists j :: i <= j < |rows| && StoppedAt(rows, j, r.config, config, env, r.outcome)
    decreases |rows| - i
  {
    if i < |rows| {
      var p := rows[i];
      var r := FillFrom(rows, i, config, env);
      if IsSet(config, p.key) {
        FillFromSkip(rows, i, config, env);
        FillFailureShape(rows, i + 1, config, env);
      } else {
        DefaultsReadEarlierRows(rows, i, config);
        var value := RowValue(p, config, env);
        FillFromAsk(rows, i, config, env, value);
        if RunChecks(p.checks, value).Fail? {
          assert StoppedAt(rows, i, r.config, config, env, r.outcome);
        } else if r.outcome.Fail? {
          var next := config[p.key := Some(value)];
          FillFailureShape(rows, i + 1, next, env);
          assert p.key in Keys(rows);
          var j :| i + 1 <= j < |rows| && StoppedAt(rows, j, r.config, next, env, r.outcome);
          AnsweredFirstMissingRow(rows, i, config, env);
          StoppedAfterFilledRow(rows, i, j, config, env, r);
        }
      }
    }
  }

  /** A stop found after row `i` was filled is also a stop seen from before
      row `i`: the only key the row wrote is its own. */
  lemma StoppedAfterFilledRow(rows: seq<Prompt>, i: nat, j: nat, config: Config, env: Env, r: Filled)
    requires WellFormed(rows) && i < j < |rows| && PrefixSet(rows, config, i)
    requires !IsSet(config, rows[i].key) && DefaultReady(rows[i].default, config)
    requires Answered(rows[i], r.config, env)
    requires StoppedAt(rows, j, r.config, config[rows[i].key := Some(RowValue(rows[i], config, env))], env, r.outcome)
    ensures StoppedAt(rows, j, r.config, config, env, r.outcome)
  {
    var key := rows[i].key;
    var next := config[key := Some(RowValue(rows[i], config, env))];
    forall m | j <= m < |rows|
      ensures SameEntry(r.config, config, rows[m].key)
    {
      assert rows[m].key != key;
      assert SameEntry(r.config, next, rows[m].key);
    }
    forall m | 0 <= m < j && !IsSet(config, rows[m].key)
      ensures Answered(rows[m], r.config, env)
    {
      if m != i {
        assert rows[m].key != key;
      }
    }
  }

  /** The value a row with a missing key received: the typed line, or the
      row's default computed on the final dictionary when the line is empty;
      it passed the row's validators. */
  predicate Answered(p: Prompt, final: Config, env: Env) {
    && DefaultReady(p.default, final)
    && IsSet(final, p.key)
    && final[p.key].value == RowValue(p, final, env)
    && RunChecks(p.checks, final[p.key].value).Pass?
  }

  /** A row whose key was missing and whose answer passed its validators
      holds that answer at the end of the loop, however the later rows fare:
      they leave its key and the keys its default reads untouched, so the
      default computed at the end is the one that was offered. */
  lemma AnsweredFirstMissingRow(rows: seq<Prompt>, i: nat, config: Config, env: Env)
    requires WellFormed(rows) && i < |rows| && PrefixSet(rows, config, i)
    requires !IsSet(config, rows[i].key) && DefaultReady(rows[i].default, config)
    requires RunChecks(rows[i].checks, RowValue(rows[i], config, env)).Pass?
    ensures Answered(rows[i], FillFrom(rows, i, config, env).config, env)
  {
    var p := rows[i];
    DefaultsReadEarlierRows(rows, i, config);
    var value := RowValue(p, config, env);
    FillFromAsk(rows, i, config, env, value);
    var next := config[p.key := Some(value)];
    var final := FillFrom(rows, i + 1, next, env).config;
    FillKeepsOtherKeys(rows, i + 1, next, env);
    assert SameEntry(final, next, p.key);
    forall key | key in DefaultReads(p.default)
      ensures SameEntry(config, final, key)
    {
      assert IsSet(config, key) && key != p.key;
      assert SameEntry(final, next, key);
    }
    DefaultValueReadsOnly(p.default, config, final, env);
  }

  /** On success, every row whose key was missing holds its answer. Because
      rows are filled in table order and a callable default reads only earlier
      rows, that default equals the one computed on the final dictionary. */
  lemma {:induction false} FillAnswersMissingRows(rows: seq<Prompt>, i: nat, config: Config, env: Env)
    requires WellFormed(rows) && i <= |rows| && PrefixSet(rows, config, i)
    ensures var r := FillFrom(rows, i, config, env);
      r.outcome.Pass? ==>
        forall j :: i <= j < |rows| && !IsSet(config, rows[j].key) ==> Answered(rows[j], r.config, env)
    decreases |rows| - i
  {
    if i < |rows| {
      var p := rows[i];
      var r := FillFrom(rows, i, config, env);
      if IsSet(config, p.key) {
        FillFromSkip(rows, i, config, env);
        FillAnswersMissingRows(rows, i + 1, config, env);
      } else {
        DefaultsReadEarlierRows(rows, i, config);
        var value := RowValue(p, config, env);
        FillFromAsk(rows, i, config, env, value);
        if r.outcome.Pass? {
          var next := config[p.key := Some(value)];
          FillAnswersMissingRows(rows, i + 1, next, env);
          forall j | i < j < |rows| && !IsSet(config, rows[j].key)
            ensures Answered(rows[j], r.config, env)
          {
            assert rows[j].key != p.key;
          }
          AnsweredFirstMissingRow(rows, i, config, env);
        }
      }
    }
  }

  /** A row whose key is already set is not asked: the loop's result does
      not depend on what would be typed in answer to it. */
  lemma {:induction false} FillAsksOnlyMissingRows(rows: seq<Prompt>, i: nat, config: Config, env: Env,
                                                   typed: string -> string)
    requires WellFormed(rows) && i <= |rows| && PrefixSet(rows, config, i)
    requires forall j :: i <= j < |rows| && !IsSet(config, rows[j].key) ==>
               env.typed(rows[j].question) == typed(rows[j].question)
    ensures FillFrom(rows, i, config, env) == FillFrom(rows, i, config, env.(typed := typed))
    decreases |rows| - i
  {
    if i < |rows| {
      var p := rows[i];
      var other := env.(typed := typed);
      if IsSet(config, p.key) {
        FillFromSkip(rows, i, config, env);
        FillFromSkip(rows, i, config, other);
        FillAsksOnlyMissingRows(rows, i + 1, config, env, typed);
      } else {
        DefaultsReadEarlierRows(rows, i, config);
        var value := RowValue(p, config, env);
        assert value == RowValue(p, config, other);
        FillFromAsk(rows, i, config, env, value);
        FillFromAsk(rows, i, config, other, value);
        if RunChecks(p.checks, value).Pass? {
          var next := config[p.key := Some(value)];
          forall j | i + 1 <= j < |rows| && !IsSet(next, rows[j].key)
            ensures env.typed(rows[j].question) == typed(rows[j].question)
          {
            assert !IsSet(config, rows[j].key);
          }
          FillAsksOnlyMissingRows(rows, i + 1, next, env, typed);
        }
      }
    }
  }

  /** With every key of the table set, the loop asks nothing and only writes
      the profile. */
  lemma {:induction false} FillSkipsSetRows(rows: seq<Prompt>, i: nat, config: Config, env: Env)
    requires WellFormed(rows) && i <= |rows| && PrefixSet(rows, config, |rows|)
    ensures FillFrom(rows, i, config, env) == Filled(Pass, config[ProfileKey := Some(S3Profile)])
    decreases |rows| - i
  {
    if i < |rows| {
      FillFromSkip(rows, i, config, env);
      FillSkipsSetRows(rows, i + 1, config, env);
    }
  }

  /** Filling is idempotent: running the loop again on a dictionary it has
      completed, whatever the answers, changes nothing. */
  lemma FillIdempotent(config: Config, env: Env, again: Env)
    ensures var r := Fill(config, env);
      r.outcome.Pass? ==> Fill(r.config, again) == Filled(Pass, r.config)
  {
    PromptsWellFormed();
    var c := Fill(config, env).config;
    FillSuccessComplete(Prompts, 0, config, env);
    if Fill(config, env).outcome.Pass? {
      FillSkipsSetRows(Prompts, 0, c, again);
      assert c[ProfileKey := Some(S3Profile)] == c;
    }
  }

  /** The slug row's answer, when the line typed is empty, is the slugified
      project name. */
  lemma SlugRowAnswer(c: Config, env: Env)
    requires Answered(ProjectSlugRow, c, env)
    ensures && IsSet(c, "project_name") && IsSet(c, "project_slug")
            && c["project_slug"].value
               == Answer(env.typed("What's your project slug?"), env.slugify(c["project_name"].value))
  {
    assert "project_name" in DefaultReads(ProjectSlugRow.default);
  }

  /** The project slug's default sees the project name filled just before it. */
  lemma SlugDefaultSeesProjectName(config: Config, env: Env)
    ensures var r := Fill(config, env);
      !IsSet(config, "project_slug") && r.outcome.Pass? ==>
        && IsSet(r.config, "project_name") && IsSet(r.config, "project_slug")
        && r.config["project_slug"].value
           == Answer(env.typed("What's your project slug?"), env.slugify(r.config["project_name"].value))
  {
    PromptsWellFormed();
    FillAnswersMissingRows(Prompts, 0, config, env);
    if !IsSet(config, "project_slug") && Fill(config, env).outcome.Pass? {
      assert Prompts[1] == ProjectSlugRow;
      SlugRowAnswer(Fill(config, env).config, env);
    }
  }

  /** A bucket name obtained from the prompt meets the naming rules. */
  lemma PromptedBucketValid(config: Config, env: Env)
    requires !IsSet(config, "bucket")
    requires Fill(config, env).outcome.Pass?
    ensures var c := Fill(config, env).config;
      IsSet(c, "bucket") && IsS3BucketName(c["bucket"].value)
  {
    PromptsWellFormed();
    var c := Fill(config, env).config;
    FillAnswersMissingRows(Prompts, 0, config, env);
    var p := BucketRow;
    assert Prompts[5] == p && p.checks[1] == ValidBucketName;
    assert Answered(p, c, env);
    RunChecksPassIff(p.checks, c["bucket"].value);
    BucketNameVerdict(c["bucket"].value);
  }

  /** A project name obtained from the prompt is not blank. */
  lemma PromptedProjectNameNotBlank(config: Config, env: Env)
    requires !IsSet(config, "project_name")
    requires Fill(config, env).outcome.Pass?
    ensures var c := Fill(config, env).config;
      IsSet(c, "project_name")
      && exists k :: 0 <= k < |c["project_name"].value| && !IsSpaceChar(c["project_name"].value[k])
  {
    PromptsWellFormed();
    var c := Fill(config, env).config;
    FillAnswersMissingRows(Prompts, 0, config, env);
    var p := ProjectNameRow;
    assert Prompts[0] == p && p.checks[0] == NotEmpty;
    assert Answered(p, c, env);
    RunChecksPassIff(p.checks, c["project_name"].value);
    IsNotEmptyFailsIffBlank(c["project_name"].value);
  }

  /** Accepting the default bucket name passes that row's validators when the
      slug is slug-shaped and at most 54 characters long and the UUID text
      begins with eight lower-case letters or digits. */
  lemma DefaultBucketPassesRow(slug: string, uuid: string)
    requires IsSlugShaped(slug) && |slug| <= 54
    requires |uuid| >= 8 && forall i :: 0 <= i < 8 ==> IsLabelEdge(uuid[i])
    ensures RunChecks(BucketRow.checks, GetBucketName(slug, uuid)) == Pass
  {
    var name := GetBucketName(slug, uuid);
    DefaultBucketNameValid(slug, uuid);
    GetBucketNameShape(slug, uuid);
    assert name[0] == slug[0] && !IsSpaceChar(name[0]);
    IsNotEmptyFailsIffBlank(name);
    var checks := BucketRow.checks;
    assert checks == [NotEmpty, ValidBucketName];
    assert Apply(checks[0], name) == Pass && Apply(checks[1], name) == Pass;
    RunChecksPassIff(checks, name);
  }

  /** `for validator in validators: validator(value)`: stops at the first
      validator that raises. */
  method RunValidators(checks: seq<Check>, value: string) returns (outcome: Outcome)
    ensures outcome == RunChecks(checks, value)
  {
    var k := 0;
    while k < |checks|
      invariant k <= |checks|
      invariant forall m :: 0 <= m < k ==> Apply(checks[m], value).Pass?
    {
      var result := Apply(checks[k], value);
      if result.Fail? {
        RunChecksFirstFailure(checks, value, k);
        return result;
      }
      k := k + 1;
    }
    RunChecksPassIff(checks, value);
    return Pass;
  }

  /** The Python dictionary the loop fills in place. */
  class ConfigDict {
    var entries: Config

    constructor (initial: Config)
      ensures entries == initial
    {
      entries := initial;
    }

    /** `get_missing_details(config)`: `outcome` is `Pass` when it returns and
        the error when a validator raises; either way `entries` is the
        dictionary as the caller then sees it. */
    method GetMissingDetails(env: Env) returns (outcome: Outcome)
      modifies this
      ensures Filled(outcome, entries) == Fill(old(entries), env)
    {
      PromptsWellFormed();
      var i := 0;
      while i < |Prompts|
        invariant i <= |Prompts| && PrefixSet(Prompts, entries, i)
        invariant FillFrom(Prompts, i, entries, env) == Fill(old(entries), env)
      {
        var p := Prompts[i];
        if IsSet(entries, p.key) {
          FillFromSkip(Prompts, i, entries, env);
          i := i + 1;
          continue;
        }
        DefaultsReadEarlierRows(Prompts, i, entries);
        var default := DefaultValue(p.default, entries, env);
        var value := Answer(env.typed(p.question), default);
        FillFromAsk(Prompts, i, entries, env, value);
        outcome := RunValidators(p.checks, value);
        if outcome.Fail? {
          return;
        }
        entries := entries[p.key := Some(value)];
        i := i + 1;
      }
      entries := entries[ProfileKey := Some(S3Profile)];
      outcome := Pass;
    }
  }
}
