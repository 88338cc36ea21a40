# yappa configuration helpers in Dafny

This project models the local configuration layer of yappa's command-line
tool (`yappa/cli_helpers.py`). That layer runs before anything reaches the
cloud:

- the object-storage bucket-name check `is_valid_bucket_name`;
- the `is_not_empty` validator and the three validator stubs;
- the default bucket name `get_bucket_name`;
- the `PROMPTS` table;
- `get_missing_details`, which walks the table and fills the missing entries
  of a configuration dictionary in place, then writes the storage profile.

Files and modules:

- `strings.dfy` (`Strings`): the Python `str` operations the helpers use
  (`lower`, `isdigit`, `isspace`, `split`, `strip`, `replace`, slicing),
  over ASCII characters. Splitting and joining are proved inverse to each
  other.
- `validators.dfy` (`Validators`): the `ValidationError` messages as a
  datatype, the outcome of a validator (`Pass` or `Fail(error)`),
  `is_not_empty`, and the three stubs.
- `bucket_names.dfy` (`BucketNames`):
  - `is_valid_bucket_name` as a function with its four ordered tests;
  - a reference rule stated on the characters of the name (length, no upper
    case or `_`, dots only between label-edge characters, not digits and
    dots only);
  - a proof that the two agree error by error;
  - `get_bucket_name` and the conditions under which its result passes the
    check.
- `config_prompts.dfy` (`ConfigPrompts`):
  - the `PROMPTS` rows;
  - `FillFrom`, a function stating what the loop does from a given row on,
    over any table that is well formed: distinct keys, none of them
    `"profile"`, callable defaults that read only keys of earlier rows;
  - the class `ConfigDict`, whose method `GetMissingDetails` runs the loop
    on its `entries` field and is proved equal to `Fill` (that function on
    `PROMPTS`);
  - lemmas on what the loop keeps, fills, asks and leaves behind.

The configuration dictionary is a `map<string, Option<string>>`, so an absent
key and a key mapped to `None` are both represented. `config.get(key) is not
None` is `IsSet`.

Three things are taken as values of an `Env` record:

- `click.prompt` becomes the line the user types for a question; an empty
  line takes the default, as click does.
- `boltons.strutils.slugify` is a parameter.
- The text of `uuid4()` is a parameter.

When a validator raises, the exception leaves the dictionary as it was at that
moment. The model returns `Fail(error)` together with that dictionary.

The error message of the last bucket-name test speaks of names formatted as
an IP address. The test itself (`yappa/cli_helpers.py:114-116`) rejects every
name whose `.`-separated labels are all digits, including single-label names
such as `"123"`. The model follows the test, not the message.

## Model

| member | source | states |
|---|---|---|
| Strings.LowerUnchangedIff | yappa/cli_helpers.py:105 | `name.lower() != name` holds exactly when the name has an upper-case letter |
| Strings.Find | yappa/cli_helpers.py:108 | the first index of the separator, or -1 exactly when it is absent; no earlier occurrence |
| Strings.Split | yappa/cli_helpers.py:108 | `split(".")` always yields at least one label and no label contains the separator |
| Strings.SplitAtFirst | yappa/cli_helpers.py:108 | splitting at the first separator gives the first label followed by the split of the rest |
| Strings.JoinSplit | yappa/cli_helpers.py:108 | joining the labels with the separator gives back the name: splitting loses nothing |
| Strings.SplitJoin | yappa/cli_helpers.py:108 | splitting a join of separator-free pieces gives back the pieces |
| Strings.TrimStart | yappa/cli_helpers.py:145 | `lstrip` returns a suffix, drops only whitespace, and starts with a non-space character |
| Strings.TrimEnd | yappa/cli_helpers.py:145 | `rstrip` returns a prefix, drops only whitespace, and ends with a non-space character |
| Strings.StripEmptyIff | yappa/cli_helpers.py:145 | `s.strip()` is empty exactly when every character of `s` is whitespace |
| Strings.Replace | yappa/cli_helpers.py:141 | `replace("_", ".")` keeps the length and changes exactly the `_` characters |
| Strings.Prefix | yappa/cli_helpers.py:141 | `[:8]` is the prefix of length min(8, length) |
| Strings.LowerChar | yappa/cli_helpers.py:105 | lower-casing maps an upper-case letter to a lower-case one and leaves every other character alone |
| Validators.IsNotEmptyFailsIffBlank | yappa/cli_helpers.py:144-146 | `is_not_empty` raises exactly on empty or whitespace-only strings, always with the same error |
| Validators.StubsAcceptEverything | yappa/cli_helpers.py:119-134 | the three stub validators never raise |
| BucketNames.BucketNameVerdict | yappa/cli_helpers.py:97-116 | each of the four errors is raised exactly when its test is the first to fail, and the name passes exactly when it meets all four character rules |
| BucketNames.LabelsGoodIff | yappa/cli_helpers.py:108-113 | the loop over labels finds no bad label exactly when the name is non-empty, starts and ends with a lower-case letter or digit, and has such a character on both sides of every dot |
| BucketNames.LabelsAllDigitsIff | yappa/cli_helpers.py:114 | with every label good, all labels are digits exactly when the name holds only digits and dots |
| BucketNames.DotsAtFirstSeparator | yappa/cli_helpers.py:108-113 | the dots rule holds for a name exactly when its first label is good and the rule holds for the rest |
| BucketNames.DotsFromParts | yappa/cli_helpers.py:108-113 | a good first label, a dot and a well-dotted rest make a well-dotted name |
| BucketNames.DotsToParts | yappa/cli_helpers.py:108-113 | a well-dotted name splits at its first dot into a good label and a well-dotted rest |
| BucketNames.EveryLabelCons | yappa/cli_helpers.py:108-114 | both label tests hold for a list exactly when they hold for its head and its tail |
| BucketNames.DigitsAtFirstSeparator | yappa/cli_helpers.py:114 | a name holds only digits and dots exactly when both sides of its first dot do |
| BucketNames.MisplacedDotRejected | yappa/cli_helpers.py:108-113 | a leading dot, a trailing dot or two dots in a row are always rejected |
| BucketNames.DigitsAndDotsRejected | yappa/cli_helpers.py:114-116 | a name of digits and dots is rejected whatever its number of labels |
| BucketNames.InteriorCharactersFree | yappa/cli_helpers.py:102-116 | in an accepted name, any character other than an (ASCII) upper-case letter, `_`, `.` or a digit may replace an interior character away from dots, and the name stays accepted |
| BucketNames.ExampleAccepted | yappa/cli_helpers.py:102-116 | `"my.bucket-1"` meets all four character rules |
| BucketNames.ExampleAcceptedVerdict | yappa/cli_helpers.py:97-116 | the check accepts `"my.bucket-1"` |
| BucketNames.ExampleUppercaseUnderscore | yappa/cli_helpers.py:105-107 | `"My_Bucket"` fails on the case-and-underscore test |
| BucketNames.ExampleDottedQuad | yappa/cli_helpers.py:102-116 | `"192.168.1.1"` passes the first three rules and holds only digits and dots |
| BucketNames.ExampleDottedQuadVerdict | yappa/cli_helpers.py:114-116 | the check rejects `"192.168.1.1"` as an IP address |
| BucketNames.ExampleDigitsOnly | yappa/cli_helpers.py:114-116 | `"123"` fails as an IP address |
| BucketNames.ExampleTooShort | yappa/cli_helpers.py:102-104 | `"ab"` fails on length |
| BucketNames.ExampleDoubledDot | yappa/cli_helpers.py:108-113 | `"a..b"` fails on its empty label |
| BucketNames.GetBucketNameShape | yappa/cli_helpers.py:137-141 | the default name is the slug with `_` turned into `.`, then `-`, then the first eight characters of the UUID text; its length is the slug's plus 9 when the UUID text has at least eight characters; it has no `_` when the UUID prefix has none |
| BucketNames.DefaultBucketNameValid | yappa/cli_helpers.py:137-141 | for a slug of lower-case words joined by single `_`, at most 54 characters, and a UUID text whose first eight characters are lower-case letters or digits, the default name passes the check |
| BucketNames.LongSlugDefaultRejected | yappa/cli_helpers.py:141 | a slug longer than 54 characters makes the default name fail on length |
| ConfigPrompts.DefaultValueReadsOnly | yappa/cli_helpers.py:149-150 | a callable default gives the same value on two dictionaries that agree on the keys it reads |
| ConfigPrompts.RunChecksPassIff | yappa/cli_helpers.py:186-187 | the validators pass exactly when each one passes; a failure carries the error of one of them |
| ConfigPrompts.RunChecksFirstFailure | yappa/cli_helpers.py:186-187 | the outcome is the error of the first validator that raises |
| ConfigPrompts.RunValidators | yappa/cli_helpers.py:186-187 | the validator loop returns the outcome the validators define |
| ConfigPrompts.PromptsWellFormed | yappa/cli_helpers.py:153-170 | the keys of `PROMPTS` are distinct, none is `"profile"`, and the slug and bucket defaults read keys of earlier rows |
| ConfigPrompts.DefaultsReadEarlierRows | yappa/cli_helpers.py:184 | with the earlier rows' keys set, a row's default can be computed |
| ConfigPrompts.FillKeepsOtherKeys | yappa/cli_helpers.py:181-189 | keys already set, and keys the table does not ask for, come out unchanged (the profile aside) |
| ConfigPrompts.FillAsksOnlyMissingRows | yappa/cli_helpers.py:181-185 | rows whose key is set are not prompted: what would be typed for them does not change the result |
| ConfigPrompts.FillSuccessComplete | yappa/cli_helpers.py:181-189 | on success every `PROMPTS` key is set and `profile` is `"default"` |
| ConfigPrompts.FillFailureShape | yappa/cli_helpers.py:181-188 | on a failure there is a row whose key was missing, and the returned error is what that row's validators make of its answer (typed line or default); every earlier row has its key set, and each one that was missing holds its validated answer; the stop row and every later row are untouched, and `profile` is not written |
| ConfigPrompts.AnsweredFirstMissingRow | yappa/cli_helpers.py:184-188 | a missing row whose answer passed its validators keeps that value to the end of the loop, whether later rows pass or fail |
| ConfigPrompts.FillAnswersMissingRows | yappa/cli_helpers.py:181-188 | on success every row that was missing holds the typed line, or its default computed on the final dictionary, and passed its validators |
| ConfigPrompts.FillSkipsSetRows | yappa/cli_helpers.py:181-189 | with every key set, the loop only writes the profile |
| ConfigPrompts.FillIdempotent | yappa/cli_helpers.py:177-190 | running the loop again on a dictionary it completed changes nothing, whatever is typed |
| ConfigPrompts.SlugDefaultSeesProjectName | yappa/cli_helpers.py:149-157 | a prompted slug's default is computed from the project name filled before it |
| ConfigPrompts.PromptedBucketValid | yappa/cli_helpers.py:164-166 | a prompted bucket name meets the naming rules |
| ConfigPrompts.PromptedProjectNameNotBlank | yappa/cli_helpers.py:154 | a prompted project name has a non-whitespace character |
| ConfigPrompts.DefaultBucketPassesRow | yappa/cli_helpers.py:164-166 | the default bucket name, for a well-shaped slug of at most 54 characters, passes both validators of the bucket row |
| ConfigPrompts.ConfigDict.GetMissingDetails | yappa/cli_helpers.py:177-190 | the outcome and the dictionary left in `entries` are those of `Fill` on the dictionary before the call |

## Left out

- `NaturalOrderGroup`, `create_function`, `create_function_version`, `create_gateway` and `update_gateway` (`yappa/cli_helpers.py:13-90`) are not part of this model. They are CLI glue, remote cloud-API calls, console output and YAML file I/O.
- `get_slug` and `boltons.strutils.slugify` are not modelled: the slug function is a parameter (`Env.slugify`).
- `uuid4()` is not modelled: its text is a parameter (`Env.uuid`).
- `click.prompt` is not modelled: the typed line is a parameter (`Env.typed`). Its re-prompting and type conversion are left out.
- Character classes follow ASCII. Python's Unicode rules for `lower`, `islower`, `isdigit` and `isspace` are left out. So the model's verdicts differ from Python's on non-ASCII names: the model accepts `"abÉcd"`, while Python's `lower()` changes `É` and the test at `yappa/cli_helpers.py:105` raises.
- BucketNames.InteriorCharactersFree: the characters it lets through include non-ASCII upper-case letters such as `É`, which the model treats as uncased; over Python's Unicode rules the lemma holds only for characters that `lower()` leaves unchanged.
- `is_not_empty(None)` is not modelled: values are strings, as `click.prompt` returns.
- Entries already present in the dictionary are taken to be strings (or `None`). The loaded YAML configuration can hold other kinds of value (the deployment code reads `memory_limit`, `timeout` and `environment` from it). A preset non-string `project_slug` makes `get_bucket_name` raise `AttributeError` at `yappa/cli_helpers.py:141`, and a non-string `project_name` can make `slugify` raise at `yappa/cli_helpers.py:150`, both while the default is computed and before the question is asked, leaving the dictionary partly filled. Those exceptions are not modelled.
- The exception raised by a validator is a `Fail` result. Its propagation through the caller is left out.
- `tests/conftest.py` and `tests/handlers/manage.py` are not part of this model. They create cloud resources and run Django commands.
