# Judge-score aggregation and `.env` loading, modelled in Dafny

This project models two small pieces of logic from a multi-agent judging
application.

**The coordinator's score aggregation** (`coordinator_agent` in
`packages/app/judging/main.py`). Several judge agents each reply with free
text. The coordinator parses every reply in order:

- It takes the first line containing `分数:` and the first line containing
  `理由:`.
- The score is `int()` of the stripped text between the first and the
  second colon.
- A reply without a score line, or with a score that is not an integer,
  counts as 50 and leaves an audit entry saying so.

Then it resolves the scores:

- No scores at all is a failure.
- If the highest and the lowest score are more than 10 apart, a human is
  asked. The human's reply must be an integer from 0 to 100. Otherwise the
  run fails, with distinct failures for out-of-range and non-integer input.
- Without a conflict, the result is the mean of all scores.

The judges' replies, the human's reply and the outcome of the concurrent
gathering are inputs. The final message is an `Outcome` datatype:
`Failed(reason)`, `Consensus(mean, details)` or `Human(score, details)`. The
mean is kept exactly, as a `(total, count)` pair.

**The `.env` loader** (`load_env` in `packages/app/load_env.py`). It looks
for the file in the start directory and, optionally, in each parent up to
the root. It then reads the nearest one line by line:

- Blank lines, `#` comments and lines without `=` are skipped.
- A line is split at its first `=`, and both sides are stripped.
- One pair of matching quotes is removed from the value.
- The key is set only if it is non-empty and not yet in the environment.

The process environment is a class, `EnvLoader.Environ`, whose `vars` map
the loading methods update in place. The file system is a map from paths
to line sequences.

Modules:

- `Wrappers`: the `Option` type.
- `Sequences`: element-wise mapping.
- `Strings`: Python's `strip`, `split`, `partition`, `in` and `startswith`
  on text.
- `IntParse`: Python's `int()` on ASCII digits, and `str()` as its inverse.
- `Judging`: the coordinator.
- `EnvLoader`: the loader.
- `Scenarios`: the coordinator's decisions on concrete scores and replies.

Three points of the code's behaviour that are easy to miss, all modelled
as the code has them:

- Parsed scores are not clamped. The code uses `int()`'s result as it is,
  so `Judging.ReplyInPromptFormat` scores a reply `150` as 150 and `-3` as
  -3.
- An error raised while gathering the judges' replies aborts the whole run.
  No failing judge is recorded and skipped. `Judging.Coordinate` returns
  `Failed(DispatchFailed(error))` in that case.
- The wait for the human's reply has no timeout.

## Model

| member | source | states |
|---|---|---|
| Judging.Coordinate | packages/app/judging/main.py:129-218 | An error raised while gathering the replies ends the run as `Failed(DispatchFailed(error))`. Otherwise the outcome is the resolution of the scores and audit entries of all replies, in judge order, and a successful outcome carries those entries. |
| Judging.CollectScores | packages/app/judging/main.py:139-159 | The loop returns exactly the per-reply scores and audit entries, one of each per reply, in order. |
| Judging.Scores | packages/app/judging/main.py:139-159 | The loop collects one score per reply. |
| Judging.Audits | packages/app/judging/main.py:140-159 | The loop collects one audit entry per reply. |
| Judging.CollectedPerReply | packages/app/judging/main.py:142-159 | Both collected lists have the length of the reply list, and element `i` is what reply `i` contributes. |
| Judging.ParseReply | packages/app/judging/main.py:147-159 | Every reply yields one entry naming its judge. A scored entry carries the score used; any other entry (parse failure, format error) comes with the default score 50. |
| Judging.NoScoreLine | packages/app/judging/main.py:144-159 | A reply gets a format-error entry exactly when none of its lines contains `分数:`, and then it counts as 50. |
| Judging.FirstScoreLineDecides | packages/app/judging/main.py:144-156 | Only the first line containing `分数:` counts. If its field parses as an integer, that integer is the score, unclamped. If it does not, the reply counts as 50 with a parse-failure entry. |
| Judging.FirstReasonLineGivesReason | packages/app/judging/main.py:145-151 | For a scored reply, the reason is the field of the first line containing `理由:`. |
| Judging.NoReasonLine | packages/app/judging/main.py:151 | A scored reply without a `理由:` line has the reason `未提供`. |
| Judging.MarkedLines | packages/app/judging/main.py:144-145 | The list comprehension keeps at most as many lines as there are. |
| Judging.MarkedLinesMarked | packages/app/judging/main.py:144-145 | Every kept line contains the marker. |
| Judging.MarkedLinesEmpty | packages/app/judging/main.py:144-147 | The comprehension is empty exactly when no line contains the marker. |
| Judging.MarkedLinesHead | packages/app/judging/main.py:144-151 | The first kept line is the first line containing the marker. |
| Judging.MarkerLineHasColon | packages/app/judging/main.py:149-151 | A line containing either marker contains a colon, so `split(':')[1]` exists. |
| Judging.FieldAfterColonBetween | packages/app/judging/main.py:149-151 | The field is the stripped text after the first colon, up to the next colon or the end of the line. |
| Judging.MarkerField | packages/app/judging/main.py:149-151 | On a line that begins with a marker and has no further colon, the field is the stripped rest of the line. |
| Judging.PromptReplyLines | packages/app/judging/main.py:143-145 | A reply in the prompt's format splits into its score line and its reason line. |
| Judging.PromptReplyMarked | packages/app/judging/main.py:144-145 | In that reply, the first line is the first score line and the second is the first reason line. |
| Judging.ScoreLineField | packages/app/judging/main.py:149 | `分数: <n>` yields exactly the integer `n`. |
| Judging.ReasonLineField | packages/app/judging/main.py:151 | `理由: <reason>` yields the stripped reason. |
| Judging.ReplyInPromptFormat | packages/app/judging/main.py:142-152 | A reply `分数: n` / `理由: r` is scored exactly `n`, with no clamping, and its reason is `r` stripped. It requires `r` to hold no newline and no `:`, because line 151 cuts a reason at its first `:` (see `Judging.ReasonText`). |
| Judging.FieldAfterColon | packages/app/judging/main.py:149-151 | The field taken from a marked line never contains a colon, because the split cuts at every colon. |
| Judging.ReasonText | packages/app/judging/main.py:151 | The recorded reason never contains a colon: a reason written with a colon keeps only its text up to that colon. |
| Judging.MaxOf | packages/app/judging/main.py:165 | `max(scores)` is one of the scores and no score exceeds it. |
| Judging.MinOf | packages/app/judging/main.py:165 | `min(scores)` is one of the scores and no score is below it. |
| Judging.ConflictIffSomePairApart | packages/app/judging/main.py:165-167 | The conflict test holds exactly when some two scores are more than 10 apart; a spread of exactly 10 is no conflict. |
| Judging.SumBounds | packages/app/judging/main.py:218 | A sum of scores within `lo..hi` lies within `count*lo..count*hi`. |
| Judging.MeanWithinRange | packages/app/judging/main.py:218 | The mean lies between the lowest and the highest score. |
| Judging.CheckHumanReply | packages/app/judging/main.py:202-214 | The human's stripped reply is accepted exactly when it is an integer in 0..100. An integer outside that range and a non-integer are distinct rejections, and the latter keeps the stripped text. |
| Judging.HumanScoreAccepted | packages/app/judging/main.py:202-210 | Any value 0..100, written with surrounding whitespace, is accepted as that value. |
| Judging.Resolve | packages/app/judging/main.py:162-218 | No scores gives `Failed(NoScores)`. The outcome is a consensus exactly when there is no conflict; its mean is the sum over the count, between the lowest and the highest score. A human verdict happens only on a conflict and is in 0..100. Both keep the audit entries. |
| Judging.HumanOnlyOnConflict | packages/app/judging/main.py:162-218 | Without a conflict, or without scores, the human's reply has no effect on the outcome. |
| Judging.ConflictOutcome | packages/app/judging/main.py:167-214 | On a conflict the outcome is never a consensus. It is a human verdict exactly when `int()` of the stripped reply succeeds with a value in 0..100, and then that value is the score, with the audit entries kept. An integer outside 0..100 fails citing that integer. Text `int()` rejects fails citing the stripped text. |
| Strings.Strip | packages/app/judging/main.py:149 | `str.strip()` leaves no whitespace at either end. |
| Strings.StripFrames | packages/app/judging/main.py:149 | The stripped text sits between two runs of whitespace in the original. |
| Strings.TrimStartFront | packages/app/load_env.py:62 | What stripping removes in front is whitespace only. |
| Strings.TrimEndBack | packages/app/load_env.py:62 | What stripping removes behind is whitespace only. |
| Strings.StripFramed | packages/app/load_env.py:62 | Text between runs of whitespace, without whitespace at its own ends, is what stripping gives. |
| Strings.StripUnchanged | packages/app/load_env.py:62 | Text without whitespace at its ends is unchanged by stripping. |
| Strings.StripLeadingSpace | packages/app/judging/main.py:149 | A leading space makes no difference to the stripped text. |
| Strings.Find | packages/app/load_env.py:72 | The first index of a character: present exactly when the character occurs, and no earlier index holds it. |
| Strings.Split | packages/app/judging/main.py:144 | `split` gives at least one piece, and at least two exactly when the separator occurs. |
| Strings.SplitPiecesFree | packages/app/judging/main.py:144 | No piece contains the separator. |
| Strings.SplitJoin | packages/app/judging/main.py:144 | Joining the pieces with the separator gives the text back. |
| Strings.SplitHead | packages/app/judging/main.py:149 | The first piece is the text up to the first separator, or all of it. |
| Strings.SplitSecond | packages/app/judging/main.py:149 | The second piece is the text after the first separator, up to the next one or the end. |
| Strings.Partition | packages/app/load_env.py:72 | `partition('=')` splits the text into before, separator and after. The before part has no separator. Without a separator the result is `(text, "", "")`. |
| Strings.PartitionAtFirst | packages/app/load_env.py:72 | The cut is at the first separator, whatever follows it. |
| IntParse.ParseInt | packages/app/judging/main.py:149 | `int()` of stripped text succeeds exactly on an optional `+` or `-` followed by digits, and only a `-` gives a negative value. |
| IntParse.ParseFormat | packages/app/judging/main.py:204 | `int(str(n)) == n`, without Python's limit on the number of digits (see "Left out"). |
| IntParse.FormatNatValue | packages/app/judging/main.py:204 | The digits of `str(n)` read back as `n`. |
| IntParse.FormatInt | packages/app/judging/main.py:152 | `str(n)` is non-empty and starts with `-` exactly for negatives. The rest, or all of it for a non-negative `n`, is digits. |
| IntParse.FormatIntStripped | packages/app/judging/main.py:149 | `str(n)` has no surrounding whitespace. |
| EnvLoader.Environ.Load | packages/app/load_env.py:32-86 | Returns true exactly when the search finds a file. When none is found, the environment is untouched. Otherwise it is the nearest file's lines applied to the old environment. |
| EnvLoader.FindEnvFile | packages/app/load_env.py:32-56 | With the parent search on, finds nothing exactly when no directory from the start up to the root holds the file; otherwise finds the file in the nearest one. Without it, looks only in the start directory. |
| EnvLoader.Parent | packages/app/load_env.py:46-48 | A directory is its own parent exactly when it is the root. |
| EnvLoader.Environ.LoadLines | packages/app/load_env.py:61-84 | The loop leaves the environment as the file's lines applied in order to the old one. |
| EnvLoader.Environ.constructor | packages/app/load_env.py:83-84 | The environment starts with the given variables. |
| EnvLoader.ParseLine | packages/app/load_env.py:62-80 | A line yields a key and a value exactly when, once stripped, it is non-empty, does not start with `#` and contains `=`. |
| EnvLoader.BlankOrCommentSkipped | packages/app/load_env.py:62-66 | A line that is blank or starts with `#`, once stripped, defines nothing. |
| EnvLoader.NoEqualsSkipped | packages/app/load_env.py:69-70 | A line without `=` defines nothing. |
| EnvLoader.SplitAtFirstEquals | packages/app/load_env.py:72-80 | The key is the stripped text before the first `=`. The value is the stripped, unquoted text after it, which may itself contain `=`. |
| EnvLoader.StrippedSplitAtFirstEquals | packages/app/load_env.py:65-80 | The same, for a line already stripped. |
| EnvLoader.Unquote | packages/app/load_env.py:77-80 | Unquoting changes a value exactly when it has length at least 2 and both ends are `"` or both are `'`. It then removes just those two characters, so mismatched and single quotes stay. |
| EnvLoader.UnquoteQuote | packages/app/load_env.py:77-80 | Exactly one layer is removed: unquoting `q + text + q` gives `text` back, even if `text` is itself quoted. |
| EnvLoader.ApplyEntry | packages/app/load_env.py:82-84 | One parsed line never changes or removes a key already present. A key it adds is non-empty, and it is the line's key with the line's value. |
| EnvLoader.ExistingKeysKept | packages/app/load_env.py:82-84 | A key already in the environment keeps its value. |
| EnvLoader.KeysAfterLoading | packages/app/load_env.py:82-84 | The keys afterwards are the old keys plus every non-empty key some line defines, so the empty key is never set. |
| EnvLoader.UndefinedKeysUnchanged | packages/app/load_env.py:82-84 | A key no line defines keeps its value or stays absent. |
| EnvLoader.FirstDefinitionWins | packages/app/load_env.py:82-84 | For a key absent beforehand, the first line that defines it decides its value; later duplicates are ignored. |
| EnvLoader.EntriesKeepExisting | packages/app/load_env.py:83-84 | Over the parsed lines, a present key keeps its value. |
| EnvLoader.EntriesKeys | packages/app/load_env.py:83-84 | Over the parsed lines, the keys afterwards are the old ones plus every non-empty key defined. |
| EnvLoader.EntriesUndefinedUnchanged | packages/app/load_env.py:83-84 | Over the parsed lines, a key no entry defines is untouched. |
| EnvLoader.EntriesFirstWins | packages/app/load_env.py:83-84 | Over the parsed lines, the first entry for an absent key decides its value. |
| EnvLoader.ApplyLinesNext | packages/app/load_env.py:61-84 | One more loop iteration applies one more line to the environment so far. |
| Scenarios.ConsensusScenario | packages/app/judging/main.py:165-218 | Scores 80, 85 and 82 agree, and the result is the mean 247/3 whatever the human would say. |
| Scenarios.SpreadOfTenScenario | packages/app/judging/main.py:167-218 | Scores 80, 90 and 85 are exactly 10 apart, which is no conflict, so the result is the mean 255/3. |
| Scenarios.HumanScenario | packages/app/judging/main.py:167-210 | Scores 90, 95 and 60 conflict, and a human reply reading `88` once stripped gives a human verdict of 88. |
| Scenarios.OutOfRangeScenario | packages/app/judging/main.py:202-212 | On the same conflict, a human reply reading `150` fails the run as out of range, citing 150. |
| Scenarios.NotAnIntegerScenario | packages/app/judging/main.py:202-214 | On the same conflict, a human reply reading `8.5` fails the run as not an integer. |
| Scenarios.HumanAccepts88 | packages/app/judging/main.py:202-205 | A reply reading `88` once stripped is accepted as 88. |
| Scenarios.HumanRejects150 | packages/app/judging/main.py:202-212 | A reply reading `150` once stripped is an integer out of range. |
| Scenarios.HumanRejectsFraction | packages/app/judging/main.py:202-214 | A reply reading `8.5` once stripped is not an integer, and the failure keeps that text. |
| Scenarios.ReasonOnlyHasNoScoreLine | packages/app/judging/main.py:144 | A reply holding only `理由: ...` has no line containing `分数:`. |
| Scenarios.MissingScoreScenario | packages/app/judging/main.py:144-159 | A reply holding only a reason line counts as 50 with a format-error entry. |

## Left out

- Agent, model and hook construction, Studio setup and the notifications
  sent to the studio (`packages/app/judging/main.py:21-126`, the
  `system_agent` calls and `main`). These are calls into foreign libraries
  with no decision logic.
- `packages/app/agile_development/main.py` is not part of this model. It is
  a fixed chain of language-model calls.
- The concurrent gathering of the judges' replies (`fanout_pipeline`). Its
  result is an input: either all replies in order, or the error it raised.
- The `UserAgent` exchange. The human's reply is an input text.
- Judging.Resolve: the mean is kept as the exact pair `(sum, count)`. The
  one-decimal floating-point rendering (`{avg_score:.1f}`) is not modelled,
  because it is floating point.
- Judging.Resolve: the mean is exact. Python's `sum(scores) / len(scores)`
  raises OverflowError when the mean is too large for a float. Scores are
  not clamped, so judges' replies can reach that case, where the code ends
  with an error and the model returns a consensus.
- Judging.Resolve: Python's digit limit also applies when an integer is
  turned into text. On a conflict, `packages/app/judging/main.py:169-172`
  writes the spread `max_score-min_score` into the conflict message before
  the human is asked. Two scores that each parse, such as 4300 nines and
  minus 4300 nines, have a spread of 4301 digits. There the code ends with
  an uncaught ValueError, while the model asks the human and returns
  `Human` or `Failed`.
- Judging.CheckHumanReply: a human message without text content, where the
  code's `.strip()` would raise on `None`, is not modelled. The reply is
  always a string.
- The exact Chinese message texts. Audit entries record the judge, the
  score and the reason, or the kind of failure, and outcomes are tagged.
- IntParse.ParseInt: only ASCII digits with an optional `+` or `-`.
  Python's `int()` also accepts other Unicode decimal digits and `_`
  between digits; those inputs are rejected here.
- IntParse.ParseInt: Python's limit on integer string conversion
  (`sys.int_max_str_digits`, 4300 digits by default since Python 3.11 and
  3.10.7) is not modelled. `int()` raises ValueError on a longer digit
  string, and leading zeros count toward the limit. So a judge's score of
  more than 4300 digits counts as a parse failure (50) in the code but as
  its value here. `IntParse.ParseFormat` likewise holds here beyond that
  limit.
- Judging.CheckHumanReply: a human reply of more than 4300 digits is "not
  an integer" in the code (`packages/app/judging/main.py:213-214`), while
  here it is judged by its value. It is then out of range, or, when leading
  zeros pad a value in 0..100 (4300 zeros followed by `88`), accepted, and
  on a conflict `Judging.Resolve` gives `Human(v, details)` where the code
  fails the run.
- Strings.IsSpace: is exactly the set of code points Python 3's
  `str.isspace` and `str.strip()` treat as whitespace, which has stayed the
  same since Unicode 6.3. A Python built on another Unicode database could
  differ, and that is not modelled.
- EnvLoader.Environ.Load: the caller lookup through `inspect.stack` when
  no start directory is given, the file system checks (`exists`,
  `is_file`), opening the file and decoding it as UTF-8 are not modelled.
  The start directory is a parameter, and the existing files are a map
  from path to their lines. A path is a sequence of components, with `[]`
  as the root.
- EnvLoader.Environ.Load: the exception handler (`load_env.py:88-90`),
  which prints and returns false after a partial update, is not modelled.
  Reading a file never fails here. Setting a variable whose key or value
  holds a NUL character also never fails here, although
  `os.environ[key] = value` raises ValueError on it and the code then
  returns false with the earlier lines already applied.
- EnvLoader.Environ.Load: environment keys follow POSIX rules and are
  case-sensitive; on Windows `os.environ` upper-cases them, so `Path` and
  `PATH` are one key there. The file name is one path component; in the
  code an absolute `env_file` makes `search_dir / env_file` ignore the
  search directory.
- Timeouts and cancellation: the code has none, for the human's reply or
  for the dispatch, so the model has none either.
