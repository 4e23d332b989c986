/** The decision logic of the judging coordinator (`coordinator_agent`):
    each judge's free-text reply is parsed into a score and an audit entry,
    then the scores are either averaged (no conflict) or the decision is
    handed to a human whose reply is validated. */
module Judging {
  import opened Wrappers
  import opened Strings
  import opened IntParse
  import opened Sequences

  /** The marker of the score line a judge is asked to write. */
  const ScoreMarker: string := "分数:"
  /** The marker of the reason line a judge is asked to write. */
  const ReasonMarker: string := "理由:"
  /** The reason recorded when a scored reply has no reason line. */
  const NotProvided: string := "未提供"
  /** The score substituted for a reply that cannot be scored. */
  const DefaultScore: int := 50
  /** Scores whose spread is larger than this are a conflict. */
  const ConflictThreshold: int := 10

  /** One judge's reply: the judge's name and the text of its message
      (`None` when the message has no text content). */
  datatype JudgeReply = JudgeReply(name: string, text: Option<string>)

  /** One line of the audit trail, per judge, in judge order. */
  datatype AuditEntry =
    | Scored(judge: string, score: int, reason: string)
    | ParseFailed(judge: string)
    | FormatError(judge: string)

  /** What one reply contributes: a score and an audit entry. */
  datatype ParsedReply = ParsedReply(score: int, entry: AuditEntry)

  /** The outcome of gathering the judges' replies concurrently: either all
      replies, in judge order, or the error that aborted the gathering. */
  datatype Dispatch = Gathered(results: seq<JudgeReply>) | Raised(error: string)

  /** The exact mean `total / count`, kept as a fraction. */
  datatype Mean = Mean(total: int, count: nat)

  /** How the human's reply was judged. */
  datatype HumanCheck = Accepted(score: int) | OutOfRange(score: int) | NotAnInteger(input: string)

  datatype FailReason =
    | DispatchFailed(error: string)
    | NoScores
    | HumanOutOfRange(value: int)
    | HumanNotAnInteger(input: string)

  /** The coordinator's final message, by kind. */
  datatype Outcome =
    | Failed(reason: FailReason)
    | Consensus(mean: Mean, details: seq<AuditEntry>)
    | Human(score: int, details: seq<AuditEntry>)

  // ---------------------------------------------------------------------
  // Parsing one reply

  /** `result.get_text_content() or ""`. */
  function Content(reply: JudgeReply): string {
    reply.text.GetOr("")
  }

  /** `content.split('\n')`. */
  function Lines(content: string): seq<string> {
    Split(content, '\n')
  }

  /** `[line for line in lines if marker in line]`. */
  function MarkedLines(lines: seq<string>, marker: string): (r: seq<string>)
    ensures |r| <= |lines|
  {
    if |lines| == 0 then []
    else if Contains(lines[0], marker) then [lines[0]] + MarkedLines(lines[1..], marker)
    else MarkedLines(lines[1..], marker)
  }

  /** Every line kept by the filter contains the marker. */
  lemma {:induction false} MarkedLinesMarked(lines: seq<string>, marker: string, k: int)
    requires 0 <= k < |MarkedLines(lines, marker)|
    ensures Contains(MarkedLines(lines, marker)[k], marker)
  {
    var rest := MarkedLines(lines[1..], marker);
    if Contains(lines[0], marker) {
      if k > 0 {
        MarkedLinesMarked(lines[1..], marker, k - 1);
      }
    } else {
      MarkedLinesMarked(lines[1..], marker, k);
    }
  }

  /** The filter keeps nothing exactly when no line contains the marker. */
  lemma {:induction false} MarkedLinesEmpty(lines: seq<string>, marker: string)
    ensures |MarkedLines(lines, marker)| == 0
        <==> forall i :: 0 <= i < |lines| ==> !Contains(lines[i], marker)
  {
    if |lines| > 0 {
      MarkedLinesEmpty(lines[1..], marker);
      assert forall i :: 1 <= i < |lines| ==> lines[i] == lines[1..][i - 1];
    }
  }

  /** `line` is the first of `lines` (at index `i`) that contains `marker`. */
  predicate FirstMarked(lines: seq<string>, marker: string, i: int) {
    0 <= i < |lines| && Contains(lines[i], marker)
    && forall j :: 0 <= j < i ==> !Contains(lines[j], marker)
  }

  /** The first element of the filtered list is the first marked line. */
  lemma {:induction false} MarkedLinesHead(lines: seq<string>, marker: string, i: int)
    requires FirstMarked(lines, marker, i)
    ensures |MarkedLines(lines, marker)| > 0 && MarkedLines(lines, marker)[0] == lines[i]
  {
    if i > 0 {
      MarkedLinesHead(lines[1..], marker, i - 1);
    }
  }

  /** `line.split(':')[1].strip()`: never contains a colon, since the
      split cuts at every colon. */
  function FieldAfterColon(line: string): (r: string)
    requires ':' in line
    ensures ':' !in r
  {
    SplitPiecesFree(line, ':');
    StripKeepsOut(Split(line, ':')[1], ':');
    Strip(Split(line, ':')[1])
  }

  /** `line[i + 1..j]` is the text after the colon at `i` up to the next
      colon (at `j`) or the end of the line (`j == |line|`). */
  predicate NextColonAt(line: string, i: int, j: int) {
    0 <= i < j <= |line| && ':' !in line[i + 1..j] && (j == |line| || line[j] == ':')
  }

  /** `FieldAfterColon(line)` is the stripped text between the first colon
      of `line` and the next colon, or the end of the line. */
  lemma FieldAfterColonBetween(line: string)
    requires ':' in line
    ensures exists j ::
      NextColonAt(line, Find(line, ':').value, j)
      && FieldAfterColon(line) == Strip(line[Find(line, ':').value + 1..j])
  {
    var i := Find(line, ':').value;
    var p := Split(line, ':')[1];
    SplitSecond(line, ':');
    var j := i + 1 + |p|;
    assert line[i + 1..j] == p;
    assert NextColonAt(line, i, j);
  }

  /** A line holding a marker holds a colon, since both markers end in one. */
  lemma MarkerLineHasColon(line: string, marker: string)
    requires marker == ScoreMarker || marker == ReasonMarker
    requires Contains(line, marker)
    ensures ':' in line
  {
    assert marker[2] == ':';
    ContainsChar(line, marker, ':');
  }

  /** The reply's lines that contain the score marker. */
  function ScoreLines(reply: JudgeReply): seq<string> {
    MarkedLines(Lines(Content(reply)), ScoreMarker)
  }

  /** The reason a scored reply records: the field of the first line that
      contains the reason marker, or "not provided". */
  function ReasonText(reply: JudgeReply): (r: string)
    ensures ':' !in r
  {
    var reasonLines := MarkedLines(Lines(Content(reply)), ReasonMarker);
    if |reasonLines| > 0 then
      MarkedLinesMarked(Lines(Content(reply)), ReasonMarker, 0);
      MarkerLineHasColon(reasonLines[0], ReasonMarker);
      FieldAfterColon(reasonLines[0])
    else NotProvided
  }

  /** The body of the source's parsing loop for one reply: the first score
      line's field is parsed as an integer; if that works the reply
      contributes that score (unclamped) and its reason, otherwise the
      default score with an audit entry saying why. */
  function ParseReply(reply: JudgeReply): (p: ParsedReply)
    ensures p.entry.judge == reply.name
    ensures p.entry.Scored? ==> p.score == p.entry.score
    ensures !p.entry.Scored? ==> p.score == DefaultScore
  {
    var scoreLines := ScoreLines(reply);
    if |scoreLines| > 0 then
      MarkedLinesMarked(Lines(Content(reply)), ScoreMarker, 0);
      MarkerLineHasColon(scoreLines[0], ScoreMarker);
      match ParseInt(FieldAfterColon(scoreLines[0]))
      case Some(score) => ParsedReply(score, Scored(reply.name, score, ReasonText(reply)))
      case None => ParsedReply(DefaultScore, ParseFailed(reply.name))
    else
      ParsedReply(DefaultScore, FormatError(reply.name))
  }

  /** A reply gets the "format error" entry and the default score exactly
      when none of its lines contains the score marker. */
  lemma NoScoreLine(reply: JudgeReply)
    ensures ParseReply(reply).entry.FormatError?
        <==> forall i :: 0 <= i < |Lines(Content(reply))| ==> !Contains(Lines(Content(reply))[i], ScoreMarker)
    ensures ParseReply(reply).entry.FormatError? ==> ParseReply(reply).score == DefaultScore
  {
    MarkedLinesEmpty(Lines(Content(reply)), ScoreMarker);
  }

  /** Only the first score line counts: its field decides between a
      "parse failed" entry with the default score and the parsed score,
      used as it is. */
  lemma {:induction false} FirstScoreLineDecides(reply: JudgeReply, i: int)
    requires FirstMarked(Lines(Content(reply)), ScoreMarker, i)
    ensures var line := Lines(Content(reply))[i];
      ':' in line &&
      match ParseInt(FieldAfterColon(line))
      case None => ParseReply(reply) == ParsedReply(DefaultScore, ParseFailed(reply.name))
      case Some(v) => ParseReply(reply).score == v && ParseReply(reply).entry.Scored?
  {
    var lines := Lines(Content(reply));
    MarkedLinesHead(lines, ScoreMarker, i);
    MarkerLineHasColon(lines[i], ScoreMarker);
  }

  /** A scored reply's reason is the field of its first reason line. */
  lemma {:induction false} FirstReasonLineGivesReason(reply: JudgeReply, j: int)
    requires ParseReply(reply).entry.Scored?
    requires FirstMarked(Lines(Content(reply)), ReasonMarker, j)
    ensures ':' in Lines(Content(reply))[j]
    ensures ParseReply(reply).entry.reason == FieldAfterColon(Lines(Content(reply))[j])
  {
    var lines := Lines(Content(reply));
    MarkedLinesHead(lines, ReasonMarker, j);
    MarkerLineHasColon(lines[j], ReasonMarker);
  }

  /** A scored reply without any reason line records "not provided". */
  lemma NoReasonLine(reply: JudgeReply)
    requires ParseReply(reply).entry.Scored?
    requires forall i :: 0 <= i < |Lines(Content(reply))| ==> !Contains(Lines(Content(reply))[i], ReasonMarker)
    ensures ParseReply(reply).entry.reason == NotProvided
  {
    MarkedLinesEmpty(Lines(Content(reply)), ReasonMarker);
  }

  /** On a line that starts with a marker and has no other colon, the
      field is the stripped rest of the line. */
  lemma MarkerField(marker: string, rest: string)
    requires marker == ScoreMarker || marker == ReasonMarker
    requires ':' !in rest
    ensures ':' in marker + rest && FieldAfterColon(marker + rest) == Strip(rest)
  {
    var line := marker + rest;
    assert line[2] == ':' && line[..2] == marker[..2] && ':' !in marker[..2];
    assert Find(line, ':') == Some(2);
    assert line[3..] == rest;
    assert Split(line, ':') == [line[..2]] + Split(rest, ':');
  }

  /** The text the judges are asked to write: a score line, then a reason
      line. */
  function PromptReply(n: int, reason: string): string {
    ScoreMarker + " " + FormatInt(n) + "\n" + ReasonMarker + " " + reason
  }

  /** A reply in the requested format splits into its two lines. */
  lemma PromptReplyLines(n: int, reason: string)
    requires '\n' !in reason
    ensures Lines(PromptReply(n, reason))
      == [ScoreMarker + " " + FormatInt(n), ReasonMarker + " " + reason]
  {
    var scoreLine := ScoreMarker + " " + FormatInt(n);
    var reasonLine := ReasonMarker + " " + reason;
    var text := PromptReply(n, reason);
    assert text == scoreLine + "\n" + reasonLine;
    assert '\n' !in scoreLine && '\n' !in reasonLine;
    assert Find(text, '\n') == Some(|scoreLine|);
    assert text[..|scoreLine|] == scoreLine;
    assert text[|scoreLine| + 1..] == reasonLine;
    assert Split(reasonLine, '\n') == [reasonLine];
  }

  /** In a reply in the requested format, the first line is the first
      score line and the second line the first reason line. */
  lemma PromptReplyMarked(n: int, reason: string)
    requires '\n' !in reason
    ensures var lines := Lines(PromptReply(n, reason));
      && FirstMarked(lines, ScoreMarker, 0)
      && FirstMarked(lines, ReasonMarker, 1)
  {
    var digits := FormatInt(n);
    var scoreLine := ScoreMarker + " " + digits;
    var reasonLine := ReasonMarker + " " + reason;
    PromptReplyLines(n, reason);
    var lines := Lines(PromptReply(n, reason));
    ContainsPrefix(ScoreMarker, " " + digits);
    assert ScoreMarker + (" " + digits) == scoreLine;
    ContainsPrefix(ReasonMarker, " " + reason);
    assert ReasonMarker + (" " + reason) == reasonLine;
    if Contains(scoreLine, ReasonMarker) {
      assert ReasonMarker[0] == '理';
      ContainsChar(scoreLine, ReasonMarker, '理');
    }
  }

  /** The score line of the requested format gives back the score. */
  lemma ScoreLineField(n: int)
    ensures ':' in ScoreMarker + " " + FormatInt(n)
    ensures ParseInt(FieldAfterColon(ScoreMarker + " " + FormatInt(n))) == Some(n)
  {
    var digits := FormatInt(n);
    MarkerField(ScoreMarker, " " + digits);
    assert ScoreMarker + (" " + digits) == ScoreMarker + " " + digits;
    StripLeadingSpace(digits);
    FormatIntStripped(n);
    ParseFormat(n);
  }

  /** The reason line of the requested format gives back the stripped
      reason. */
  lemma ReasonLineField(reason: string)
    requires ':' !in reason
    ensures ':' in ReasonMarker + " " + reason
    ensures FieldAfterColon(ReasonMarker + " " + reason) == Strip(reason)
  {
    MarkerField(ReasonMarker, " " + reason);
    assert ReasonMarker + (" " + reason) == ReasonMarker + " " + reason;
    StripLeadingSpace(reason);
  }

  /** A reply written the way the judges are asked to answer,
      "分数: <n>\n理由: <reason>", yields exactly score `n` (any integer:
      nothing clamps it to 0..100) and the stripped reason. */
  lemma ReplyInPromptFormat(name: string, n: int, reason: string)
    requires '\n' !in reason && ':' !in reason
    ensures ParseReply(JudgeReply(name, Some(PromptReply(n, reason))))
      == ParsedReply(n, Scored(name, n, Strip(reason)))
  {
    var reply := JudgeReply(name, Some(PromptReply(n, reason)));
    assert Content(reply) == PromptReply(n, reason);
    PromptReplyLines(n, reason);
    PromptReplyMarked(n, reason);
    ScoreLineField(n);
    ReasonLineField(reason);
    FirstScoreLineDecides(reply, 0);
    FirstReasonLineGivesReason(reply, 1);
  }

  // ---------------------------------------------------------------------
  // The parsing loop

  /** The scores the loop has collected after the replies `results`. */
  function Scores(results: seq<JudgeReply>): (r: seq<int>)
    ensures |r| == |results|
  {
    MapSeq(r => ParseReply(r).score, results)
  }

  /** The audit entries the loop has collected after the replies `results`. */
  function Audits(results: seq<JudgeReply>): (r: seq<AuditEntry>)
    ensures |r| == |results|
  {
    MapSeq(r => ParseReply(r).entry, results)
  }

  /** Both lists hold exactly one element per reply, and element `i` is
      what reply `i` contributes: none is dropped and the order is kept. */
  lemma CollectedPerReply(results: seq<JudgeReply>, i: int)
    requires 0 <= i < |results|
    ensures |Scores(results)| == |results| && |Audits(results)| == |results|
    ensures Scores(results)[i] == ParseReply(results[i]).score
    ensures Audits(results)[i] == ParseReply(results[i]).entry
  {
    MapSeqAt(r => ParseReply(r).score, results, i);
    MapSeqAt(r => ParseReply(r).entry, results, i);
  }

  /** The source's parsing loop: for every reply, in order, append one
      score and one audit entry. */
  method CollectScores(results: seq<JudgeReply>) returns (scores: seq<int>, details: seq<AuditEntry>)
    ensures scores == Scores(results) && details == Audits(results)
  {
    scores, details := [], [];
    for k := 0 to |results|
      invariant scores == Scores(results[..k])
      invariant details == Audits(results[..k])
    {
      var parsed := ParseReply(results[k]);
      assert results[..k + 1][..k] == results[..k];
      scores := scores + [parsed.score];
      details := details + [parsed.entry];
    }
    assert results[..|results|] == results;
  }

  // ---------------------------------------------------------------------
  // Conflict test, mean and the human's reply

  function Sum(s: seq<int>): int {
    if |s| == 0 then 0 else Sum(s[..|s| - 1]) + s[|s| - 1]
  }

  /** Python's `max(s)`. */
  function MaxOf(s: seq<int>): (m: int)
    requires |s| > 0
    ensures m in s && forall i :: 0 <= i < |s| ==> s[i] <= m
  {
    if |s| == 1 then s[0]
    else
      var rest := MaxOf(s[1..]);
      assert forall i :: 1 <= i < |s| ==> s[i] == s[1..][i - 1];
      if s[0] >= rest then s[0] else rest
  }

  /** Python's `min(s)`. */
  function MinOf(s: seq<int>): (m: int)
    requires |s| > 0
    ensures m in s && forall i :: 0 <= i < |s| ==> m <= s[i]
  {
    if |s| == 1 then s[0]
    else
      var rest := MinOf(s[1..]);
      assert forall i :: 1 <= i < |s| ==> s[i] == s[1..][i - 1];
      if s[0] <= rest then s[0] else rest
  }

  /** `max(scores) - min(scores) > 10`. */
  predicate InConflict(scores: seq<int>)
    requires |scores| > 0
  {
    MaxOf(scores) - MinOf(scores) > ConflictThreshold
  }

  /** The conflict test holds exactly when some two judges' scores are
      more than the threshold apart. */
  lemma ConflictIffSomePairApart(scores: seq<int>)
    requires |scores| > 0
    ensures InConflict(scores)
        <==> exists i, j :: 0 <= i < |scores| && 0 <= j < |scores| && scores[i] - scores[j] > ConflictThreshold
  {
    if InConflict(scores) {
      var hi := MaxOf(scores);
      var lo := MinOf(scores);
      var i :| 0 <= i < |scores| && scores[i] == hi;
      var j :| 0 <= j < |scores| && scores[j] == lo;
      assert scores[i] - scores[j] > ConflictThreshold;
    }
  }

  /** Every element between `lo` and `hi` bounds the sum between
      `|s| * lo` and `|s| * hi`. */
  lemma {:induction false} SumBounds(s: seq<int>, lo: int, hi: int)
    requires forall i :: 0 <= i < |s| ==> lo <= s[i] <= hi
    ensures |s| * lo <= Sum(s) <= |s| * hi
  {
    if |s| > 0 {
      SumBounds(s[..|s| - 1], lo, hi);
    }
  }

  /** `sum(scores) / len(scores)` lies between `min(scores)` and `max(scores)`. */
  lemma MeanWithinRange(scores: seq<int>)
    requires |scores| > 0
    ensures |scores| * MinOf(scores) <= Sum(scores) <= |scores| * MaxOf(scores)
  {
    SumBounds(scores, MinOf(scores), MaxOf(scores));
  }

  /** The human's reply, stripped, must parse as an integer in 0..100;
      an integer outside that range and text that is no integer are told
      apart. */
  function CheckHumanReply(reply: string): (h: HumanCheck)
    ensures h.Accepted? ==> 0 <= h.score <= 100 && ParseInt(Strip(reply)) == Some(h.score)
    ensures h.OutOfRange? ==> !(0 <= h.score <= 100) && ParseInt(Strip(reply)) == Some(h.score)
    ensures h.NotAnInteger? <==> ParseInt(Strip(reply)).None?
    ensures h.NotAnInteger? ==> h.input == Strip(reply)
  {
    var text := Strip(reply);
    match ParseInt(text)
    case Some(v) => if 0 <= v <= 100 then Accepted(v) else OutOfRange(v)
    case None => NotAnInteger(text)
  }

  /** Every score in 0..100, written in decimal with any surrounding
      whitespace, is accepted as that score. */
  lemma HumanScoreAccepted(v: int, before: string, after: string)
    requires 0 <= v <= 100
    requires AllSpace(before) && AllSpace(after)
    ensures CheckHumanReply(before + FormatInt(v) + after) == Accepted(v)
  {
    var digits := FormatInt(v);
    var reply := before + digits + after;
    StripFramed(reply, before, digits, after);
    ParseFormat(v);
  }

  /** Steps 3 and 4 of the coordinator: no scores is a failure; otherwise a
      conflict goes to the human, whose reply decides, and agreement gives
      the mean of all scores, which lies between the lowest and highest. */
  function Resolve(scores: seq<int>, details: seq<AuditEntry>, humanReply: string): (o: Outcome)
    ensures |scores| == 0 ==> o == Failed(NoScores)
    ensures o.Consensus? <==> |scores| > 0 && !InConflict(scores)
    ensures o.Consensus? ==>
      && o.mean.count == |scores| && o.mean.total == Sum(scores)
      && o.mean.count * MinOf(scores) <= o.mean.total <= o.mean.count * MaxOf(scores)
    ensures o.Human? ==> |scores| > 0 && InConflict(scores) && 0 <= o.score <= 100
    ensures o.Consensus? || o.Human? ==> o.details == details
  {
    if |scores| == 0 then Failed(NoScores)
    else if InConflict(scores) then
      match CheckHumanReply(humanReply)
      case Accepted(v) => Human(v, details)
      case OutOfRange(v) => Failed(HumanOutOfRange(v))
      case NotAnInteger(t) => Failed(HumanNotAnInteger(t))
    else
      MeanWithinRange(scores);
      Consensus(Mean(Sum(scores), |scores|), details)
  }

  /** The human is consulted only on a conflict: without one, the outcome
      does not depend on what the human would reply. */
  lemma HumanOnlyOnConflict(scores: seq<int>, details: seq<AuditEntry>, h1: string, h2: string)
    requires |scores| == 0 || !InConflict(scores)
    ensures Resolve(scores, details, h1) == Resolve(scores, details, h2)
  {
  }

  /** On a conflict the human's stripped reply alone decides: a human
      verdict exactly when it reads as an integer in 0..100, with that
      integer as the score; an out-of-range integer fails citing the value;
      anything else fails citing the stripped text. No mean is computed. */
  lemma ConflictOutcome(scores: seq<int>, details: seq<AuditEntry>, humanReply: string)
    requires |scores| > 0 && InConflict(scores)
    ensures var o := Resolve(scores, details, humanReply);
      var parsed := ParseInt(Strip(humanReply));
      && !o.Consensus?
      && (o.Human? <==> parsed.Some? && 0 <= parsed.value <= 100)
      && (o.Human? ==> o.score == parsed.value && o.details == details)
      && (parsed.Some? && !(0 <= parsed.value <= 100) ==> o == Failed(HumanOutOfRange(parsed.value)))
      && (parsed.None? ==> o == Failed(HumanNotAnInteger(Strip(humanReply))))
  {
  }

  // ---------------------------------------------------------------------
  // The coordinator

  /** The coordinator after the judges' replies are in: an error while
      gathering aborts the run; otherwise the replies are parsed in order
      and the scores resolved. */
  method Coordinate(dispatch: Dispatch, humanReply: string) returns (o: Outcome)
    ensures dispatch.Raised? ==> o == Failed(DispatchFailed(dispatch.error))
    ensures dispatch.Gathered? ==>
      o == Resolve(Scores(dispatch.results), Audits(dispatch.results), humanReply)
    ensures dispatch.Gathered? && (o.Consensus? || o.Human?) ==> o.details == Audits(dispatch.results)
  {
    match dispatch
    case Raised(error) =>
      o := Failed(DispatchFailed(error));
    case Gathered(results) =>
      var scores, details := CollectScores(results);
      o := Resolve(scores, details, humanReply);
  }
}
