/** The coordinator's decision on concrete scores and replies:
    agreement, a spread of exactly ten, a conflict the human settles, and
    human replies that are out of range or not integers; and a reply
    without a score line. */
module Scenarios {
  import opened Wrappers
  import opened Strings
  import opened IntParse
  import opened Judging

  /** Scores 80, 85 and 82 are 5 apart: the result is their mean 247 / 3,
      whatever the human would say. */
  lemma ConsensusScenario(details: seq<AuditEntry>, humanReply: string)
    ensures Resolve([80, 85, 82], details, humanReply) == Consensus(Mean(247, 3), details)
  {
    assert MaxOf([80, 85, 82]) == 85 && MinOf([80, 85, 82]) == 80;
    assert [80, 85, 82][..2] == [80, 85] && [80, 85][..1] == [80];
    assert Sum([80, 85, 82]) == 247;
    assert !InConflict([80, 85, 82]);
  }

  /** A spread of exactly ten is not a conflict. */
  lemma SpreadOfTenScenario(details: seq<AuditEntry>, humanReply: string)
    ensures Resolve([80, 90, 85], details, humanReply) == Consensus(Mean(255, 3), details)
  {
    assert MaxOf([80, 90, 85]) == 90 && MinOf([80, 90, 85]) == 80;
    assert [80, 90, 85][..2] == [80, 90] && [80, 90][..1] == [80];
    assert Sum([80, 90, 85]) == 255;
    assert !InConflict([80, 90, 85]);
  }

  /** A human reply reading "88", once stripped, is accepted as 88. */
  lemma HumanAccepts88(humanReply: string)
    requires Strip(humanReply) == "88"
    ensures CheckHumanReply(humanReply) == Accepted(88)
  {
    assert DigitsValue("88") == DigitsValue("8") * 10 + 8;
  }

  /** Scores 90, 95 and 60 are 35 apart, so the human decides: "88" gives
      a human verdict of 88. */
  lemma HumanScenario(details: seq<AuditEntry>, humanReply: string)
    requires Strip(humanReply) == "88"
    ensures Resolve([90, 95, 60], details, humanReply) == Human(88, details)
  {
    HumanAccepts88(humanReply);
  }

  /** A human reply reading "150" is an integer, but out of range. */
  lemma HumanRejects150(humanReply: string)
    requires Strip(humanReply) == "150"
    ensures CheckHumanReply(humanReply) == OutOfRange(150)
  {
    assert DigitsValue("15") == DigitsValue("1") * 10 + 5;
    assert DigitsValue("150") == DigitsValue("15") * 10 + 0;
  }

  /** With the same conflict, "150" makes the run fail, citing the value. */
  lemma OutOfRangeScenario(details: seq<AuditEntry>, humanReply: string)
    requires Strip(humanReply) == "150"
    ensures Resolve([90, 95, 60], details, humanReply) == Failed(HumanOutOfRange(150))
  {
    HumanRejects150(humanReply);
  }

  /** A human reply reading "8.5" is not an integer. */
  lemma HumanRejectsFraction(humanReply: string)
    requires Strip(humanReply) == "8.5"
    ensures CheckHumanReply(humanReply) == NotAnInteger("8.5")
  {
    assert !IsDigit("8.5"[1]);
  }

  /** With the same conflict, "8.5" makes the run fail as not an integer. */
  lemma NotAnIntegerScenario(details: seq<AuditEntry>, humanReply: string)
    requires Strip(humanReply) == "8.5"
    ensures Resolve([90, 95, 60], details, humanReply) == Failed(HumanNotAnInteger("8.5"))
  {
    HumanRejectsFraction(humanReply);
  }

  /** A reply giving only a reason line has no score line. */
  lemma ReasonOnlyHasNoScoreLine(reason: string)
    requires ':' !in reason
    ensures !Contains(ReasonMarker + " " + reason, ScoreMarker)
  {
    var text := ReasonMarker + " " + reason;
    forall k | 0 <= k <= |text| - |ScoreMarker|
      ensures !OccursAt(text, ScoreMarker, k)
    {
      if k == 0 {
        assert text[k..k + 3][0] == text[0] == '理';
      } else if k == 1 {
        assert text[k..k + 3][2] == text[3] == ' ';
      } else {
        assert text[k..k + 3][2] == text[k + 2] == reason[k - 2];
      }
    }
  }

  /** A reply that gives only a reason counts as 50 with a format-error
      entry. */
  lemma MissingScoreScenario(name: string, reason: string)
    requires ':' !in reason && '\n' !in reason
    ensures ParseReply(JudgeReply(name, Some(ReasonMarker + " " + reason)))
      == ParsedReply(DefaultScore, FormatError(name))
  {
    var text := ReasonMarker + " " + reason;
    ReasonOnlyHasNoScoreLine(reason);
    assert '\n' !in text;
    assert Lines(text) == [text];
    NoScoreLine(JudgeReply(name, Some(text)));
  }
}
