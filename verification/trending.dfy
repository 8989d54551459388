/** The trending score of a question (`trending_score`) and the one place
    it is stored, `Question.save` on first save.

    The score is a recency bucket plus a sentiment adjustment. The bucket
    is chosen from `timedelta.seconds`, the within-day part of the elapsed
    time, so as written it is always the first bucket. `IntendedScore`
    chooses it from the total elapsed seconds instead. Scores are `real`:
    the exact values that Python's float arithmetic approximates. */
module Trending {
  import opened Wrappers
  import opened Polls
  import opened Sentiment

  const ThreeDays: int := 259200
  const SevenDays: int := 604800
  const ThirtyDays: int := 2592000

  /** `timedelta.seconds` of a duration of `elapsed` whole seconds: the part
      left over after whole days, in `[0, 86400)`, for negative durations too. */
  function TimedeltaSeconds(elapsed: int): (s: int)
    ensures 0 <= s < SecondsPerDay
    ensures (elapsed - s) % SecondsPerDay == 0
  {
    elapsed % SecondsPerDay
  }

  /** The recency bucket of `trending_score` for a number of seconds:
      100 below three days, 75 from three to seven days, 50 from seven to
      thirty days, and 25 from thirty days on. */
  function RecencyBase(seconds: int): (b: int)
    ensures b == 100 <==> seconds < ThreeDays
    ensures b >= 75 <==> seconds < SevenDays
    ensures b >= 50 <==> seconds < ThirtyDays
    ensures ThreeDays <= seconds < SevenDays ==> b == 75
    ensures SevenDays <= seconds < ThirtyDays ==> b == 50
    ensures b == 25 <==> seconds >= ThirtyDays
  {
    if seconds < ThreeDays then 100
    else if seconds < SevenDays then 75
    else if seconds < ThirtyDays then 50
    else 25
  }

  /** Older never ranks higher: the bucket does not grow with the seconds. */
  lemma RecencyBaseAntitone(s1: int, s2: int)
    requires s1 <= s2
    ensures RecencyBase(s2) <= RecencyBase(s1)
    ensures 25 <= RecencyBase(s2) <= 100
  {
  }

  /** `((up / 5) - (down / 5)) * 100`, Python true division. */
  function SentimentAdjustment(up: int, down: int): (a: real)
    ensures a == 20.0 * (up - down) as real
  {
    ((up as real / 5.0) - (down as real / 5.0)) * 100.0
  }

  /** `trending_score` for explicit counts, as written: the bucket comes from
      the within-day seconds, which are always below three days, so the base
      is always 100 and the score depends on the counts alone. There is no
      clamp: the score exceeds 200 or drops below 0 with enough votes. */
  function ScoreAsWritten(pubDate: Time, now: Time, up: int, down: int): (score: real)
    ensures score == 100.0 + 20.0 * (up - down) as real
  {
    RecencyBase(TimedeltaSeconds(now - pubDate)) as real + SentimentAdjustment(up, down)
  }

  /** The score as the bucket thresholds evidently mean it: the bucket comes
      from the total number of seconds since publication. */
  function IntendedScore(pubDate: Time, now: Time, up: int, down: int): (score: real)
    ensures score == RecencyBase(now - pubDate) as real + 20.0 * (up - down) as real
    ensures now - pubDate < ThreeDays ==> score == ScoreAsWritten(pubDate, now, up, down)
  {
    RecencyBase(now - pubDate) as real + SentimentAdjustment(up, down)
  }

  /** With the counts fixed, the intended score never rises as a question
      ages, and it drops across each bucket boundary. */
  lemma IntendedScoreAges(pubDate: Time, now1: Time, now2: Time, up: int, down: int)
    requires now1 <= now2
    ensures IntendedScore(pubDate, now2, up, down) <= IntendedScore(pubDate, now1, up, down)
    ensures now2 - pubDate >= ThreeDays > now1 - pubDate ==>
      IntendedScore(pubDate, now2, up, down) < IntendedScore(pubDate, now1, up, down)
  {
    RecencyBaseAntitone(now1 - pubDate, now2 - pubDate);
  }

  /** The as-written score ignores age: a question published ten days ago
      scores like a new one, where the intended bucket gives it 50. */
  lemma TenDayOldScoresAsNew()
    ensures ScoreAsWritten(0, 10 * SecondsPerDay, 0, 0) == 100.0
    ensures IntendedScore(0, 10 * SecondsPerDay, 0, 0) == 50.0
  {
  }

  /** Both scores rise by 20 for each extra up vote and fall by 20 for each
      extra down vote. */
  lemma ScoreMonotoneInVotes(pubDate: Time, now: Time, up1: int, up2: int, down1: int, down2: int)
    requires up1 <= up2 && down2 <= down1
    ensures ScoreAsWritten(pubDate, now, up1, down1) <= ScoreAsWritten(pubDate, now, up2, down2)
    ensures up1 < up2 ==> ScoreAsWritten(pubDate, now, up1, down1) < ScoreAsWritten(pubDate, now, up2, down2)
    ensures IntendedScore(pubDate, now, up1, down1) <= IntendedScore(pubDate, now, up2, down2)
    ensures up1 < up2 ==> IntendedScore(pubDate, now, up1, down1) < IntendedScore(pubDate, now, up2, down2)
  {
  }

  /** Exceptions `trending_score` and its callers can raise. */
  datatype ScoreError =
    | ValueError  // the question has no primary key yet, so its vote set cannot be read
    | TypeError   // exactly one of `up` and `down` was given: `None / 5`

  /** `trending_score(up, down)`. With both arguments omitted the counts are
      read from the question's sentiment rows, which raises `ValueError`
      while the question has no primary key (`hasKey` false). */
  function TrendingScore(q: Question, hasKey: bool, t: seq<SentimentVote>, now: Time,
                         up: Option<int>, down: Option<int>): (r: Result<real, ScoreError>)
    ensures up.Some? && down.Some? ==>
      r == Success(100.0 + 20.0 * (up.value - down.value) as real)
    ensures up.None? && down.None? && hasKey ==>
      r == Success(100.0 + 20.0 * (UpVoteCount(t, q.id) - DownVoteCount(t, q.id)) as real)
    ensures up.None? && down.None? && !hasKey ==> r == Failure(ValueError)
    ensures up.Some? != down.Some? ==> r == Failure(TypeError)
  {
    if up.None? && down.None? then
      if hasKey then Success(ScoreAsWritten(q.pubDate, now, UpVoteCount(t, q.id), DownVoteCount(t, q.id)))
      else Failure(ValueError)
    else if up.Some? && down.Some? then
      Success(ScoreAsWritten(q.pubDate, now, up.value, down.value))
    else
      Failure(TypeError)
  }

  /** `Question.save`: on the first save (`adding`) the trend score is
      computed from the question's own counts, falling back to zero counts
      when reading them raises `ValueError`; later saves change nothing.
      Only the trend score is touched. */
  function Save(q: Question, adding: bool, hasKey: bool, t: seq<SentimentVote>, now: Time): (r: Question)
    ensures !adding ==> r == q
    ensures adding && !hasKey ==> r == q.(trendScore := 100.0)
    ensures adding && hasKey ==>
      r == q.(trendScore := 100.0 + 20.0 * (UpVoteCount(t, q.id) - DownVoteCount(t, q.id)) as real)
  {
    if adding then
      var score := TrendingScore(q, hasKey, t, now, None, None);
      if score.Success? then q.(trendScore := score.value)
      else q.(trendScore := TrendingScore(q, hasKey, t, now, Some(0), Some(0)).value)
    else q
  }

  /** A question saved for the first time before it has a key, as `create`
      does, starts with a trend score of exactly 100, whatever its age. */
  lemma NewQuestionScoresHundred(q: Question, t: seq<SentimentVote>, now: Time)
    ensures Save(q, true, false, t, now).trendScore == 100.0
  {
  }
}
