/** The records of the polls app (`Tag`, `Question`, `Choice`, `Vote`,
    `SentimentVote`) and the time-based rules a `Question` answers about
    itself: whether it is published, whether it can be voted on, whether it
    was published recently, how much time it has left, and its tag line.

    Timestamps are whole seconds on one clock; the current time `now` is an
    explicit parameter wherever the app reads the clock. */
module Polls {
  import opened Wrappers
  import opened Text

  /** A point in time, in seconds. */
  type Time = int

  type QuestionId = nat
  type ChoiceId = nat
  type UserId = nat

  const SecondsPerMinute: int := 60
  const SecondsPerHour: int := 3600
  const SecondsPerDay: int := 86400

  datatype Tag = Tag(text: string)

  /** A poll question. `endDate` is optional; `trendScore` is the score cached
      when the question is first saved. */
  datatype Question = Question(
    id: QuestionId,
    text: string,
    pubDate: Time,
    endDate: Option<Time>,
    shortDescription: string,
    longDescription: string,
    trendScore: real,
    tags: seq<Tag>)

  /** A choice of one question. Its vote count is not stored: it is the
      number of `Vote` rows that point at it. */
  datatype Choice = Choice(id: ChoiceId, question: QuestionId, text: string)

  /** A `Vote` row: `user` picked `choice` in `question`. */
  datatype Vote = Vote(choice: ChoiceId, user: UserId, question: QuestionId)

  /** A `SentimentVote` row; `up` is the `vote_types` column
      (true = upvote / like, false = downvote / dislike). */
  datatype SentimentVote = SentimentVote(user: UserId, question: QuestionId, up: bool)

  /** The question with primary key `id` (`get_object_or_404(Question, pk=id)`
      and the detail view's object lookup), or `None` (`Http404`). */
  function QuestionById(questions: seq<Question>, id: QuestionId): (r: Option<Question>)
    ensures r.Some? <==> exists i :: 0 <= i < |questions| && questions[i].id == id
    ensures r.Some? ==> r.value in questions && r.value.id == id
  {
    if |questions| == 0 then None
    else if questions[0].id == id then Some(questions[0])
    else
      var r := QuestionById(questions[1..], id);
      assert forall i :: 0 < i < |questions| ==> questions[i] == questions[1..][i - 1];
      r
  }

  /* ---------------------------------------------------------------------- */
  /* Publication window                                                     */
  /* ---------------------------------------------------------------------- */

  /** `is_published`: the publication date has been reached. */
  predicate IsPublished(q: Question, now: Time)
    ensures IsPublished(q, now) <==> Decompose(now - q.pubDate).days >= 0
  {
    now >= q.pubDate
  }

  /** `can_vote`: published, and not past the end date when there is one.
      Both ends of the window are inclusive. */
  function CanVote(q: Question, now: Time): (r: bool)
    ensures r ==> IsPublished(q, now)
    ensures q.endDate.Some? && q.endDate.value < q.pubDate ==> !r
  {
    match q.endDate
    case None => q.pubDate <= now
    case Some(e) => q.pubDate <= now <= e
  }

  /** `was_published_recently`: published no more than one day ago. */
  function WasPublishedRecently(q: Question, now: Time): (r: bool)
    ensures r <==> 0 <= now - q.pubDate <= SecondsPerDay
    ensures r ==> IsPublished(q, now)
  {
    now - SecondsPerDay <= q.pubDate <= now
  }

  /** Voting is open exactly on the closed interval from the publication
      date to the end date (or for ever after publication when there is no
      end date). */
  lemma CanVoteWindow(q: Question, now: Time)
    ensures CanVote(q, now) <==>
      q.pubDate <= now && (q.endDate.None? || now <= q.endDate.value)
  {
  }

  /** The set of moments at which a question can be voted on has no holes. */
  lemma CanVoteBetween(q: Question, t1: Time, t: Time, t2: Time)
    requires t1 <= t <= t2
    requires CanVote(q, t1) && CanVote(q, t2)
    ensures CanVote(q, t)
  {
  }

  /** Publication is permanent: once published, a question stays published,
      and once a question with an end date is closed it stays closed. */
  lemma PublicationIsMonotone(q: Question, t1: Time, t2: Time)
    requires t1 <= t2
    ensures IsPublished(q, t1) ==> IsPublished(q, t2)
    ensures q.endDate.Some? && !CanVote(q, t1) && IsPublished(q, t1) ==> !CanVote(q, t2)
  {
  }

  /* ---------------------------------------------------------------------- */
  /* Time left                                                              */
  /* ---------------------------------------------------------------------- */

  /** A signed number of seconds split into days, hours, minutes, seconds. */
  datatype Remaining = Remaining(days: int, hours: int, minutes: int, seconds: int)

  /** The `divmod` chain of `calculate_time_left`. Python's `divmod` rounds
      the quotient down, which for positive divisors is what Dafny's `/` and
      `%` do, so a negative total gives negative days and non-negative
      hours, minutes and seconds. */
  function Decompose(total: int): (r: Remaining)
    ensures r.days * SecondsPerDay + r.hours * SecondsPerHour
      + r.minutes * SecondsPerMinute + r.seconds == total
    ensures 0 <= r.hours < 24 && 0 <= r.minutes < 60 && 0 <= r.seconds < 60
  {
    var inDay := total % SecondsPerDay;
    var inHour := inDay % SecondsPerHour;
    Remaining(total / SecondsPerDay, inDay / SecondsPerHour,
              inHour / SecondsPerMinute, inHour % SecondsPerMinute)
  }

  /** The decomposition is the only one with hours, minutes and seconds in
      range: it is floor division, unit by unit. */
  lemma DecomposeUnique(total: int, r: Remaining)
    requires r.days * SecondsPerDay + r.hours * SecondsPerHour
      + r.minutes * SecondsPerMinute + r.seconds == total
    requires 0 <= r.hours < 24 && 0 <= r.minutes < 60 && 0 <= r.seconds < 60
    ensures r == Decompose(total)
  {
    var inHour := r.minutes * SecondsPerMinute + r.seconds;
    var inDay := r.hours * SecondsPerHour + inHour;
    FloorDivUnique(total, SecondsPerDay, r.days, inDay);
    FloorDivUnique(inDay, SecondsPerHour, r.hours, inHour);
    FloorDivUnique(inHour, SecondsPerMinute, r.minutes, r.seconds);
  }

  /** Floor division is the only split of `a` into a multiple of `n` and a
      remainder in `[0, n)`. */
  lemma FloorDivUnique(a: int, n: int, q: int, rem: int)
    requires n > 0 && 0 <= rem < n && a == q * n + rem
    ensures q == a / n && rem == a % n
  {
    var q', rem' := a / n, a % n;
    assert a == q' * n + rem';
    var k := q - q';
    assert k * n == rem' - rem by {
      assert q * n - q' * n == (q - q') * n;
    }
    NonZeroMultiple(k, n);
  }

  /** A non-zero multiple of `n` is at least `n` away from zero. */
  lemma NonZeroMultiple(k: int, n: int)
    requires n > 0
    ensures k >= 1 ==> k * n >= n
    ensures k <= -1 ==> k * n <= -n
  {
    if k >= 1 {
      assert k * n == (k - 1) * n + n;
      MulNonNegative(k - 1, n);
    } else if k <= -1 {
      assert k * n == -((-k - 1) * n) - n;
      MulNonNegative(-k - 1, n);
    }
  }

  lemma MulNonNegative(x: int, y: int)
    requires x >= 0 && y >= 0
    ensures x * y >= 0
  {
  }

  /** `"<n> <unit>"`, the text one unit of time is reported as. */
  function Amount(n: nat, unit: string): string
  {
    NatToString(n) + " " + unit
  }

  /** The text `calculate_time_left` builds for a signed number of seconds
      left: the largest positive unit of the decomposition, followed by a
      space, then stripped. */
  function TimeLeftText(total: int): string
  {
    Render(Decompose(total))
  }

  /** The largest positive unit of a decomposition followed by a space,
      then stripped; empty when no unit is positive. */
  function Render(d: Remaining): string
  {
    Strip(LargestUnit(d))
  }

  /** The largest positive unit of a decomposition followed by a space, or
      the empty string. */
  function LargestUnit(d: Remaining): string
  {
    if d.days > 0 then Amount(d.days, "Days") + " "
    else if d.hours > 0 then Amount(d.hours, "Hours") + " "
    else if d.minutes > 0 then Amount(d.minutes, "Mins") + " "
    else if d.seconds > 0 then Amount(d.seconds, "Sec") + " "
    else ""
  }

  /** Stripping the trailing space off `"<n> <unit> "` gives `"<n> <unit>"`. */
  lemma StripAmount(n: nat, unit: string)
    requires |unit| > 0 && !IsSpace(unit[|unit| - 1])
    ensures Strip(Amount(n, unit) + " ") == Amount(n, unit)
  {
    var a := Amount(n, unit);
    assert a[0] == NatToString(n)[0];
    assert a[|a| - 1] == unit[|unit| - 1];
    StripOneTrailingSpace(a);
  }

  /** The unit `calculate_time_left` reports, read off the decomposition:
      the largest positive one, or none. */
  lemma TimeLeftOfDecomposition(total: int)
    ensures var d := Decompose(total);
      && (d.days > 0 ==> TimeLeftText(total) == Amount(d.days, "Days"))
      && (d.days <= 0 && d.hours > 0 ==> TimeLeftText(total) == Amount(d.hours, "Hours"))
      && (d.days <= 0 && d.hours == 0 && d.minutes > 0 ==>
            TimeLeftText(total) == Amount(d.minutes, "Mins"))
      && (d.days <= 0 && d.hours == 0 && d.minutes == 0 && d.seconds > 0 ==>
            TimeLeftText(total) == Amount(d.seconds, "Sec"))
      && (d.days <= 0 && d.hours == 0 && d.minutes == 0 && d.seconds == 0 ==>
            TimeLeftText(total) == "")
  {
    RenderLargestUnit(Decompose(total));
  }

  /** The rendering of any decomposition names its largest positive unit. */
  lemma RenderLargestUnit(d: Remaining)
    ensures d.days > 0 ==> Render(d) == Amount(d.days, "Days")
    ensures d.days <= 0 && d.hours > 0 ==> Render(d) == Amount(d.hours, "Hours")
    ensures d.days <= 0 && d.hours == 0 && d.minutes > 0 ==> Render(d) == Amount(d.minutes, "Mins")
    ensures d.days <= 0 && d.hours == 0 && d.minutes == 0 && d.seconds > 0 ==>
      Render(d) == Amount(d.seconds, "Sec")
    ensures d.days <= 0 && d.hours == 0 && d.minutes == 0 && d.seconds == 0 ==> Render(d) == ""
  {
    if d.days > 0 {
      StripAmount(d.days, "Days");
    } else if d.hours > 0 {
      StripAmount(d.hours, "Hours");
    } else if d.minutes > 0 {
      StripAmount(d.minutes, "Mins");
    } else if d.seconds > 0 {
      StripAmount(d.seconds, "Sec");
    }
  }

  /** How the fields of the decomposition follow from the total: days are
      positive exactly from one day on, and below one day the other fields
      come from the position within the day. */
  lemma DecomposeFields(total: int)
    ensures Decompose(total).days > 0 <==> total >= SecondsPerDay
    ensures Decompose(total).days == total / SecondsPerDay
    ensures Decompose(total).hours == total % SecondsPerDay / SecondsPerHour
    ensures Decompose(total).minutes == total % SecondsPerDay % SecondsPerHour / SecondsPerMinute
    ensures Decompose(total).seconds == total % SecondsPerDay % SecondsPerHour % SecondsPerMinute
  {
  }

  /** The time-left text names exactly one unit, the largest one the floor
      decomposition makes positive. A total of a day or more is reported in
      days; any shorter total, including a negative one, is reported by its
      position within the day, `total % 86400`. */
  lemma TimeLeftLargestUnit(total: int)
    ensures total >= SecondsPerDay ==>
      TimeLeftText(total) == Amount(total / SecondsPerDay, "Days")
    ensures total < SecondsPerDay && total % SecondsPerDay >= SecondsPerHour ==>
      TimeLeftText(total) == Amount(total % SecondsPerDay / SecondsPerHour, "Hours")
    ensures total < SecondsPerDay && SecondsPerMinute <= total % SecondsPerDay < SecondsPerHour ==>
      TimeLeftText(total) == Amount(total % SecondsPerDay / SecondsPerMinute, "Mins")
    ensures total < SecondsPerDay && 0 < total % SecondsPerDay < SecondsPerMinute ==>
      TimeLeftText(total) == Amount(total % SecondsPerDay, "Sec")
    ensures total < SecondsPerDay && total % SecondsPerDay == 0 ==>
      TimeLeftText(total) == ""
  {
    var inDay := total % SecondsPerDay;
    if total >= SecondsPerDay {
      TimeLeftDays(total);
    } else if inDay >= SecondsPerHour {
      TimeLeftHours(total);
    } else if inDay >= SecondsPerMinute {
      TimeLeftMinutes(total);
    } else if inDay > 0 {
      TimeLeftSeconds(total);
    } else {
      TimeLeftEmpty(total);
    }
  }

  /** Below one day, with at least an hour into the day: whole hours. */
  lemma TimeLeftHours(total: int)
    requires total < SecondsPerDay && total % SecondsPerDay >= SecondsPerHour
    ensures TimeLeftText(total) == Amount(total % SecondsPerDay / SecondsPerHour, "Hours")
  {
    DecomposeFields(total);
    StripAmount(total % SecondsPerDay / SecondsPerHour, "Hours");
  }

  /** Below one day, between a minute and an hour into the day: whole minutes. */
  lemma TimeLeftMinutes(total: int)
    requires total < SecondsPerDay && SecondsPerMinute <= total % SecondsPerDay < SecondsPerHour
    ensures TimeLeftText(total) == Amount(total % SecondsPerDay / SecondsPerMinute, "Mins")
  {
    var inDay := total % SecondsPerDay;
    DecomposeFields(total);
    assert inDay % SecondsPerHour == inDay;
    StripAmount(inDay / SecondsPerMinute, "Mins");
  }

  /** Below one day, less than a minute into the day: seconds. */
  lemma TimeLeftSeconds(total: int)
    requires total < SecondsPerDay && 0 < total % SecondsPerDay < SecondsPerMinute
    ensures TimeLeftText(total) == Amount(total % SecondsPerDay, "Sec")
  {
    var inDay := total % SecondsPerDay;
    DecomposeFields(total);
    assert inDay % SecondsPerHour % SecondsPerMinute == inDay;
    StripAmount(inDay, "Sec");
  }

  /** A total of at least one day is reported in whole days. */
  lemma TimeLeftDays(total: int)
    requires total >= SecondsPerDay
    ensures TimeLeftText(total) == Amount(total / SecondsPerDay, "Days")
  {
    DecomposeFields(total);
    StripAmount(total / SecondsPerDay, "Days");
  }

  /** Without a positive number of days, the text depends only on the
      hours, minutes and seconds. */
  lemma RenderBelowDay(d1: Remaining, d2: Remaining)
    requires d1.days <= 0 && d2.days <= 0
    requires d1.hours == d2.hours && d1.minutes == d2.minutes && d1.seconds == d2.seconds
    ensures Render(d1) == Render(d2)
  {
    var z := Remaining(0, d1.hours, d1.minutes, d1.seconds);
    assert LargestUnit(d1) == LargestUnit(z) by { LargestUnitBelowDay(d1); }
    assert LargestUnit(d2) == LargestUnit(z) by { LargestUnitBelowDay(d2); }
  }

  lemma LargestUnitBelowDay(d: Remaining)
    requires d.days <= 0
    ensures LargestUnit(d) == LargestUnit(Remaining(0, d.hours, d.minutes, d.seconds))
  {
  }

  /** The time-left text is empty exactly when the total is a whole number
      of days that is zero or negative. */
  lemma TimeLeftEmpty(total: int)
    ensures TimeLeftText(total) == "" <==> total <= 0 && total % SecondsPerDay == 0
  {
    var d := Decompose(total);
    RenderEmpty(d);
    DecomposeFields(total);
    assert total % SecondsPerDay == d.hours * SecondsPerHour + d.minutes * SecondsPerMinute + d.seconds;
  }

  /** A decomposition renders to nothing exactly when no unit is positive. */
  lemma RenderEmpty(d: Remaining)
    requires 0 <= d.hours && 0 <= d.minutes && 0 <= d.seconds
    ensures Render(d) == "" <==> d.days <= 0 && d.hours == 0 && d.minutes == 0 && d.seconds == 0
  {
    if d.days > 0 {
      StripAmount(d.days, "Days");
    } else if d.hours > 0 {
      StripAmount(d.hours, "Hours");
    } else if d.minutes > 0 {
      StripAmount(d.minutes, "Mins");
    } else if d.seconds > 0 {
      StripAmount(d.seconds, "Sec");
    }
  }

  /** `calculate_time_left`: "No end date" without an end date, otherwise
      the text for the seconds between now and the end date. The text is
      empty exactly when the end date lies a whole number of days (zero
      included) in the past or present. */
  function CalculateTimeLeft(q: Question, now: Time): (r: string)
    ensures q.endDate.None? ==> r == "No end date"
    ensures q.endDate.Some? ==> DescribesTimeLeft(q.endDate.value - now, r)
  {
    if q.endDate.None? then "No end date"
    else TimeLeftOf(q.endDate.value - now)
  }

  /** The time-left text for `total` seconds, with what it promises. */
  function TimeLeftOf(total: int): (r: string)
    ensures DescribesTimeLeft(total, r)
  {
    TimeLeftFacts(total);
    TimeLeftText(total)
  }

  /** What the text for `total` seconds left promises: it is empty exactly
      when the total is a whole number of days, zero or negative; otherwise
      it names the largest positive unit, whole days from one day on and,
      below one day, the hours, minutes or seconds of the position within
      the day. */
  predicate DescribesTimeLeft(total: int, text: string) {
    var inDay := total % SecondsPerDay;
    && (text == "" <==> total <= 0 && inDay == 0)
    && (total >= SecondsPerDay ==> text == Amount(total / SecondsPerDay, "Days"))
    && (total < SecondsPerDay && inDay >= SecondsPerHour ==>
          text == Amount(inDay / SecondsPerHour, "Hours"))
    && (total < SecondsPerDay && SecondsPerMinute <= inDay < SecondsPerHour ==>
          text == Amount(inDay / SecondsPerMinute, "Mins"))
    && (total < SecondsPerDay && 0 < inDay < SecondsPerMinute ==>
          text == Amount(inDay, "Sec"))
  }

  lemma TimeLeftFacts(total: int)
    ensures DescribesTimeLeft(total, TimeLeftText(total))
  {
    TimeLeftEmpty(total);
    TimeLeftLargestUnit(total);
  }

  /** A past end date (a negative total) reads like the same clock time
      within the next day: only the position of `end - now` within the day
      matters, so a closed poll never shows days and may show hours left. */
  lemma PastEndReadsAsTimeOfDay(total: int)
    requires total < 0
    ensures TimeLeftText(total) == TimeLeftText(total % SecondsPerDay)
  {
    var shifted := total % SecondsPerDay;
    assert 0 <= shifted < SecondsPerDay;
    assert shifted % SecondsPerDay == shifted;
    DecomposeFields(total);
    DecomposeFields(shifted);
    RenderBelowDay(Decompose(total), Decompose(shifted));
  }

  /* ---------------------------------------------------------------------- */
  /* Tags                                                                   */
  /* ---------------------------------------------------------------------- */

  function TagTexts(tags: seq<Tag>): (texts: seq<string>)
    ensures |texts| == |tags|
    ensures forall i :: 0 <= i < |tags| ==> texts[i] == tags[i].text
  {
    seq(|tags|, i requires 0 <= i < |tags| => tags[i].text)
  }

  /** `get_tags`: the tag texts joined by "-", whatever characters they
      hold. A question without tags has an empty tag line; the tag line of
      dash-free tags splits on "-" back into exactly the tag texts, in
      order. */
  function GetTags(q: Question): (r: string)
    ensures r == Join('-', TagTexts(q.tags))
    ensures |q.tags| == 0 ==> r == ""
    ensures |q.tags| >= 1 && (forall i :: 0 <= i < |q.tags| ==> '-' !in q.tags[i].text) ==>
      Split(r, '-') == TagTexts(q.tags)
  {
    var texts := TagTexts(q.tags);
    assert |texts| >= 1 && (forall i :: 0 <= i < |q.tags| ==> '-' !in q.tags[i].text) ==>
      Split(Join('-', texts), '-') == texts by {
      if |texts| >= 1 && (forall i :: 0 <= i < |q.tags| ==> '-' !in q.tags[i].text) {
        SplitJoin('-', texts);
      }
    }
    Join('-', texts)
  }
}
