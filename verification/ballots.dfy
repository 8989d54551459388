/** The `Vote` table (which choice each user picked in each question), the
    counts derived from it (`Choice.votes`, `Question.participants`), and
    the `vote` view that turns a form submission into a change of the table.

    Like the sentiment table, the vote table is a sequence of rows; one row
    per (user, question) is the predicate `OneVotePerQuestion`. */
module Ballots {
  import opened Wrappers
  import opened Polls

  /* ---------------------------------------------------------------------- */
  /* The table and its counts                                               */
  /* ---------------------------------------------------------------------- */

  predicate IsVoteOf(v: Vote, u: UserId, q: QuestionId) {
    v.user == u && v.question == q
  }

  /** At most one `Vote` row per (user, question). */
  predicate OneVotePerQuestion(votes: seq<Vote>) {
    forall i, j :: 0 <= i < j < |votes| ==>
      votes[i].user != votes[j].user || votes[i].question != votes[j].question
  }

  /** The choice user `u` currently has in question `q`, if any (the
      choice of the last matching row; with one row per pair, the only one). */
  function VotedChoice(votes: seq<Vote>, u: UserId, q: QuestionId): (c: Option<ChoiceId>)
    ensures c.Some? <==> exists i :: 0 <= i < |votes| && IsVoteOf(votes[i], u, q)
    ensures c.Some? ==> Vote(c.value, u, q) in votes
    decreases |votes|
  {
    if |votes| == 0 then None
    else
      var last := votes[|votes| - 1];
      var p := votes[..|votes| - 1];
      assert forall i :: 0 <= i < |p| ==> p[i] == votes[i];
      if IsVoteOf(last, u, q) then Some(last.choice) else VotedChoice(p, u, q)
  }

  /** `Choice.votes`: the number of rows pointing at choice `c`. */
  function ChoiceVotes(votes: seq<Vote>, c: ChoiceId): (n: nat)
    ensures n == |RowsWhere(votes, ChoiceIs(c))|
    decreases |votes|
  {
    if |votes| == 0 then 0
    else
      var p, last := votes[..|votes| - 1], votes[|votes| - 1];
      assert votes == p + [last];
      RowsWhereSnoc(p, last, ChoiceIs(c));
      ChoiceVotes(p, c) + (if last.choice == c then 1 else 0)
  }

  /** `Question.participants`: the number of rows of question `q`. */
  function Participants(votes: seq<Vote>, q: QuestionId): (n: nat)
    ensures n == |RowsWhere(votes, QuestionIs(q))|
    decreases |votes|
  {
    if |votes| == 0 then 0
    else
      var p, last := votes[..|votes| - 1], votes[|votes| - 1];
      assert votes == p + [last];
      RowsWhereSnoc(p, last, QuestionIs(q));
      Participants(p, q) + (if last.question == q then 1 else 0)
  }

  /** The two columns the counts select rows by. */
  datatype Column = ChoiceIs(choice: ChoiceId) | QuestionIs(question: QuestionId)

  predicate Selects(col: Column, v: Vote) {
    match col
    case ChoiceIs(c) => v.choice == c
    case QuestionIs(q) => v.question == q
  }

  /** The positions of the rows `col` selects (`vote_set` of a choice or a
      question). */
  function RowsWhere(votes: seq<Vote>, col: Column): set<int> {
    set i | 0 <= i < |votes| && Selects(col, votes[i])
  }

  lemma RowsWhereSnoc(p: seq<Vote>, last: Vote, col: Column)
    ensures |RowsWhere(p + [last], col)| == |RowsWhere(p, col)| + (if Selects(col, last) then 1 else 0)
  {
    RowsWhereAppend(p, last, col);
    if Selects(col, last) {
      assert |p| !in RowsWhere(p, col);
    }
  }

  lemma RowsWhereAppend(p: seq<Vote>, last: Vote, col: Column)
    ensures RowsWhere(p + [last], col) == RowsWhere(p, col) + (if Selects(col, last) then {|p|} else {})
  {
    var t := p + [last];
    assert forall i :: 0 <= i < |p| ==> t[i] == p[i];
    assert t[|p|] == last;
  }

  /** The users who have a vote in question `q`. */
  function VotersOf(votes: seq<Vote>, q: QuestionId): set<UserId>
  {
    set i | 0 <= i < |votes| && votes[i].question == q :: votes[i].user
  }

  lemma OneVotePrefix(votes: seq<Vote>)
    requires |votes| > 0 && OneVotePerQuestion(votes)
    ensures OneVotePerQuestion(votes[..|votes| - 1])
    ensures VotedChoice(votes[..|votes| - 1], votes[|votes| - 1].user, votes[|votes| - 1].question).None?
  {
  }

  /** With one row per pair, the participants of a question are its
      distinct voters: every voter is counted once. */
  lemma {:induction false} ParticipantsAreVoters(votes: seq<Vote>, q: QuestionId)
    requires OneVotePerQuestion(votes)
    ensures Participants(votes, q) == |VotersOf(votes, q)|
    decreases |votes|
  {
    if |votes| > 0 {
      var p := votes[..|votes| - 1];
      var last := votes[|votes| - 1];
      assert Participants(p, q) == |VotersOf(p, q)| by {
        OneVotePrefix(votes);
        ParticipantsAreVoters(p, q);
      }
      assert Participants(votes, q) == Participants(p, q) + (if last.question == q then 1 else 0);
      assert |VotersOf(votes, q)| == |VotersOf(p, q)| + (if last.question == q then 1 else 0) by {
        assert votes == p + [last];
        VotersOfSnoc(p, last, q);
        OneVotePrefix(votes);
        assert last.question == q ==> last.user !in VotersOf(p, q);
      }
    }
  }

  lemma VotersOfSnoc(p: seq<Vote>, last: Vote, q: QuestionId)
    ensures VotersOf(p + [last], q) == VotersOf(p, q) + (if last.question == q then {last.user} else {})
  {
    var votes := p + [last];
    assert forall i :: 0 <= i < |p| ==> votes[i] == p[i];
    assert votes[|p|] == last;
  }

  /* ---------------------------------------------------------------------- */
  /* Casting a vote                                                         */
  /* ---------------------------------------------------------------------- */

  /** Every row of the pair (u, q) re-pointed at choice `c`; every other
      row kept as it is. */
  function Repoint(votes: seq<Vote>, u: UserId, q: QuestionId, c: ChoiceId): (r: seq<Vote>)
    ensures |r| == |votes|
    ensures forall i :: 0 <= i < |votes| ==>
      r[i] == if IsVoteOf(votes[i], u, q) then votes[i].(choice := c) else votes[i]
    decreases |votes|
  {
    if |votes| == 0 then []
    else
      var last := votes[|votes| - 1];
      Repoint(votes[..|votes| - 1], u, q, c) + [if IsVoteOf(last, u, q) then last.(choice := c) else last]
  }

  /** Re-pointing keeps every row's user and question. */
  lemma RepointUnique(votes: seq<Vote>, u: UserId, q: QuestionId, c: ChoiceId)
    requires OneVotePerQuestion(votes)
    ensures OneVotePerQuestion(Repoint(votes, u, q, c))
  {
  }

  /** Re-pointing changes no other pair's choice, and sets the pair's
      choice to `c` when it has one. */
  lemma {:induction false} RepointVoted(votes: seq<Vote>, u: UserId, q: QuestionId, c: ChoiceId,
                                        u': UserId, q': QuestionId)
    ensures VotedChoice(Repoint(votes, u, q, c), u', q') ==
      if u' == u && q' == q && VotedChoice(votes, u, q).Some? then Some(c) else VotedChoice(votes, u', q')
    decreases |votes|
  {
    if |votes| > 0 {
      var p := votes[..|votes| - 1];
      assert Repoint(votes, u, q, c)[..|votes| - 1] == Repoint(p, u, q, c);
      RepointVoted(p, u, q, c, u', q');
    }
  }

  /** Re-pointing changes no participant count. */
  lemma {:induction false} RepointParticipants(votes: seq<Vote>, u: UserId, q: QuestionId, c: ChoiceId,
                                               q': QuestionId)
    ensures Participants(Repoint(votes, u, q, c), q') == Participants(votes, q')
    decreases |votes|
  {
    if |votes| > 0 {
      var p := votes[..|votes| - 1];
      assert Repoint(votes, u, q, c)[..|votes| - 1] == Repoint(p, u, q, c);
      RepointParticipants(p, u, q, c, q');
    }
  }

  /** Re-pointing the only row of a pair moves one vote from its old choice
      to `c`. */
  lemma {:induction false} RepointChoiceVotes(votes: seq<Vote>, u: UserId, q: QuestionId, c: ChoiceId,
                                              x: ChoiceId)
    requires OneVotePerQuestion(votes)
    ensures ChoiceVotes(Repoint(votes, u, q, c), x) ==
      ChoiceVotes(votes, x)
      + (if x == c && VotedChoice(votes, u, q).Some? then 1 else 0)
      - (if VotedChoice(votes, u, q) == Some(x) then 1 else 0)
    decreases |votes|
  {
    if |votes| > 0 {
      var p := votes[..|votes| - 1];
      var last := votes[|votes| - 1];
      var r := Repoint(votes, u, q, c);
      assert r[..|votes| - 1] == Repoint(p, u, q, c);
      assert OneVotePerQuestion(p) && (IsVoteOf(last, u, q) ==> VotedChoice(p, u, q).None?) by {
        OneVotePrefix(votes);
      }
      RepointChoiceVotes(p, u, q, c, x);
      if IsVoteOf(last, u, q) {
        assert r[|votes| - 1].choice == c;
        assert VotedChoice(votes, u, q) == Some(last.choice);
      } else {
        assert r[|votes| - 1] == last;
        assert VotedChoice(votes, u, q) == VotedChoice(p, u, q);
      }
    }
  }

  /** Re-pointing a user's row moves one vote from the old choice to the new
      one and changes nothing else. */
  lemma RepointEffect(votes: seq<Vote>, u: UserId, q: QuestionId, c: ChoiceId)
    requires OneVotePerQuestion(votes) && VotedChoice(votes, u, q).Some?
    ensures var votes' := Repoint(votes, u, q, c);
      && OneVotePerQuestion(votes')
      && VotedChoice(votes', u, q) == Some(c)
      && (forall u', q' :: (u' != u || q' != q) ==> VotedChoice(votes', u', q') == VotedChoice(votes, u', q'))
      && (forall q' :: Participants(votes', q') == Participants(votes, q'))
      && (forall x :: ChoiceVotes(votes', x) ==
            ChoiceVotes(votes, x) + (if x == c then 1 else 0)
            - (if VotedChoice(votes, u, q) == Some(x) then 1 else 0))
  {
    RepointUnique(votes, u, q, c);
    forall u', q' ensures VotedChoice(Repoint(votes, u, q, c), u', q') ==
      if u' == u && q' == q then Some(c) else VotedChoice(votes, u', q') {
      RepointVoted(votes, u, q, c, u', q');
    }
    forall q' ensures Participants(Repoint(votes, u, q, c), q') == Participants(votes, q') {
      RepointParticipants(votes, u, q, c, q');
    }
    forall x ensures ChoiceVotes(Repoint(votes, u, q, c), x) ==
      ChoiceVotes(votes, x) + (if x == c then 1 else 0) - (if VotedChoice(votes, u, q) == Some(x) then 1 else 0) {
      RepointChoiceVotes(votes, u, q, c, x);
    }
  }

  /** Appending a row for a user without a vote in that question. */
  lemma AppendEffect(votes: seq<Vote>, u: UserId, q: QuestionId, c: ChoiceId)
    requires OneVotePerQuestion(votes) && VotedChoice(votes, u, q).None?
    ensures var votes' := votes + [Vote(c, u, q)];
      && OneVotePerQuestion(votes')
      && VotedChoice(votes', u, q) == Some(c)
      && (forall u', q' :: (u' != u || q' != q) ==> VotedChoice(votes', u', q') == VotedChoice(votes, u', q'))
      && (forall q' :: Participants(votes', q') == Participants(votes, q') + (if q' == q then 1 else 0))
      && (forall x :: ChoiceVotes(votes', x) == ChoiceVotes(votes, x) + (if x == c then 1 else 0))
  {
    var votes' := votes + [Vote(c, u, q)];
    assert votes'[..|votes|] == votes;
    forall i, j | 0 <= i < j < |votes'|
      ensures votes'[i].user != votes'[j].user || votes'[i].question != votes'[j].question
    {
      if j == |votes| {
        assert votes'[i] == votes[i];
      }
    }
  }

  /** Whether casting a vote created a row or updated the user's row. */
  datatype CastOutcome = Created | Updated

  /** Records that user `u` picks choice `c` in question `q`: a new row
      when the user has none for `q`, otherwise the user's row is pointed at
      `c`. The user keeps exactly one vote in `q`, the participant count
      grows only for a new voter, and one vote moves from the previous
      choice to `c`. */
  function CastVote(votes: seq<Vote>, u: UserId, q: QuestionId, c: ChoiceId): (r: (seq<Vote>, CastOutcome))
    requires OneVotePerQuestion(votes)
    ensures OneVotePerQuestion(r.0)
    ensures VotedChoice(r.0, u, q) == Some(c)
    ensures r.1 == Created <==> VotedChoice(votes, u, q).None?
    ensures forall u', q' :: (u' != u || q' != q) ==> VotedChoice(r.0, u', q') == VotedChoice(votes, u', q')
    ensures Participants(r.0, q) == Participants(votes, q) + (if r.1 == Created then 1 else 0)
    ensures forall q' :: q' != q ==> Participants(r.0, q') == Participants(votes, q')
    ensures forall x :: ChoiceVotes(r.0, x) ==
                        ChoiceVotes(votes, x) + (if x == c then 1 else 0)
                        - (if VotedChoice(votes, u, q) == Some(x) then 1 else 0)
  {
    if VotedChoice(votes, u, q).None? then
      AppendEffect(votes, u, q, c);
      (votes + [Vote(c, u, q)], Created)
    else
      RepointEffect(votes, u, q, c);
      (Repoint(votes, u, q, c), Updated)
  }

  /** With one vote per pair, the table holds a row (u, q, x) exactly when
      the user's choice in `q` is `x`. */
  lemma VotedChoiceIsRow(votes: seq<Vote>, u: UserId, q: QuestionId, x: ChoiceId)
    requires OneVotePerQuestion(votes)
    ensures Vote(x, u, q) in votes <==> VotedChoice(votes, u, q) == Some(x)
  {
    if Vote(x, u, q) in votes {
      var i :| 0 <= i < |votes| && votes[i] == Vote(x, u, q);
      assert IsVoteOf(votes[i], u, q);
      var c := VotedChoice(votes, u, q).value;
      var j :| 0 <= j < |votes| && votes[j] == Vote(c, u, q);
      assert i == j;
    }
  }

  /** Voting again for the same choice changes no count. */
  lemma RevoteSameChoice(votes: seq<Vote>, u: UserId, q: QuestionId, c: ChoiceId)
    requires OneVotePerQuestion(votes) && VotedChoice(votes, u, q) == Some(c)
    ensures forall x :: ChoiceVotes(CastVote(votes, u, q, c).0, x) == ChoiceVotes(votes, x)
    ensures Participants(CastVote(votes, u, q, c).0, q) == Participants(votes, q)
  {
  }

  /** A user who votes for `c1` and then for `c2` in the same question ends
      with one vote, for `c2`: the table holds the row (u, q, c2) and no
      longer the row (u, q, c1), and `c1` ends where it started. */
  lemma VoteThenChange(votes: seq<Vote>, u: UserId, q: QuestionId, c1: ChoiceId, c2: ChoiceId)
    requires OneVotePerQuestion(votes) && VotedChoice(votes, u, q).None?
    requires c1 != c2
    ensures var after := CastVote(CastVote(votes, u, q, c1).0, u, q, c2).0;
      && VotedChoice(after, u, q) == Some(c2)
      && ChoiceVotes(after, c1) == ChoiceVotes(votes, c1)
      && ChoiceVotes(after, c2) == ChoiceVotes(votes, c2) + 1
      && Participants(after, q) == Participants(votes, q) + 1
      && Vote(c2, u, q) in after && Vote(c1, u, q) !in after
  {
    var after := CastVote(CastVote(votes, u, q, c1).0, u, q, c2).0;
    VotedChoiceIsRow(after, u, q, c1);
  }

  /* ---------------------------------------------------------------------- */
  /* The vote view                                                          */
  /* ---------------------------------------------------------------------- */

  /** What the `vote` view answers. */
  datatype VoteResponse =
    | NotFound                                          // `get_object_or_404` found no question
    | DetailWithError(question: QuestionId, message: string)  // the detail page re-rendered
    | RedirectToResults(question: QuestionId)

  const NoChoiceMessage: string := "You didn't select a choice."

  /** `question.choice_set.get(pk=request.POST["choice"])`: `key` is the
      posted choice id, `None` when the form has no "choice" field
      (`KeyError`). The lookup fails (`DoesNotExist`) unless some choice of
      this very question has that id. */
  function SelectChoice(choices: seq<Choice>, q: QuestionId, key: Option<ChoiceId>): (r: Option<Choice>)
    ensures r.Some? <==>
      key.Some? && exists i :: 0 <= i < |choices| && choices[i].id == key.value && choices[i].question == q
    ensures r.Some? ==> r.value in choices && r.value.id == key.value && r.value.question == q
  {
    if key.None? || |choices| == 0 then None
    else if choices[0].id == key.value && choices[0].question == q then Some(choices[0])
    else
      var r := SelectChoice(choices[1..], q, key);
      assert forall i :: 0 < i < |choices| ==> choices[i] == choices[1..][i - 1];
      r
  }

  /** Raised by the success branch of the view as written. */
  datatype Crash = AttributeError

  /** The `vote` view as written. Its success branch increments
      `selected_choice.votes`, a property without a setter, so Python raises
      `AttributeError` before anything is saved. */
  function VoteAsWritten(questions: seq<Question>, choices: seq<Choice>, id: QuestionId,
                         key: Option<ChoiceId>): (r: Result<VoteResponse, Crash>)
    ensures QuestionById(questions, id).None? ==> r == Success(NotFound)
    ensures QuestionById(questions, id).Some? && SelectChoice(choices, id, key).None? ==>
      r == Success(DetailWithError(id, NoChoiceMessage))
    ensures QuestionById(questions, id).Some? && SelectChoice(choices, id, key).Some? ==>
      r == Failure(AttributeError)
  {
    match QuestionById(questions, id)
    case None => Success(NotFound)
    case Some(question) =>
      match SelectChoice(choices, question.id, key)
      case None => Success(DetailWithError(question.id, NoChoiceMessage))
      case Some(choice) => Failure(AttributeError)
  }

  /** A valid submission crashes the view as written. */
  lemma ValidVoteCrashes()
    ensures VoteAsWritten([Question(1, "q", 0, None, "", "", 0.0, [])],
                          [Choice(7, 1, "c")], 1, Some(7)) == Failure(AttributeError)
  {
    assert QuestionById([Question(1, "q", 0, None, "", "", 0.0, [])], 1).Some?;
    assert SelectChoice([Choice(7, 1, "c")], 1, Some(7)).Some?;
  }

  /** The `vote` view with its success branch recording the vote in the
      `Vote` table, which is what the increment of `votes` stands for: a
      missing question or an invalid choice leaves the table untouched; a
      valid choice is cast for `user` and the view redirects to the results. */
  function SubmitVote(questions: seq<Question>, choices: seq<Choice>, votes: seq<Vote>,
                      user: UserId, id: QuestionId, key: Option<ChoiceId>): (r: (VoteResponse, seq<Vote>))
    requires OneVotePerQuestion(votes)
    ensures OneVotePerQuestion(r.1)
    ensures QuestionById(questions, id).None? ==> r == (NotFound, votes)
    ensures QuestionById(questions, id).Some? && SelectChoice(choices, id, key).None? ==>
      r == (DetailWithError(id, NoChoiceMessage), votes)
    ensures r.0.RedirectToResults? <==>
      QuestionById(questions, id).Some? && SelectChoice(choices, id, key).Some?
    ensures r.0.RedirectToResults? ==>
      r.0.question == id && VotedChoice(r.1, user, id) == key &&
      ChoiceVotes(r.1, key.value) ==
        ChoiceVotes(votes, key.value) + (if VotedChoice(votes, user, id) == key then 0 else 1)
    ensures r.0.RedirectToResults? ==> r.1 == CastVote(votes, user, id, key.value).0
    ensures r.0.RedirectToResults? ==> Vote(key.value, user, id) in r.1
  {
    match QuestionById(questions, id)
    case None => (NotFound, votes)
    case Some(question) =>
      match SelectChoice(choices, question.id, key)
      case None => (DetailWithError(question.id, NoChoiceMessage), votes)
      case Some(choice) => (RedirectToResults(question.id), CastVote(votes, user, question.id, choice.id).0)
  }
}
