/** The `SentimentVote` table and the question operations over it:
    `upvote`, `downvote`, `up_vote_count`, `down_vote_count` and
    `calculate_vote_percentage`.

    The table is a sequence of rows. The storage layer's
    `unique_together = ['user', 'question']` is the predicate `UniquePairs`,
    which every operation that reads a user's row requires and preserves.
    `Ledger(t, q)` is the per-question view of the table: a map from each
    user who has a row for `q` to that row's direction. */
module Sentiment {
  import opened Polls

  /* ---------------------------------------------------------------------- */
  /* Rows, uniqueness and the per-question ledger                           */
  /* ---------------------------------------------------------------------- */

  predicate IsRowOf(r: SentimentVote, u: UserId, q: QuestionId) {
    r.user == u && r.question == q
  }

  /** `unique_together = ['user', 'question']`: no two rows share a pair. */
  predicate UniquePairs(t: seq<SentimentVote>) {
    forall i, j :: 0 <= i < j < |t| ==> t[i].user != t[j].user || t[i].question != t[j].question
  }

  /** User `u` has a sentiment row for question `q`. */
  predicate HasRow(t: seq<SentimentVote>, u: UserId, q: QuestionId) {
    exists i :: 0 <= i < |t| && IsRowOf(t[i], u, q)
  }

  lemma HasRowSnoc(t: seq<SentimentVote>, x: SentimentVote, u: UserId, q: QuestionId)
    ensures HasRow(t + [x], u, q) <==> HasRow(t, u, q) || IsRowOf(x, u, q)
  {
    var s := t + [x];
    if HasRow(t, u, q) {
      var i :| 0 <= i < |t| && IsRowOf(t[i], u, q);
      assert s[i] == t[i];
    }
    if IsRowOf(x, u, q) {
      assert s[|t|] == x;
    }
    if HasRow(s, u, q) {
      var i :| 0 <= i < |s| && IsRowOf(s[i], u, q);
      if i < |t| {
        assert t[i] == s[i];
      }
    }
  }

  lemma UniquePrefix(t: seq<SentimentVote>)
    requires |t| > 0 && UniquePairs(t)
    ensures UniquePairs(t[..|t| - 1])
    ensures !HasRow(t[..|t| - 1], t[|t| - 1].user, t[|t| - 1].question)
  {
  }

  /** The direction each user who has a row for `q` voted in. */
  function Ledger(t: seq<SentimentVote>, q: QuestionId): (m: map<UserId, bool>)
    ensures forall u :: u in m <==> HasRow(t, u, q)
    decreases |t|
  {
    if |t| == 0 then map[]
    else
      var last := t[|t| - 1];
      var p := t[..|t| - 1];
      var rest := Ledger(p, q);
      assert t == p + [last];
      assert forall u :: HasRow(t, u, q) <==> HasRow(p, u, q) || IsRowOf(last, u, q) by {
        forall u ensures HasRow(t, u, q) <==> HasRow(p, u, q) || IsRowOf(last, u, q) {
          HasRowSnoc(p, last, u, q);
        }
      }
      if last.question == q then rest[last.user := last.up] else rest
  }

  /** With unique pairs, the ledger entry of a user is the direction of
      that user's row. */
  lemma {:induction false} LedgerValue(t: seq<SentimentVote>, q: QuestionId, i: nat)
    requires UniquePairs(t)
    requires i < |t| && t[i].question == q
    ensures t[i].user in Ledger(t, q) && Ledger(t, q)[t[i].user] == t[i].up
    decreases |t|
  {
    if i < |t| - 1 {
      var p := t[..|t| - 1];
      UniquePrefix(t);
      assert p[i] == t[i];
      LedgerValue(p, q, i);
    }
  }

  /* ---------------------------------------------------------------------- */
  /* Counts                                                                 */
  /* ---------------------------------------------------------------------- */

  /** `sentimentvote_set.filter(question=q, vote_types=up).count()`. */
  function CountVotes(t: seq<SentimentVote>, q: QuestionId, up: bool): (n: nat)
    ensures n == |MatchingRows(t, q, up)|
    decreases |t|
  {
    if |t| == 0 then 0
    else
      var last := t[|t| - 1];
      var p := t[..|t| - 1];
      assert t == p + [last];
      MatchingRowsSnoc(p, last, q, up);
      CountVotes(p, q, up) + (if last.question == q && last.up == up then 1 else 0)
  }

  /** The positions of the rows of question `q` in direction `up`. */
  function MatchingRows(t: seq<SentimentVote>, q: QuestionId, up: bool): set<int> {
    set i | 0 <= i < |t| && t[i].question == q && t[i].up == up
  }

  lemma MatchingRowsSnoc(p: seq<SentimentVote>, last: SentimentVote, q: QuestionId, up: bool)
    ensures |MatchingRows(p + [last], q, up)| ==
      |MatchingRows(p, q, up)| + (if last.question == q && last.up == up then 1 else 0)
  {
    MatchingRowsAppend(p, last, q, up);
    if last.question == q && last.up == up {
      assert |p| !in MatchingRows(p, q, up);
    }
  }

  lemma MatchingRowsAppend(p: seq<SentimentVote>, last: SentimentVote, q: QuestionId, up: bool)
    ensures MatchingRows(p + [last], q, up) ==
      MatchingRows(p, q, up) + (if last.question == q && last.up == up then {|p|} else {})
  {
    var t := p + [last];
    assert forall i :: 0 <= i < |p| ==> t[i] == p[i];
    assert t[|p|] == last;
  }

  /** `up_vote_count`: with unique pairs, the number of users who like `q`. */
  function UpVoteCount(t: seq<SentimentVote>, q: QuestionId): (n: nat)
    ensures UniquePairs(t) ==> n == |Voters(Ledger(t, q), true)|
  {
    assert UniquePairs(t) ==> CountVotes(t, q, true) == |Voters(Ledger(t, q), true)| by {
      if UniquePairs(t) {
        CountsAreVoters(t, q, true);
      }
    }
    CountVotes(t, q, true)
  }

  /** `down_vote_count`: with unique pairs, the number of users who dislike `q`. */
  function DownVoteCount(t: seq<SentimentVote>, q: QuestionId): (n: nat)
    ensures UniquePairs(t) ==> n == |Voters(Ledger(t, q), false)|
  {
    assert UniquePairs(t) ==> CountVotes(t, q, false) == |Voters(Ledger(t, q), false)| by {
      if UniquePairs(t) {
        CountsAreVoters(t, q, false);
      }
    }
    CountVotes(t, q, false)
  }

  /** The users of a ledger who voted in direction `up`. */
  function Voters(m: map<UserId, bool>, up: bool): set<UserId> {
    set u | u in m && m[u] == up
  }

  /** Changing one user's entry moves that user between the voter sets. */
  lemma VotersUpdate(m: map<UserId, bool>, u: UserId, v: bool, up: bool)
    ensures Voters(m[u := v], up) == if v == up then Voters(m, up) + {u} else Voters(m, up) - {u}
    ensures |Voters(m[u := v], up)| ==
      |Voters(m, up)|
      + (if v == up && u !in Voters(m, up) then 1 else 0)
      - (if v != up && u in Voters(m, up) then 1 else 0)
  {
    var m' := m[u := v];
    if v == up {
      assert Voters(m', up) == Voters(m, up) + {u};
    } else {
      assert Voters(m', up) == Voters(m, up) - {u};
    }
  }

  /** With unique pairs, a count is the number of users in the ledger who
      voted in that direction. */
  lemma {:induction false} CountsAreVoters(t: seq<SentimentVote>, q: QuestionId, up: bool)
    requires UniquePairs(t)
    ensures CountVotes(t, q, up) == |Voters(Ledger(t, q), up)|
    decreases |t|
  {
    if |t| > 0 {
      var p := t[..|t| - 1];
      var last := t[|t| - 1];
      UniquePrefix(t);
      CountsAreVoters(p, q, up);
      if last.question == q {
        var m := Ledger(p, q);
        assert last.user !in m;
        VotersUpdate(m, last.user, last.up, up);
      }
    }
  }

  /** Every user with a row for `q` is counted exactly once, as an up or a
      down vote: the two counts add up to the number of users in the ledger. */
  lemma CountsCoverLedger(t: seq<SentimentVote>, q: QuestionId)
    requires UniquePairs(t)
    ensures UpVoteCount(t, q) + DownVoteCount(t, q) == |Ledger(t, q)|
  {
    var m := Ledger(t, q);
    CountsAreVoters(t, q, true);
    CountsAreVoters(t, q, false);
    assert Voters(m, true) + Voters(m, false) == m.Keys;
    assert Voters(m, true) * Voters(m, false) == {};
    assert |m.Keys| == |m|;
  }

  /* ---------------------------------------------------------------------- */
  /* Casting a sentiment vote                                               */
  /* ---------------------------------------------------------------------- */

  /** `sentimentvote_set.filter(user=u)[0]`: the first row of the pair. */
  function FirstRow(t: seq<SentimentVote>, u: UserId, q: QuestionId): (i: nat)
    requires HasRow(t, u, q)
    ensures i < |t| && IsRowOf(t[i], u, q)
  {
    if IsRowOf(t[0], u, q) then 0
    else
      assert HasRow(t[1..], u, q) by {
        var k :| 0 <= k < |t| && IsRowOf(t[k], u, q);
        assert t[1..][k - 1] == t[k];
      }
      1 + FirstRow(t[1..], u, q)
  }

  /** `filter(user=u).update(vote_types=up)`: every row of the pair gets
      direction `up`; every other row is kept as it is. */
  function SetDirection(t: seq<SentimentVote>, u: UserId, q: QuestionId, up: bool): (r: seq<SentimentVote>)
    ensures |r| == |t|
    ensures forall i :: 0 <= i < |t| ==> r[i] == if IsRowOf(t[i], u, q) then t[i].(up := up) else t[i]
    decreases |t|
  {
    if |t| == 0 then []
    else
      var last := t[|t| - 1];
      SetDirection(t[..|t| - 1], u, q, up) + [if IsRowOf(last, u, q) then last.(up := up) else last]
  }

  /** Rewriting a pair's direction leaves the ledgers of other questions alone. */
  lemma {:induction false} LedgerSetDirectionOther(t: seq<SentimentVote>, u: UserId, q: QuestionId, up: bool,
                                                   q': QuestionId)
    requires q' != q
    ensures Ledger(SetDirection(t, u, q, up), q') == Ledger(t, q')
    decreases |t|
  {
    if |t| > 0 {
      var p := t[..|t| - 1];
      var last := t[|t| - 1];
      var t' := SetDirection(t, u, q, up);
      assert t'[..|t| - 1] == SetDirection(p, u, q, up);
      LedgerSetDirectionOther(p, u, q, up, q');
    }
  }

  /** Rewriting a pair's direction sets that user's entry in the question's
      ledger. */
  lemma {:induction false} LedgerSetDirectionSame(t: seq<SentimentVote>, u: UserId, q: QuestionId, up: bool)
    requires HasRow(t, u, q)
    ensures Ledger(SetDirection(t, u, q, up), q) == Ledger(t, q)[u := up]
    decreases |t|
  {
    var p := t[..|t| - 1];
    var last := t[|t| - 1];
    assert t == p + [last];
    HasRowSnoc(p, last, u, q);
    if HasRow(p, u, q) {
      LedgerSetDirectionSame(p, u, q, up);
      SetDirectionStepWithRow(p, last, u, q, up);
    } else {
      LedgerUnchangedWithoutRow(p, u, q, up);
      SetDirectionStepFirstRow(p, last, u, q, up);
    }
  }

  /** One step of `LedgerSetDirectionSame` when the rows before `last`
      hold the pair: if rewriting them sets the user's entry, so does
      rewriting all rows. */
  lemma SetDirectionStepWithRow(p: seq<SentimentVote>, last: SentimentVote, u: UserId, q: QuestionId, up: bool)
    requires Ledger(SetDirection(p, u, q, up), q) == Ledger(p, q)[u := up]
    ensures Ledger(SetDirection(p + [last], u, q, up), q) == Ledger(p + [last], q)[u := up]
  {
    var p' := SetDirection(p, u, q, up);
    var last' := if IsRowOf(last, u, q) then last.(up := up) else last;
    SetDirectionSnoc(p, last, u, q, up);
    LedgerAppend(p', last', q);
    LedgerAppend(p, last, q);
    UpdateAfterStep(Ledger(p, q), u, up, last, q);
  }

  /** One step of `LedgerSetDirectionSame` when `last` is the pair's first
      row: rewriting all rows sets the user's entry. */
  lemma SetDirectionStepFirstRow(p: seq<SentimentVote>, last: SentimentVote, u: UserId, q: QuestionId, up: bool)
    requires SetDirection(p, u, q, up) == p && IsRowOf(last, u, q)
    ensures Ledger(SetDirection(p + [last], u, q, up), q) == Ledger(p + [last], q)[u := up]
  {
    SetDirectionSnoc(p, last, u, q, up);
    LedgerAppend(p, last.(up := up), q);
    LedgerAppend(p, last, q);
    assert last.user == u && last.question == q;
    OverwriteTwice(Ledger(p, q), u, last.up, up);
  }

  /** Setting a key twice keeps only the second value. */
  lemma OverwriteTwice(m: map<UserId, bool>, u: UserId, first: bool, second: bool)
    ensures m[u := first][u := second] == m[u := second]
  {
  }

  /** Rewriting a table with one more row is rewriting the shorter table
      and then the extra row. */
  lemma SetDirectionSnoc(p: seq<SentimentVote>, last: SentimentVote, u: UserId, q: QuestionId, up: bool)
    ensures SetDirection(p + [last], u, q, up) ==
      SetDirection(p, u, q, up) + [if IsRowOf(last, u, q) then last.(up := up) else last]
  {
    assert (p + [last])[..|p|] == p;
  }

  /** The map step of `LedgerSetDirectionSame`: setting `u` before or after
      appending `last` gives the same ledger. */
  lemma UpdateAfterStep(m: map<UserId, bool>, u: UserId, up: bool, last: SentimentVote, q: QuestionId)
    ensures var last' := if IsRowOf(last, u, q) then last.(up := up) else last;
      (if last'.question == q then m[u := up][last'.user := last'.up] else m[u := up])
      == (if last.question == q then m[last.user := last.up] else m)[u := up]
  {
  }

  /** Without a row for the pair, rewriting its direction changes nothing. */
  lemma {:induction false} LedgerUnchangedWithoutRow(t: seq<SentimentVote>, u: UserId, q: QuestionId, up: bool)
    requires !HasRow(t, u, q)
    ensures SetDirection(t, u, q, up) == t
  {
    var r := SetDirection(t, u, q, up);
    forall i | 0 <= i < |t| ensures r[i] == t[i] {
      assert !IsRowOf(t[i], u, q);
    }
  }

  /** Rewriting a pair's direction sets that user's entry in the question's
      ledger and leaves every other ledger alone. */
  lemma LedgerSetDirection(t: seq<SentimentVote>, u: UserId, q: QuestionId, up: bool, q': QuestionId)
    requires HasRow(t, u, q)
    ensures Ledger(SetDirection(t, u, q, up), q') ==
      if q' == q then Ledger(t, q')[u := up] else Ledger(t, q')
  {
    if q' == q {
      LedgerSetDirectionSame(t, u, q, up);
    } else {
      LedgerSetDirectionOther(t, u, q, up, q');
    }
  }

  /** `SetDirection` keeps every row's user and question. */
  lemma SetDirectionUnique(t: seq<SentimentVote>, u: UserId, q: QuestionId, up: bool)
    requires UniquePairs(t)
    ensures UniquePairs(SetDirection(t, u, q, up))
  {
  }

  /** Adding a row for a fresh pair sets that user's entry in the question's
      ledger and leaves every other ledger alone. */
  lemma LedgerAppend(t: seq<SentimentVote>, x: SentimentVote, q': QuestionId)
    ensures Ledger(t + [x], q') ==
      if x.question == q' then Ledger(t, q')[x.user := x.up] else Ledger(t, q')
  {
    assert (t + [x])[..|t|] == t;
  }

  lemma AppendUnique(t: seq<SentimentVote>, x: SentimentVote)
    requires UniquePairs(t) && !HasRow(t, x.user, x.question)
    ensures UniquePairs(t + [x])
  {
    var s := t + [x];
    forall i, j | 0 <= i < j < |s|
      ensures s[i].user != s[j].user || s[i].question != s[j].question
    {
      if j == |t| {
        assert s[i] == t[i];
      }
    }
  }

  /** Counts of every question follow the ledgers: two tables with the
      same ledger for `q` have the same counts for `q`. */
  lemma CountsFollowLedger(t: seq<SentimentVote>, t': seq<SentimentVote>, q: QuestionId, up: bool)
    requires UniquePairs(t) && UniquePairs(t')
    requires Ledger(t, q) == Ledger(t', q)
    ensures CountVotes(t, q, up) == CountVotes(t', q, up)
  {
    CountsAreVoters(t, q, up);
    CountsAreVoters(t', q, up);
  }

  /** How the counts of `q` move when exactly one user's entry in its
      ledger is set to `up`. */
  lemma CountsAfterEntrySet(t: seq<SentimentVote>, t': seq<SentimentVote>, q: QuestionId, u: UserId, up: bool)
    requires UniquePairs(t) && UniquePairs(t')
    requires Ledger(t', q) == Ledger(t, q)[u := up]
    ensures CountVotes(t', q, up) ==
      CountVotes(t, q, up) + (if u in Ledger(t, q) && Ledger(t, q)[u] == up then 0 else 1)
    ensures CountVotes(t', q, !up) ==
      CountVotes(t, q, !up) - (if u in Ledger(t, q) && Ledger(t, q)[u] != up then 1 else 0)
  {
    var m := Ledger(t, q);
    VotersUpdate(m, u, up, up);
    VotersUpdate(m, u, up, !up);
    CountsAreVoters(t, q, up);
    CountsAreVoters(t, q, !up);
    CountsAreVoters(t', q, up);
    CountsAreVoters(t', q, !up);
  }

  /** The insert of a row for a fresh pair. */
  lemma InsertEffect(t: seq<SentimentVote>, q: QuestionId, u: UserId, up: bool)
    requires UniquePairs(t) && !HasRow(t, u, q)
    ensures var t' := t + [SentimentVote(u, q, up)];
      && UniquePairs(t')
      && Ledger(t', q) == Ledger(t, q)[u := up]
      && (forall q' :: q' != q ==> Ledger(t', q') == Ledger(t, q'))
  {
    var x := SentimentVote(u, q, up);
    AppendUnique(t, x);
    LedgerAppend(t, x, q);
    forall q' | q' != q ensures Ledger(t + [x], q') == Ledger(t, q') {
      LedgerAppend(t, x, q');
    }
  }

  /** The update of an existing pair's direction. */
  lemma FlipEffect(t: seq<SentimentVote>, q: QuestionId, u: UserId, up: bool)
    requires UniquePairs(t) && HasRow(t, u, q)
    ensures var t' := SetDirection(t, u, q, up);
      && UniquePairs(t')
      && Ledger(t', q) == Ledger(t, q)[u := up]
      && (forall q' :: q' != q ==> Ledger(t', q') == Ledger(t, q'))
  {
    SetDirectionUnique(t, u, q, up);
    LedgerSetDirection(t, u, q, up, q);
    forall q' | q' != q ensures Ledger(SetDirection(t, u, q, up), q') == Ledger(t, q') {
      LedgerSetDirection(t, u, q, up, q');
    }
  }

  /** The shared body of `upvote` (`up` = true) and `downvote` (`up` =
      false). The insert of a new row fails on the unique pair exactly when
      the user already has a row; then the row is flipped when its direction
      differs, and nothing happens when it matches. The flag is the method's
      return value: true for a new or changed vote, false for a repeat. */
  function Cast(t: seq<SentimentVote>, q: QuestionId, u: UserId, up: bool): (r: (seq<SentimentVote>, bool))
    requires UniquePairs(t)
    ensures UniquePairs(r.0)
    ensures r.1 <==> !(u in Ledger(t, q) && Ledger(t, q)[u] == up)
    ensures !r.1 ==> r.0 == t
    ensures Ledger(r.0, q) == Ledger(t, q)[u := up]
    ensures forall q' :: q' != q ==> Ledger(r.0, q') == Ledger(t, q')
    ensures CountVotes(r.0, q, up) == CountVotes(t, q, up) + (if r.1 then 1 else 0)
    ensures CountVotes(r.0, q, !up) ==
      CountVotes(t, q, !up) - (if r.1 && u in Ledger(t, q) then 1 else 0)
  {
    if !HasRow(t, u, q) then
      var t' := t + [SentimentVote(u, q, up)];
      InsertEffect(t, q, u, up);
      CountsAfterEntrySet(t, t', q, u, up);
      (t', true)
    else
      var i := FirstRow(t, u, q);
      LedgerValue(t, q, i);
      if t[i].up != up then
        var t' := SetDirection(t, u, q, up);
        FlipEffect(t, q, u, up);
        CountsAfterEntrySet(t, t', q, u, up);
        (t', true)
      else
        assert Ledger(t, q)[u := up] == Ledger(t, q);
        (t, false)
  }

  /** `upvote`: records a like for user `u` on question `q` and reports
      whether anything changed. */
  function Upvote(t: seq<SentimentVote>, q: QuestionId, u: UserId): (r: (seq<SentimentVote>, bool))
    requires UniquePairs(t)
    ensures UniquePairs(r.0)
    ensures r.1 <==> u !in Ledger(t, q) || !Ledger(t, q)[u]
    ensures !r.1 ==> r.0 == t
    ensures Ledger(r.0, q) == Ledger(t, q)[u := true]
    ensures forall q' :: q' != q ==> Ledger(r.0, q') == Ledger(t, q')
    ensures u !in Ledger(t, q) ==>
      UpVoteCount(r.0, q) == UpVoteCount(t, q) + 1 && DownVoteCount(r.0, q) == DownVoteCount(t, q)
    ensures u in Ledger(t, q) && !Ledger(t, q)[u] ==>
      UpVoteCount(r.0, q) == UpVoteCount(t, q) + 1 && DownVoteCount(r.0, q) == DownVoteCount(t, q) - 1
  {
    Cast(t, q, u, true)
  }

  /** `downvote`: records a dislike for user `u` on question `q` and reports
      whether anything changed. */
  function Downvote(t: seq<SentimentVote>, q: QuestionId, u: UserId): (r: (seq<SentimentVote>, bool))
    requires UniquePairs(t)
    ensures UniquePairs(r.0)
    ensures r.1 <==> u !in Ledger(t, q) || Ledger(t, q)[u]
    ensures !r.1 ==> r.0 == t
    ensures Ledger(r.0, q) == Ledger(t, q)[u := false]
    ensures forall q' :: q' != q ==> Ledger(r.0, q') == Ledger(t, q')
    ensures u !in Ledger(t, q) ==>
      DownVoteCount(r.0, q) == DownVoteCount(t, q) + 1 && UpVoteCount(r.0, q) == UpVoteCount(t, q)
    ensures u in Ledger(t, q) && Ledger(t, q)[u] ==>
      DownVoteCount(r.0, q) == DownVoteCount(t, q) + 1 && UpVoteCount(r.0, q) == UpVoteCount(t, q) - 1
  {
    Cast(t, q, u, false)
  }

  /** Casting the same direction twice: the second call reports false and
      leaves the table as the first call left it. */
  lemma RepeatIsNoOp(t: seq<SentimentVote>, q: QuestionId, u: UserId, up: bool)
    requires UniquePairs(t)
    ensures var first := Cast(t, q, u, up);
      Cast(first.0, q, u, up) == (first.0, false)
  {
  }

  /** Votes on another question, or by another user, do not touch a user's
      entry. */
  lemma CastLeavesOthers(t: seq<SentimentVote>, q: QuestionId, u: UserId, up: bool, q': QuestionId, u': UserId)
    requires UniquePairs(t)
    requires q' != q || u' != u
    ensures (u' in Ledger(Cast(t, q, u, up).0, q')) == (u' in Ledger(t, q'))
    ensures u' in Ledger(t, q') ==> Ledger(Cast(t, q, u, up).0, q')[u'] == Ledger(t, q')[u']
  {
  }

  /* ---------------------------------------------------------------------- */
  /* Percentages                                                            */
  /* ---------------------------------------------------------------------- */

  /** The truncated shares of a total that is split in two add up to 99 or
      100: each truncation loses less than one point, and the exact shares
      add up to 100. */
  lemma TruncatedSharesSum(up: nat, down: nat)
    requires up + down > 0
    ensures 99 <= up * 100 / (up + down) + down * 100 / (up + down) <= 100
  {
    var total := up + down;
    var a, b := up * 100 / total, down * 100 / total;
    var r1, r2 := up * 100 % total, down * 100 % total;
    assert up * 100 == a * total + r1;
    assert down * 100 == b * total + r2;
    var k := 100 - a - b;
    assert k * total == 100 * total - a * total - b * total;
    assert k * total == r1 + r2;
    MultipleBetween(k, total, r1 + r2);
  }

  /** A multiple of a positive `n` in `[0, 2n)` is `0` or `n`. */
  lemma MultipleBetween(k: int, n: int, v: int)
    requires n > 0 && k * n == v && 0 <= v < 2 * n
    ensures 0 <= k <= 1
  {
  }

  /** A truncated share of a total lies between 0 and 100 and is the
      largest whole percentage not above the exact one. */
  lemma TruncatedShare(part: nat, total: nat)
    requires 0 < total && part <= total
    ensures part * 100 / total <= 100
    ensures (part * 100 / total) * total <= 100 * part < (part * 100 / total + 1) * total
  {
    var a := part * 100 / total;
    var rem := part * 100 % total;
    assert part * 100 == a * total + rem;
    assert (a + 1) * total == a * total + total;
    assert a * total <= 100 * total by {
      assert a * total <= part * 100;
      assert part * 100 <= 100 * total by { MulLeq(part, total, 100); }
    }
    MulCancel(a, 100, total);
  }

  lemma MulLeq(x: nat, y: nat, k: nat)
    requires x <= y
    ensures x * k <= y * k
  {
    assert y * k - x * k == (y - x) * k;
  }

  /** Dividing both sides of `a * n <= b * n` by a positive `n`. */
  lemma MulCancel(a: int, b: int, n: int)
    requires n > 0 && a * n <= b * n
    ensures a <= b
  {
    assert (b - a) * n >= 0 by { assert (b - a) * n == b * n - a * n; }
    if a > b {
      assert (a - b) * n > 0 by { MulPositive(a - b, n); }
    }
  }

  lemma MulPositive(x: int, y: int)
    requires x > 0 && y > 0
    ensures x * y > 0
  {
  }

  /** The percentages of `calculate_vote_percentage` for given counts:
      (0, 0) without votes, otherwise each count's share of the total,
      truncated. `int(x / total * 100)` on floats is modelled by exact
      integer division. */
  function Percentages(up: nat, down: nat): (r: (nat, nat))
    ensures up + down == 0 ==> r == (0, 0)
    ensures up + down > 0 ==> r == (100 * up / (up + down), 100 * down / (up + down))
    ensures r.0 <= 100 && r.1 <= 100
    ensures up + down > 0 ==> 99 <= r.0 + r.1 <= 100
    ensures up + down > 0 ==>
      r.0 * (up + down) <= 100 * up < (r.0 + 1) * (up + down)
    ensures up + down > 0 ==>
      r.1 * (up + down) <= 100 * down < (r.1 + 1) * (up + down)
  {
    var total := up + down;
    if total == 0 then (0, 0)
    else
      TruncatedSharesSum(up, down);
      TruncatedShare(up, total);
      TruncatedShare(down, total);
      (100 * up / total, 100 * down / total)
  }

  /** `calculate_vote_percentage`: (0, 0) when no one has a sentiment vote
      on `q`, otherwise the truncated percentages of up and down votes among
      the users in the ledger. */
  function CalculateVotePercentage(t: seq<SentimentVote>, q: QuestionId): (r: (nat, nat))
    requires UniquePairs(t)
    ensures |Ledger(t, q)| == 0 ==> r == (0, 0)
    ensures |Ledger(t, q)| > 0 ==>
      r == (100 * UpVoteCount(t, q) / |Ledger(t, q)|, 100 * DownVoteCount(t, q) / |Ledger(t, q)|)
    ensures r.0 <= 100 && r.1 <= 100
    ensures |Ledger(t, q)| > 0 ==> 99 <= r.0 + r.1 <= 100
  {
    var up := UpVoteCount(t, q);
    var down := DownVoteCount(t, q);
    assert up + down == |Ledger(t, q)| by {
      CountsCoverLedger(t, q);
    }
    Percentages(up, down)
  }
}
