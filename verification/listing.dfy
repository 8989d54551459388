/** The three read-only pages of the polls app: the home page
    (`HomeView.get_context_data`), the index page (`IndexView.get_queryset`)
    and the detail page (`DetailView.get_queryset`). The question table is a
    sequence in database order; `now` is the request's clock reading. */
module Listing {
  import opened Wrappers
  import opened Polls

  /** How many questions the home and index pages show. */
  const PageSize: nat := 5

  /* ---------------------------------------------------------------------- */
  /* Filtering                                                              */
  /* ---------------------------------------------------------------------- */

  /** The conditions the pages filter questions by. */
  datatype Criterion =
    | PublishedAt(now: Time)       // `pub_date__lte=now`, `is_published()`
    | VotableAt(now: Time)         // `can_vote()`
    | NoEndDate                    // `end_date is None`
    | Both(first: Criterion, second: Criterion)

  predicate Meets(q: Question, c: Criterion) {
    match c
    case PublishedAt(now) => IsPublished(q, now)
    case VotableAt(now) => CanVote(q, now)
    case NoEndDate => q.endDate.None?
    case Both(c1, c2) => Meets(q, c1) && Meets(q, c2)
  }

  /** The questions meeting `c`, in their original order. */
  function Filter(s: seq<Question>, c: Criterion): (r: seq<Question>)
    ensures |r| <= |s|
    ensures forall x :: x in r <==> x in s && Meets(x, c)
    ensures forall x :: multiset(r)[x] == if Meets(x, c) then multiset(s)[x] else 0
    ensures multiset(r) <= multiset(s)
  {
    if |s| == 0 then []
    else
      var rest := Filter(s[1..], c);
      assert s == [s[0]] + s[1..];
      FilterStep(s[0], s[1..], rest, c);
      if Meets(s[0], c) then [s[0]] + rest else rest
  }

  /** One step of `Filter`: keeping or dropping the head keeps every count
      right. */
  lemma FilterStep(h: Question, t: seq<Question>, rt: seq<Question>, c: Criterion)
    requires forall x :: multiset(rt)[x] == if Meets(x, c) then multiset(t)[x] else 0
    ensures var r := if Meets(h, c) then [h] + rt else rt;
      forall x :: multiset(r)[x] == if Meets(x, c) then multiset([h] + t)[x] else 0
  {
    assert multiset([h] + t) == multiset{h} + multiset(t);
    assert multiset([h] + rt) == multiset{h} + multiset(rt);
  }

  /** Filtering twice is filtering once with both conditions. */
  lemma {:induction false} FilterFilter(s: seq<Question>, c1: Criterion, c2: Criterion)
    ensures Filter(Filter(s, c1), c2) == Filter(s, Both(c1, c2))
  {
    if |s| > 0 {
      FilterFilter(s[1..], c1, c2);
    }
  }

  /** Filters by equivalent conditions agree. */
  lemma {:induction false} FilterEquivalent(s: seq<Question>, c1: Criterion, c2: Criterion)
    requires forall x :: Meets(x, c1) <==> Meets(x, c2)
    ensures Filter(s, c1) == Filter(s, c2)
  {
    if |s| > 0 {
      FilterEquivalent(s[1..], c1, c2);
      assert Meets(s[0], c1) <==> Meets(s[0], c2);
    }
  }

  /** `Question.objects.filter(pub_date__lte=now)`. */
  function Published(all: seq<Question>, now: Time): (r: seq<Question>)
    ensures forall x :: x in r <==> x in all && IsPublished(x, now)
    ensures multiset(r) <= multiset(all)
  {
    Filter(all, PublishedAt(now))
  }

  /* ---------------------------------------------------------------------- */
  /* Newest first                                                           */
  /* ---------------------------------------------------------------------- */

  /** Ordered by publication date, latest first (`order_by("-pub_date")`,
      `sorted(..., key=pub_date, reverse=True)`). */
  predicate NewestFirst(s: seq<Question>) {
    forall i, j :: 0 <= i < j < |s| ==> s[i].pubDate >= s[j].pubDate
  }

  /** Where `x` goes: in front of the first question not newer than it. */
  function InsertPos(x: Question, s: seq<Question>): (k: nat)
    ensures k <= |s|
    ensures forall i :: 0 <= i < k ==> s[i].pubDate > x.pubDate
    ensures k < |s| ==> s[k].pubDate <= x.pubDate
  {
    if |s| == 0 || s[0].pubDate <= x.pubDate then 0 else 1 + InsertPos(x, s[1..])
  }

  /** Inserts `x` into a newest-first list, keeping it newest first. */
  function Insert(x: Question, s: seq<Question>): (r: seq<Question>)
    requires NewestFirst(s)
    ensures NewestFirst(r)
    ensures multiset(r) == multiset(s) + multiset{x}
  {
    var k := InsertPos(x, s);
    InsertAtPos(x, s, k);
    s[..k] + [x] + s[k..]
  }

  lemma InsertAtPos(x: Question, s: seq<Question>, k: nat)
    requires NewestFirst(s) && k <= |s|
    requires forall i :: 0 <= i < k ==> s[i].pubDate > x.pubDate
    requires k < |s| ==> s[k].pubDate <= x.pubDate
    ensures NewestFirst(s[..k] + [x] + s[k..])
    ensures multiset(s[..k] + [x] + s[k..]) == multiset(s) + multiset{x}
  {
    assert s == s[..k] + s[k..];
    InsertAtPosSorted(x, s, k);
  }

  lemma InsertAtPosSorted(x: Question, s: seq<Question>, k: nat)
    requires NewestFirst(s) && k <= |s|
    requires forall i :: 0 <= i < k ==> s[i].pubDate > x.pubDate
    requires k < |s| ==> s[k].pubDate <= x.pubDate
    ensures NewestFirst(s[..k] + [x] + s[k..])
  {
    var r := s[..k] + [x] + s[k..];
    forall i, j | 0 <= i < j < |r|
      ensures r[i].pubDate >= r[j].pubDate
    {
      var pi := if i < k then s[i].pubDate else if i == k then x.pubDate else s[i - 1].pubDate;
      var pj := if j < k then s[j].pubDate else if j == k then x.pubDate else s[j - 1].pubDate;
      assert r[i].pubDate == pi;
      assert r[j].pubDate == pj;
      if i == k {
        assert s[k].pubDate >= s[j - 1].pubDate;
      }
    }
  }

  /** The questions reordered latest first. */
  function SortNewestFirst(s: seq<Question>): (r: seq<Question>)
    ensures NewestFirst(r)
    ensures multiset(r) == multiset(s)
  {
    if |s| == 0 then []
    else
      assert s == [s[0]] + s[1..];
      Insert(s[0], SortNewestFirst(s[1..]))
  }

  /** Python's `s[:n]`. */
  function Take(s: seq<Question>, n: nat): (r: seq<Question>)
    ensures |r| == if |s| < n then |s| else n
    ensures r == s[..|r|]
  {
    if |s| <= n then s else s[..n]
  }

  /** A prefix of a newest-first list is newest first, holds only members
      of the list, and holds every member newer than its own last element. */
  lemma PrefixOfNewestFirst(s: seq<Question>, n: nat)
    requires NewestFirst(s) && n <= |s|
    ensures NewestFirst(s[..n])
    ensures multiset(s[..n]) <= multiset(s)
    ensures forall x :: x in s[..n] ==> x in s
    ensures forall x :: x in s && 0 < n && x.pubDate > s[n - 1].pubDate ==> x in s[..n]
  {
    assert s == s[..n] + s[n..];
    forall x | x in s && 0 < n && x.pubDate > s[n - 1].pubDate
      ensures x in s[..n]
    {
      var j :| 0 <= j < |s| && s[j] == x;
      assert s[..n][j] == x;
    }
  }

  /** A permutation has the same length and the same members. */
  lemma PermutationMembers(s: seq<Question>, t: seq<Question>)
    requires multiset(s) == multiset(t)
    ensures |s| == |t|
    ensures forall x :: x in s <==> x in t
  {
    assert |s| == |multiset(s)|;
    assert forall x :: x in s <==> x in multiset(s);
    assert forall x :: x in t <==> x in multiset(t);
  }

  /** `r` leaves out no question of `s` newer than its own last one; when
      `r` is shorter than a page, it leaves out nothing at all. */
  predicate NoNewerLeftOut(s: seq<Question>, r: seq<Question>) {
    forall x :: (x in s && (|r| < PageSize || x.pubDate > r[|r| - 1].pubDate)) ==> x in r
  }

  /** The first `PageSize` questions of `s` once sorted latest first: as
      many as there are, up to the page size, newest first, and no question
      of `s` left off that is newer than the last one shown. */
  function Page(s: seq<Question>): (r: seq<Question>)
    ensures |r| == if |s| < PageSize then |s| else PageSize
    ensures NewestFirst(r)
    ensures multiset(r) <= multiset(s)
    ensures forall x :: x in r ==> x in s
    ensures NoNewerLeftOut(s, r)
  {
    var sorted := SortNewestFirst(s);
    PermutationMembers(sorted, s);
    var r := Take(sorted, PageSize);
    PrefixOfNewestFirst(sorted, |r|);
    assert |r| < PageSize ==> r == sorted;
    r
  }

  lemma SubmultisetTransitive(a: multiset<Question>, b: multiset<Question>, c: multiset<Question>)
    requires a <= b && b <= c
    ensures a <= c
  {
  }

  /* ---------------------------------------------------------------------- */
  /* The pages                                                              */
  /* ---------------------------------------------------------------------- */

  /** `IndexView.get_queryset`: the page of the published questions. */
  function IndexQuestions(all: seq<Question>, now: Time): (r: seq<Question>)
    ensures |r| == if |Published(all, now)| < PageSize then |Published(all, now)| else PageSize
    ensures NewestFirst(r)
    ensures multiset(r) <= multiset(Published(all, now))
    ensures forall x :: x in r ==> x in Published(all, now)
    ensures NoNewerLeftOut(Published(all, now), r)
  {
    Page(Published(all, now))
  }

  /** The index page in terms of the whole table: it lists only published
      questions, each at most as often as it occurs in the table, and leaves
      out no published question newer than the last one it shows. */
  lemma IndexShowsLatestPublished(all: seq<Question>, now: Time, x: Question)
    ensures var r := IndexQuestions(all, now);
      && multiset(r) <= multiset(all)
      && (x in r ==> x in all && IsPublished(x, now))
      && (x in all && IsPublished(x, now) && (|r| < PageSize || x.pubDate > r[|r| - 1].pubDate) ==> x in r)
  {
    var r := IndexQuestions(all, now);
    SubmultisetTransitive(multiset(r), multiset(Published(all, now)), multiset(all));
  }

  /** `DetailView`: the question with that key, looked up among the
      published questions only, so a future question is not found. */
  function DetailObject(all: seq<Question>, id: QuestionId, now: Time): (r: Option<Question>)
    ensures r.Some? <==> exists i :: 0 <= i < |all| && all[i].id == id && IsPublished(all[i], now)
    ensures r.Some? ==> r.value in all && r.value.id == id && IsPublished(r.value, now)
  {
    var published := Published(all, now);
    var r := QuestionById(published, id);
    assert forall i :: 0 <= i < |all| && all[i].id == id && IsPublished(all[i], now) ==>
      all[i] in published;
    r
  }

  /** The context `HomeView` hands to its template. */
  datatype HomeContext = HomeContext(latest: seq<Question>, totalOpenPolls: nat, totalPolls: nat)

  /** The questions the home page counts as open: published and votable. */
  function OpenPolls(all: seq<Question>, now: Time): (r: seq<Question>)
    ensures forall x :: x in r <==> x in all && CanVote(x, now)
    ensures multiset(r) <= multiset(all)
  {
    assert forall x :: Meets(x, Both(PublishedAt(now), VotableAt(now))) <==> CanVote(x, now);
    Filter(all, Both(PublishedAt(now), VotableAt(now)))
  }

  /** `latest_question_list` of the home page: the page of the open polls. */
  function LatestOpenPolls(all: seq<Question>, now: Time): (r: seq<Question>)
    ensures |r| == if |OpenPolls(all, now)| < PageSize then |OpenPolls(all, now)| else PageSize
    ensures NewestFirst(r)
    ensures multiset(r) <= multiset(OpenPolls(all, now))
    ensures forall x :: x in r ==> x in OpenPolls(all, now)
    ensures NoNewerLeftOut(OpenPolls(all, now), r)
  {
    Page(OpenPolls(all, now))
  }

  /** The home page's list in terms of the whole table: only votable
      questions, each at most as often as in the table, and no votable
      question newer than the last one shown left out. */
  lemma HomeShowsLatestOpen(all: seq<Question>, now: Time, x: Question)
    ensures var r := LatestOpenPolls(all, now);
      && multiset(r) <= multiset(all)
      && (x in r ==> x in all && CanVote(x, now))
      && (x in all && CanVote(x, now) && (|r| < PageSize || x.pubDate > r[|r| - 1].pubDate) ==> x in r)
  {
    var r := LatestOpenPolls(all, now);
    SubmultisetTransitive(multiset(r), multiset(OpenPolls(all, now)), multiset(all));
  }

  /** `total_open_polls`: the open polls without an end date, which are
      the votable questions without an end date. */
  lemma OpenWithoutEndDate(all: seq<Question>, now: Time)
    ensures Filter(OpenPolls(all, now), NoEndDate) == Filter(all, Both(VotableAt(now), NoEndDate))
  {
    var open := Both(PublishedAt(now), VotableAt(now));
    FilterFilter(all, open, NoEndDate);
    forall x ensures Meets(x, Both(open, NoEndDate)) <==> Meets(x, Both(VotableAt(now), NoEndDate)) {
      VotableIsOpen(x, now);
    }
    FilterEquivalent(all, Both(open, NoEndDate), Both(VotableAt(now), NoEndDate));
  }

  /** A question meets the home page's open condition exactly when it is
      votable. */
  lemma VotableIsOpen(x: Question, now: Time)
    ensures Meets(x, Both(PublishedAt(now), VotableAt(now))) <==> Meets(x, VotableAt(now))
  {
    if CanVote(x, now) {
      assert IsPublished(x, now);
    }
  }

  /** `HomeView.get_context_data`: the latest open polls, the number of
      votable questions without an end date, and the number of questions. */
  function Home(all: seq<Question>, now: Time): (c: HomeContext)
    ensures c.latest == LatestOpenPolls(all, now)
    ensures c.totalOpenPolls == |Filter(all, Both(VotableAt(now), NoEndDate))|
    ensures c.totalOpenPolls <= |OpenPolls(all, now)| <= c.totalPolls == |all|
  {
    var open := OpenPolls(all, now);
    OpenWithoutEndDate(all, now);
    HomeContext(LatestOpenPolls(all, now), |Filter(open, NoEndDate)|, |all|)
  }

  /** The home page's `is_published() and can_vote()` is just `can_vote()`:
      a votable question is always published. */
  lemma OpenPollsAreVotable(all: seq<Question>, now: Time)
    ensures OpenPolls(all, now) == Filter(all, VotableAt(now))
  {
    forall x ensures Meets(x, Both(PublishedAt(now), VotableAt(now))) <==> Meets(x, VotableAt(now)) {
      VotableIsOpen(x, now);
    }
    FilterEquivalent(all, Both(PublishedAt(now), VotableAt(now)), VotableAt(now));
  }

  /** Every poll the home page lists also qualifies for the index page:
      the open polls are the published ones filtered again. */
  lemma OpenPollsArePublished(all: seq<Question>, now: Time)
    ensures OpenPolls(all, now) == Filter(Published(all, now), VotableAt(now))
    ensures multiset(OpenPolls(all, now)) <= multiset(Published(all, now))
  {
    FilterFilter(all, PublishedAt(now), VotableAt(now));
  }
}
