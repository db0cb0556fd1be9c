/**
 * The decision logic of the polls list page, src/app/polls/page.tsx: the
 * search and status filter, the leading option of a poll card with its
 * percentage, and the two header aggregates.
 */
module PollsPage {
  import opened Wrappers
  import opened Strings
  import opened Seqs
  import TextUtils

  datatype PollStatus = Active | Expired | Draft | Archived

  /** The status selector: every status, or one. */
  datatype StatusFilter = All | Only(status: PollStatus)

  datatype PollOption = PollOption(text: string, voteCount: int)

  datatype Poll = Poll(
    title: string, description: Option<string>, status: PollStatus, totalVotes: int, options: seq<PollOption>)

  /** The search test: the lower-cased title or description contains the lower-cased query. */
  predicate MatchesSearch(p: Poll, query: string) {
    Contains(Lower(p.title), Lower(query))
    || (p.description.Some? && Contains(Lower(p.description.value), Lower(query)))
  }

  /** The search ignores case: a query and its lower-cased form match the same polls. */
  lemma SearchIgnoresCase(p: Poll, query: string)
    ensures MatchesSearch(p, query) <==> MatchesSearch(p, Lower(query))
  {
    LowerIdempotent(query);
  }

  /** A title matches a query it contains, whatever the case of either. */
  lemma TitleMatchIgnoresCase(p: Poll)
    requires p.title == "Best Pizza"
    ensures MatchesSearch(p, "PIZZA")
  {
    assert Lower("PIZZA") == "pizza";
    assert Lower(p.title) == "best pizza";
    assert OccursAt(Lower(p.title), "pizza", 5);
  }

  /** Whether a poll survives both filters; an empty query and `All` filter nothing. */
  predicate Keep(p: Poll, query: string, filter: StatusFilter) {
    (query == [] || MatchesSearch(p, query)) && (filter.All? || p.status == filter.status)
  }

  /** The filter effect: narrow by search if the query is non-empty, then by status unless `'all'`. */
  function FilterPolls(polls: seq<Poll>, query: string, filter: StatusFilter): (r: seq<Poll>)
    ensures IsSubsequence(r, polls)
    ensures query == [] && filter == All ==> r == polls
    ensures filter.Only? ==> forall p :: p in r ==> p.status == filter.status
    ensures query != [] ==> forall p :: p in r ==> MatchesSearch(p, query)
    ensures forall p :: p in polls && Keep(p, query, filter) ==> p in r
  {
    var searched := if query != [] then Select(polls, (p: Poll) => MatchesSearch(p, query)) else polls;
    FilterIsSelect(polls, query, filter);
    if filter.Only? then Select(searched, (p: Poll) => p.status == filter.status) else searched
  }

  /** Three polls, two active and one expired: filtering by "expired" keeps just the expired one. */
  lemma StatusFilterExample(a: Poll, b: Poll, c: Poll)
    requires a.status == Active && b.status == Active && c.status == Expired
    ensures FilterPolls([a, b, c], "", Only(Expired)) == [c]
  {
    var keep := (p: Poll) => p.status == Expired;
    SelectCons(a, [b, c], keep);
    SelectCons(b, [c], keep);
    SelectCons(c, [], keep);
    assert [a, b, c] == [a] + [b, c] && [b, c] == [b] + [c] && [c] == [c] + [];
  }

  /** Both filter steps together keep exactly the polls satisfying `Keep`, in order. */
  lemma FilterIsSelect(polls: seq<Poll>, query: string, filter: StatusFilter)
    ensures var searched := if query != [] then Select(polls, (p: Poll) => MatchesSearch(p, query)) else polls;
      (if filter.Only? then Select(searched, (p: Poll) => p.status == filter.status) else searched)
      == Select(polls, (p: Poll) => Keep(p, query, filter))
  {
    var keep := (p: Poll) => Keep(p, query, filter);
    if query != [] {
      if filter.Only? {
        SelectSelect(polls, (p: Poll) => MatchesSearch(p, query), (p: Poll) => p.status == filter.status, keep);
      } else {
        SelectSelect(polls, (p: Poll) => MatchesSearch(p, query), (p: Poll) => true, keep);
        assert Select(polls, (p: Poll) => MatchesSearch(p, query)) == Select(polls, keep) by {
          SelectSame(polls, (p: Poll) => MatchesSearch(p, query), keep);
        }
      }
    } else {
      if filter.Only? {
        SelectSame(polls, (p: Poll) => p.status == filter.status, keep);
      } else {
        SelectSame(polls, (p: Poll) => true, keep);
      }
    }
  }

  /** Filtering by two conditions that agree everywhere gives the same list. */
  lemma {:induction false} SelectSame(s: seq<Poll>, f: Poll -> bool, g: Poll -> bool)
    requires forall x :: f(x) == g(x)
    ensures Select(s, f) == Select(s, g)
  {
    if s != [] {
      SelectSame(s[1..], f, g);
    }
  }

  /** The leading option of a card: the reduce seeded with the first option; `None` when there are no options. */
  function TopOption(options: seq<PollOption>): (top: Option<PollOption>)
    ensures top.None? <==> options == []
    ensures top.Some? ==>
      exists i :: (0 <= i < |options| && options[i] == top.value
              && (forall j :: 0 <= j < |options| ==> options[j].voteCount <= top.value.voteCount)
              && (forall j :: 0 <= j < i ==> options[j].voteCount < top.value.voteCount))
  {
    if options == [] then None else Some(FirstMaxOf((o: PollOption) => o.voteCount, options))
  }

  /** `topOptionPercentage`: the leading option's share of the poll's votes. */
  function TopOptionPercentage(poll: Poll): (pct: int)
    requires poll.options != []
    ensures pct == TextUtils.CalculatePercentage(TopOption(poll.options).value.voteCount, poll.totalVotes)
    ensures poll.totalVotes > 0 && 0 <= TopOption(poll.options).value.voteCount <= poll.totalVotes ==> 0 <= pct <= 100
  {
    var top := TopOption(poll.options).value;
    if 0 <= top.voteCount <= poll.totalVotes then
      TextUtils.PercentageInRange(top.voteCount, poll.totalVotes);
      TextUtils.CalculatePercentage(top.voteCount, poll.totalVotes)
    else
      TextUtils.CalculatePercentage(top.voteCount, poll.totalVotes)
  }

  /** The leading-option preview is rendered only for a poll with votes. */
  predicate ShowsLeadingPreview(poll: Poll) {
    poll.totalVotes > 0
  }

  /** Reference sum of the polls' vote totals. */
  function SumVotes(polls: seq<Poll>): int {
    if polls == [] then 0 else polls[0].totalVotes + SumVotes(polls[1..])
  }

  lemma {:induction false} SumVotesAppend(a: seq<Poll>, b: seq<Poll>)
    ensures SumVotes(a + b) == SumVotes(a) + SumVotes(b)
  {
    if a == [] {
      assert a + b == b;
    } else {
      assert (a + b)[1..] == a[1..] + b;
      SumVotesAppend(a[1..], b);
    }
  }

  /** `polls.reduce((sum, poll) => sum + poll.totalVotes, acc)`, folding from the left. */
  function FoldVotes(acc: int, polls: seq<Poll>): (total: int)
    ensures total == acc + SumVotes(polls)
    decreases |polls|
  {
    if polls == [] then acc else FoldVotes(acc + polls[0].totalVotes, polls[1..])
  }

  /** The header's vote total. */
  function TotalVotes(polls: seq<Poll>): (total: int)
    ensures total == SumVotes(polls)
    ensures (forall i :: 0 <= i < |polls| ==> polls[i].totalVotes >= 0) ==> total >= 0
  {
    NonNegativeSum(polls);
    FoldVotes(0, polls)
  }

  lemma {:induction false} NonNegativeSum(polls: seq<Poll>)
    ensures (forall i :: 0 <= i < |polls| ==> polls[i].totalVotes >= 0) ==> SumVotes(polls) >= 0
  {
    if polls != [] {
      NonNegativeSum(polls[1..]);
      assert forall i :: 0 <= i < |polls[1..]| ==> polls[1..][i] == polls[i + 1];
    }
  }

  /** The header's active-poll count. */
  function ActivePolls(polls: seq<Poll>): (n: nat)
    ensures n <= |polls|
    ensures n == |FilterPolls(polls, "", Only(Active))|
  {
    |Select(polls, (p: Poll) => p.status == Active)|
  }

  /** Adding polls adds their totals and their active polls. */
  lemma AggregatesAppend(a: seq<Poll>, b: seq<Poll>)
    ensures TotalVotes(a + b) == TotalVotes(a) + TotalVotes(b)
    ensures ActivePolls(a + b) == ActivePolls(a) + ActivePolls(b)
  {
    SumVotesAppend(a, b);
    SelectAppend(a, b, (p: Poll) => p.status == Active);
  }
}
