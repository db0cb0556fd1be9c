/**
 * The result view of src/components/votes/vote-result.tsx: the leading
 * option, the expiry and inactivity badges, and the results breakdown,
 * which sorts the option statistics in place by descending vote count and
 * then colours each row by that row's position in the now sorted array.
 * "Now" is a parameter.
 */
module VoteResult {
  import opened Wrappers
  import opened Seqs

  datatype OptionStat = OptionStat(optionId: string, text: string, votes: int, percentage: int)

  datatype Variant = Default | Compact | Detailed

  /** `CHART_COLORS`. */
  const ChartColors: seq<string> := [
    "#3B82F6", "#EF4444", "#10B981", "#F59E0B", "#8B5CF6",
    "#EC4899", "#06B6D4", "#84CC16", "#F97316", "#6366F1"]

  /** `topOption`: the first option statistic with the most votes, `None` when there are none. */
  function TopOption(stats: seq<OptionStat>): (top: Option<OptionStat>)
    ensures top.None? <==> stats == []
    ensures top.Some? ==>
      exists i :: (0 <= i < |stats| && stats[i] == top.value
              && (forall j :: 0 <= j < |stats| ==> stats[j].votes <= top.value.votes)
              && (forall j :: 0 <= j < i ==> stats[j].votes < top.value.votes))
  {
    if stats == [] then None else Some(FirstMaxOf((o: OptionStat) => o.votes, stats))
  }

  /** `isExpired`: an expiry time is set and lies before `now` (both in milliseconds). */
  predicate IsExpired(expiresAt: Option<int>, now: int) {
    expiresAt.Some? && expiresAt.value < now
  }

  /** Expiry is strict and permanent: never at the expiry instant itself, always at any later one. */
  lemma ExpiryIsPermanent(expiresAt: Option<int>, now: int, later: int)
    ensures expiresAt == Some(now) ==> !IsExpired(expiresAt, now)
    ensures IsExpired(expiresAt, now) && now <= later ==> IsExpired(expiresAt, later)
    ensures expiresAt.None? ==> !IsExpired(expiresAt, later)
  {
  }

  datatype Badges = Badges(expired: bool, inactive: bool)

  /** The header badges of the full view. */
  function HeaderBadges(isActive: bool, expiresAt: Option<int>, now: int): (b: Badges)
    ensures b.expired <==> expiresAt.Some? && expiresAt.value < now
    ensures b.inactive <==> !isActive && !(expiresAt.Some? && expiresAt.value < now)
    ensures !(b.expired && b.inactive)
  {
    var expired := IsExpired(expiresAt, now);
    Badges(expired, !isActive && !expired)
  }

  /** At most one badge shows; an active poll shows one only when it has expired. */
  lemma BadgesExclusive(isActive: bool, expiresAt: Option<int>, now: int)
    ensures var b := HeaderBadges(isActive, expiresAt, now); !(b.expired && b.inactive)
    ensures isActive ==> !HeaderBadges(isActive, expiresAt, now).inactive
    ensures expiresAt.None? ==> !HeaderBadges(isActive, expiresAt, now).expired
    ensures HeaderBadges(isActive, expiresAt, now).expired || HeaderBadges(isActive, expiresAt, now).inactive
            <==> !isActive || IsExpired(expiresAt, now)
  {
  }

  /** The statistics cards and the breakdown render only in the full variants and only with votes. */
  predicate ShowsBreakdown(variant: Variant, totalVotes: int) {
    variant != Compact && totalVotes > 0
  }

  // ---------------------------------------------------------------------
  // The breakdown sort: `optionStats.sort((a, b) => b.votes - a.votes)`
  // ---------------------------------------------------------------------

  predicate NonIncreasing(s: seq<OptionStat>) {
    forall i, j :: 0 <= i < j < |s| ==> s[i].votes >= s[j].votes
  }

  /** Insert `x` after every element with at least its votes, before the first with fewer. */
  function InsertByVotes(s: seq<OptionStat>, x: OptionStat): (r: seq<OptionStat>)
    ensures |r| == |s| + 1
  {
    if s == [] then [x]
    else if s[0].votes >= x.votes then [s[0]] + InsertByVotes(s[1..], x)
    else [x] + s
  }

  /** Insertion adds `x` and loses nothing. */
  lemma {:induction false} InsertPermutes(s: seq<OptionStat>, x: OptionStat)
    ensures multiset(InsertByVotes(s, x)) == multiset(s) + multiset{x}
  {
    if s != [] {
      assert s == [s[0]] + s[1..];
      if s[0].votes >= x.votes {
        InsertPermutes(s[1..], x);
      }
    }
  }

  /** Insertion adds no element with more votes than the list and `x` already had. */
  lemma {:induction false} InsertBounded(s: seq<OptionStat>, x: OptionStat, bound: int)
    requires forall k :: 0 <= k < |s| ==> s[k].votes <= bound
    requires x.votes <= bound
    ensures forall k :: 0 <= k < |s| + 1 ==> InsertByVotes(s, x)[k].votes <= bound
  {
    if s != [] && s[0].votes >= x.votes {
      InsertBounded(s[1..], x, bound);
    }
  }

  /** Inserting into a sorted list keeps it sorted. */
  lemma {:induction false} InsertKeepsOrder(s: seq<OptionStat>, x: OptionStat)
    requires NonIncreasing(s)
    ensures NonIncreasing(InsertByVotes(s, x))
  {
    if s != [] && s[0].votes >= x.votes {
      var rest := InsertByVotes(s[1..], x);
      InsertKeepsOrder(s[1..], x);
      InsertBounded(s[1..], x, s[0].votes);
      var r := [s[0]] + rest;
      forall i, j | 0 <= i < j < |r| ensures r[i].votes >= r[j].votes {
        assert r[j] == rest[j - 1];
        if i > 0 {
          assert r[i] == rest[i - 1];
        }
      }
    }
  }

  /**
   * Reference definition of the sort: insert each element, in array order,
   * into the sorted prefix. Equal vote counts keep their original order, as
   * the stable `Array.prototype.sort` does.
   */
  function SortByVotes(s: seq<OptionStat>): (r: seq<OptionStat>)
    ensures |r| == |s|
    ensures NonIncreasing(r)
  {
    if s == [] then []
    else
      var sorted := SortByVotes(s[..|s| - 1]);
      InsertKeepsOrder(sorted, s[|s| - 1]);
      InsertByVotes(sorted, s[|s| - 1])
  }

  /** The sort is a permutation. */
  lemma {:induction false} SortPermutes(s: seq<OptionStat>)
    ensures multiset(SortByVotes(s)) == multiset(s)
  {
    if s != [] {
      assert s == s[..|s| - 1] + [s[|s| - 1]];
      SortPermutes(s[..|s| - 1]);
      InsertPermutes(SortByVotes(s[..|s| - 1]), s[|s| - 1]);
    }
  }

  /** In a list whose first element with fewer votes than `x` sits at `j`, `x` goes in at `j`. */
  lemma {:induction false} InsertAt(s: seq<OptionStat>, x: OptionStat, j: nat)
    requires j <= |s|
    requires forall k :: 0 <= k < j ==> s[k].votes >= x.votes
    requires j == |s| || s[j].votes < x.votes
    ensures InsertByVotes(s, x) == s[..j] + [x] + s[j..]
  {
    if j == 0 {
      assert s[..0] + [x] + s[0..] == [x] + s;
    } else {
      var t := s[1..];
      assert forall k :: 0 <= k < j - 1 ==> t[k].votes >= x.votes by {
        forall k | 0 <= k < j - 1 ensures t[k].votes >= x.votes {
          assert t[k] == s[k + 1];
        }
      }
      assert j - 1 == |t| || t[j - 1].votes < x.votes;
      InsertAt(t, x, j - 1);
      assert InsertByVotes(s, x) == [s[0]] + InsertByVotes(t, x) by {
        assert s[0].votes >= x.votes;
      }
      ConsSlices(s, x, j);
    }
  }

  lemma ConsSlices(s: seq<OptionStat>, x: OptionStat, j: nat)
    requires 0 < j <= |s|
    ensures [s[0]] + (s[1..][..j - 1] + [x] + s[1..][j - 1..]) == s[..j] + [x] + s[j..]
  {
    assert s[1..][..j - 1] == s[1..j];
    assert s[1..][j - 1..] == s[j..];
    assert s[..j] == [s[0]] + s[1..j];
  }

  /**
   * One pass of the in-place sort: shift the elements of the sorted prefix
   * `a[..i]` that have fewer votes than `a[i]` one place right and put
   * `a[i]` into the gap.
   */
  method InsertIntoPrefix(a: array<OptionStat>, i: nat)
    requires i < a.Length
    requires NonIncreasing(a[..i])
    modifies a
    ensures a[..i + 1] == InsertByVotes(old(a[..i]), old(a[i]))
    ensures a[i + 1..] == old(a[i + 1..])
  {
    ghost var prev := a[..i];
    var key := a[i];
    var j := OpenGap(a, i);
    a[j] := key;
    PlacedAfterLarger(prev, key, j);
    InsertAt(prev, key, j);
    Reassemble(a[..i + 1], prev, key, j);
  }

  /**
   * The shifting loop: move the elements just before `a[i]` that have fewer
   * votes than it one place right, and return the index of the gap.
   */
  method OpenGap(a: array<OptionStat>, i: nat) returns (j: nat)
    requires i < a.Length
    modifies a
    ensures j <= i
    ensures forall k :: 0 <= k < j ==> a[k] == old(a[k])
    ensures forall k :: j < k <= i ==> a[k] == old(a[k - 1])
    ensures forall k :: i < k < a.Length ==> a[k] == old(a[k])
    ensures forall k :: j <= k < i ==> old(a[k]).votes < old(a[i]).votes
    ensures j > 0 ==> old(a[j - 1]).votes >= old(a[i]).votes
  {
    var key := a[i];
    j := i;
    while j > 0 && a[j - 1].votes < key.votes
      invariant 0 <= j <= i
      invariant forall k :: 0 <= k < j ==> a[k] == old(a[k])
      invariant forall k :: j < k <= i ==> a[k] == old(a[k - 1])
      invariant forall k :: i < k < a.Length ==> a[k] == old(a[k])
      invariant forall k :: j <= k < i ==> old(a[k]).votes < key.votes
      invariant key == old(a[i])
    {
      a[j] := a[j - 1];
      j := j - 1;
    }
  }

  /** In a sorted list, an element with at least `x`'s votes just before `j` bounds all of `s[..j]`. */
  lemma PlacedAfterLarger(s: seq<OptionStat>, x: OptionStat, j: nat)
    requires NonIncreasing(s) && j <= |s|
    requires j > 0 ==> s[j - 1].votes >= x.votes
    ensures forall k :: 0 <= k < j ==> s[k].votes >= x.votes
  {
  }

  lemma Reassemble(b: seq<OptionStat>, prev: seq<OptionStat>, key: OptionStat, j: nat)
    requires j <= |prev| && |b| == |prev| + 1
    requires forall k :: 0 <= k < j ==> b[k] == prev[k]
    requires b[j] == key
    requires forall k :: j < k < |b| ==> b[k] == prev[k - 1]
    ensures b == prev[..j] + [key] + prev[j..]
  {
  }

  /** Sorting in place: afterwards the array holds the reference sort of its old contents. */
  method SortInPlace(a: array<OptionStat>)
    modifies a
    ensures a[..] == SortByVotes(old(a[..]))
  {
    ghost var orig := a[..];
    var i := 0;
    while i < a.Length
      invariant 0 <= i <= a.Length
      invariant a[..i] == SortByVotes(orig[..i])
      invariant a[i..] == orig[i..]
    {
      ghost var before := a[..];
      assert a[i] == orig[i] by {
        assert a[i..][0] == orig[i..][0];
      }
      InsertIntoPrefix(a, i);
      SortSnoc(orig, i);
      assert a[i + 1..] == orig[i + 1..] by {
        assert before[i + 1..] == before[i..][1..];
        assert orig[i + 1..] == orig[i..][1..];
      }
      i := i + 1;
    }
    assert orig[..a.Length] == orig;
  }

  /** Sorting one more element of `s` inserts it into the sorted prefix. */
  lemma SortSnoc(s: seq<OptionStat>, i: nat)
    requires i < |s|
    ensures SortByVotes(s[..i + 1]) == InsertByVotes(SortByVotes(s[..i]), s[i])
  {
    assert s[..i + 1][..i] == s[..i];
  }

  predicate HasVotes(o: OptionStat, v: int) {
    o.votes == v
  }

  /** No element of a list whose votes all lie below `v` has `v` votes. */
  lemma {:induction false} NoneWithVotes(s: seq<OptionStat>, v: int)
    requires forall k :: 0 <= k < |s| ==> s[k].votes < v
    ensures Select(s, (o: OptionStat) => HasVotes(o, v)) == []
  {
    if s != [] {
      NoneWithVotes(s[1..], v);
    }
  }

  /** Inserting into a sorted list puts `x` after every element with the same votes. */
  lemma {:induction false} InsertKeepsTies(s: seq<OptionStat>, x: OptionStat, v: int)
    requires NonIncreasing(s)
    ensures Select(InsertByVotes(s, x), (o: OptionStat) => HasVotes(o, v))
         == Select(s + [x], (o: OptionStat) => HasVotes(o, v))
  {
    var same := (o: OptionStat) => HasVotes(o, v);
    if s == [] {
    } else if s[0].votes >= x.votes {
      InsertKeepsTies(s[1..], x, v);
      SelectCons(s[0], InsertByVotes(s[1..], x), same);
      SelectCons(s[0], s[1..] + [x], same);
      assert s + [x] == [s[0]] + (s[1..] + [x]);
    } else {
      TiesAfterSmaller(s, x, v);
    }
  }

  /** `x` placed before a sorted list whose votes all lie below its own keeps each vote count's order. */
  lemma TiesAfterSmaller(s: seq<OptionStat>, x: OptionStat, v: int)
    requires NonIncreasing(s) && s != [] && s[0].votes < x.votes
    ensures Select([x] + s, (o: OptionStat) => HasVotes(o, v))
         == Select(s + [x], (o: OptionStat) => HasVotes(o, v))
  {
    var same := (o: OptionStat) => HasVotes(o, v);
    SelectAppend(s, [x], same);
    SelectCons(x, s, same);
    SelectCons(x, [], same);
    if x.votes == v {
      NoneWithVotes(s, v);
    }
  }

  /** The sort is stable: the options with any one vote count appear in their original order. */
  lemma {:induction false} SortByVotesStable(s: seq<OptionStat>, v: int)
    ensures Select(SortByVotes(s), (o: OptionStat) => HasVotes(o, v)) == Select(s, (o: OptionStat) => HasVotes(o, v))
  {
    if s != [] {
      var init := s[..|s| - 1];
      var last := s[|s| - 1];
      SortByVotesStable(init, v);
      InsertKeepsTies(SortByVotes(init), last, v);
      SelectAppend(SortByVotes(init), [last], (o: OptionStat) => HasVotes(o, v));
      SelectAppend(init, [last], (o: OptionStat) => HasVotes(o, v));
      assert init + [last] == s;
    }
  }

  // ---------------------------------------------------------------------
  // Row colours
  // ---------------------------------------------------------------------

  predicate UniqueIds(s: seq<OptionStat>) {
    forall i, j :: 0 <= i < j < |s| ==> s[i].optionId != s[j].optionId
  }

  /** `findIndex(o => o.optionId === id)`: the first position with that id, or -1. */
  function FindIndex(s: seq<OptionStat>, id: string): (i: int)
    ensures -1 <= i < |s|
    ensures i >= 0 ==> s[i].optionId == id && forall k :: 0 <= k < i ==> s[k].optionId != id
    ensures i == -1 <==> forall k :: 0 <= k < |s| ==> s[k].optionId != id
  {
    if s == [] then -1
    else if s[0].optionId == id then 0
    else
      var r := FindIndex(s[1..], id);
      if r == -1 then -1 else r + 1
  }

  /**
   * The colour of row `k`: the row looks its option up in the array it is
   * rendering, which by then is the sorted one. The index found is never
   * negative, so JavaScript's `%` and Dafny's agree here.
   */
  function RowColour(s: seq<OptionStat>, k: int): string
    requires 0 <= k < |s|
  {
    ChartColors[FindIndex(s, s[k].optionId) % 10]
  }

  /** The colours of the breakdown rows; with distinct ids row `k` gets colour `k % 10`. */
  function RowColours(s: seq<OptionStat>): (colours: seq<string>)
    ensures |colours| == |s|
    ensures forall k :: 0 <= k < |s| ==> colours[k] == RowColour(s, k)
    ensures UniqueIds(s) ==> forall k :: 0 <= k < |s| ==> colours[k] == ChartColors[k % 10]
  {
    seq(|s|, k requires 0 <= k < |s| => RowColour(s, k))
  }

  /** Inserting an option whose id is new keeps the ids unique. */
  lemma {:induction false} InsertKeepsUniqueIds(s: seq<OptionStat>, x: OptionStat)
    requires UniqueIds(s)
    requires forall k :: 0 <= k < |s| ==> s[k].optionId != x.optionId
    ensures UniqueIds(InsertByVotes(s, x))
  {
    if s != [] && s[0].votes >= x.votes {
      InsertKeepsUniqueIds(s[1..], x);
      InsertPermutes(s[1..], x);
      var rest := InsertByVotes(s[1..], x);
      forall k | 0 <= k < |rest| ensures rest[k].optionId != s[0].optionId {
        assert rest[k] in multiset(s[1..]) + multiset{x};
      }
    }
  }

  /** Sorting does not introduce two rows with the same id. */
  lemma {:induction false} SortKeepsUniqueIds(s: seq<OptionStat>)
    requires UniqueIds(s)
    ensures UniqueIds(SortByVotes(s))
  {
    if s != [] {
      var init := s[..|s| - 1];
      var last := s[|s| - 1];
      SortKeepsUniqueIds(init);
      var sorted := SortByVotes(init);
      SortPermutes(init);
      forall k | 0 <= k < |sorted| ensures sorted[k].optionId != last.optionId {
        assert sorted[k] in multiset(init);
      }
      InsertKeepsUniqueIds(sorted, last);
    }
  }

  /**
   * The breakdown of the full view. With votes it sorts `optionStats` in
   * place and returns each row's colour; the compact variant and a poll
   * without votes leave the array as it was and render no breakdown.
   */
  method RenderBreakdown(optionStats: array<OptionStat>, variant: Variant, totalVotes: int)
    returns (colours: seq<string>)
    modifies optionStats
    ensures ShowsBreakdown(variant, totalVotes) ==>
      optionStats[..] == SortByVotes(old(optionStats[..])) && colours == RowColours(optionStats[..])
    ensures !ShowsBreakdown(variant, totalVotes) ==> optionStats[..] == old(optionStats[..]) && colours == []
  {
    if variant == Compact {
      return [];
    }
    if totalVotes <= 0 {
      return [];
    }
    SortInPlace(optionStats);
    colours := ColourRows(optionStats[..]);
  }

  /** The row loop of the breakdown: each rendered row's colour, in order. */
  method ColourRows(rows: seq<OptionStat>) returns (colours: seq<string>)
    ensures colours == RowColours(rows)
  {
    var k := 0;
    colours := [];
    while k < |rows|
      invariant 0 <= k <= |rows|
      invariant |colours| == k
      invariant forall m :: 0 <= m < k ==> colours[m] == RowColour(rows, m)
    {
      colours := colours + [RowColour(rows, k)];
      k := k + 1;
    }
  }

  /**
   * With distinct option ids, the row with the k-th most votes gets
   * `CHART_COLORS[k % 10]`: colours follow the sorted position, so the
   * leading option is always the first colour.
   */
  lemma ColourFollowsSortedPosition(stats: seq<OptionStat>)
    requires UniqueIds(stats)
    ensures var sorted := SortByVotes(stats);
      forall k :: 0 <= k < |sorted| ==> RowColours(sorted)[k] == ChartColors[k % 10]
    ensures stats != [] ==> RowColours(SortByVotes(stats))[0] == "#3B82F6"
  {
    SortKeepsUniqueIds(stats);
  }
}
