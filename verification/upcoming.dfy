/**
 * The split of the auction page (frontend/src/app/Auctions/items.tsx)
 * into one featured upcoming artifact and the remaining cards: the
 * fetched artifacts are copied and sorted by auction start, the first one
 * whose start is still ahead of the clock is featured, and every artifact
 * whose id differs from the featured one's stays in the list, in sorted
 * order.
 *
 * Start dates are whole epoch milliseconds. The sort is the stable sort
 * JavaScript's Array.prototype.sort performs with a comparator that
 * subtracts start times; the input is a value, so sorting a copy leaves
 * it as it was.
 */
module Upcoming {
  import opened Wrappers

  datatype Artifact = Artifact(
    id: int,
    name: string,
    description: string,
    image: string,
    start: int,
    startingPrice: real)

  predicate SortedByStart(s: seq<Artifact>) {
    forall i, j :: 0 <= i < j < |s| ==> s[i].start <= s[j].start
  }

  /** The artifacts of `s` whose auction starts at `k`, in the order of `s`. */
  function StartingAt(s: seq<Artifact>, k: int): (r: seq<Artifact>)
    decreases |s|
  {
    if s == [] then [] else (if s[0].start == k then [s[0]] else []) + StartingAt(s[1..], k)
  }

  lemma {:induction false} StartingAtMembers(s: seq<Artifact>, k: int)
    ensures forall a :: a in StartingAt(s, k) <==> a in s && a.start == k
    decreases |s|
  {
    if s != [] {
      StartingAtMembers(s[1..], k);
      assert s == [s[0]] + s[1..];
    }
  }

  /** Putting an artifact that starts no later than the head in front keeps a list sorted. */
  lemma SortedCons(y: Artifact, t: seq<Artifact>)
    requires SortedByStart(t) && (t == [] || y.start <= t[0].start)
    ensures SortedByStart([y] + t)
  {
    var r := [y] + t;
    forall i, j | 0 <= i < j < |r|
      ensures r[i].start <= r[j].start
    {
      assert r[j] == t[j - 1];
      if i > 0 {
        assert r[i] == t[i - 1];
      }
    }
  }

  /**
   * Places `x`, which came before every element of `s` in the input,
   * ahead of the first element that does not start earlier than it.
   */
  function Insert(x: Artifact, s: seq<Artifact>): (r: seq<Artifact>)
    requires SortedByStart(s)
    ensures SortedByStart(r)
    ensures multiset(r) == multiset(s) + multiset{x}
    ensures r[0] == x || (s != [] && r[0] == s[0])
    decreases |s|
  {
    if s == [] || x.start <= s[0].start then
      SortedCons(x, s);
      [x] + s
    else
      var rest := Insert(x, s[1..]);
      SortedCons(s[0], rest);
      assert s == [s[0]] + s[1..];
      [s[0]] + rest
  }

  /**
   * `[...data].sort((a, b) => start(a) - start(b))`: a sorted permutation
   * of the fetched artifacts.
   */
  function SortByStart(s: seq<Artifact>): (r: seq<Artifact>)
    ensures SortedByStart(r)
    ensures multiset(r) == multiset(s)
    decreases |s|
  {
    if s == [] then []
    else
      assert s == [s[0]] + s[1..];
      Insert(s[0], SortByStart(s[1..]))
  }

  /** Sorting neither adds nor loses an artifact. */
  lemma SortKeepsMembers(s: seq<Artifact>)
    ensures forall a :: a in SortByStart(s) <==> a in s
  {
    var r := SortByStart(s);
    forall a ensures a in r <==> a in s {
      assert a in r <==> a in multiset(r);
      assert a in s <==> a in multiset(s);
    }
  }

  lemma {:induction false} StartingAtAppend(a: seq<Artifact>, b: seq<Artifact>, k: int)
    ensures StartingAt(a + b, k) == StartingAt(a, k) + StartingAt(b, k)
    decreases |a|
  {
    if a == [] {
      assert a + b == b;
    } else {
      assert (a + b)[1..] == a[1..] + b;
      StartingAtAppend(a[1..], b, k);
    }
  }

  lemma StartingAtSingle(x: Artifact, k: int)
    ensures StartingAt([x], k) == if x.start == k then [x] else []
  {
    assert [x][1..] == [];
  }

  /** Inserting `x` puts it ahead of the artifacts that start at the same time. */
  lemma {:induction false} InsertKeepsTies(x: Artifact, s: seq<Artifact>, k: int)
    requires SortedByStart(s)
    ensures StartingAt(Insert(x, s), k) == (if x.start == k then [x] else []) + StartingAt(s, k)
    decreases |s|
  {
    if s == [] || x.start <= s[0].start {
      StartingAtAppend([x], s, k);
      StartingAtSingle(x, k);
    } else {
      var rest := Insert(x, s[1..]);
      assert Insert(x, s) == [s[0]] + rest;
      InsertKeepsTies(x, s[1..], k);
      StartingAtAppend([s[0]], rest, k);
      assert s == [s[0]] + s[1..];
      StartingAtAppend([s[0]], s[1..], k);
      StartingAtSingle(s[0], k);
    }
  }

  /**
   * The sort is stable: artifacts that start at the same time keep the
   * order they were fetched in.
   */
  lemma {:induction false} SortIsStable(s: seq<Artifact>, k: int)
    ensures StartingAt(SortByStart(s), k) == StartingAt(s, k)
    decreases |s|
  {
    if s != [] {
      SortIsStable(s[1..], k);
      InsertKeepsTies(s[0], SortByStart(s[1..]), k);
    }
  }

  lemma SameTiesSameEmptiness(r1: seq<Artifact>, r2: seq<Artifact>)
    requires forall k :: StartingAt(r1, k) == StartingAt(r2, k)
    ensures r1 != [] ==> r2 != []
  {
    if r1 != [] {
      assert StartingAt(r1, r1[0].start) == [r1[0]] + StartingAt(r1[1..], r1[0].start);
    }
  }

  /** No artifact of a sorted list starts before its head. */
  lemma HeadStartsFirst(r: seq<Artifact>, k: int)
    requires SortedByStart(r) && r != [] && StartingAt(r, k) != []
    ensures r[0].start <= k
  {
    StartingAtMembers(r, k);
    var a := StartingAt(r, k)[0];
    assert a in StartingAt(r, k);
    var i :| 0 <= i < |r| && r[i] == a;
  }

  /** Removing the head of a list removes it from the front of its tie group only. */
  lemma StartingAtTail(r: seq<Artifact>, k: int)
    requires r != []
    ensures StartingAt(r[1..], k) == StartingAt(r, k)[(if r[0].start == k then 1 else 0)..]
  {
  }

  /**
   * Two sorted arrangements that agree on the order within every start
   * time are the same arrangement.
   */
  lemma {:induction false} SortedWithSameTiesEqual(r1: seq<Artifact>, r2: seq<Artifact>)
    requires SortedByStart(r1) && SortedByStart(r2)
    requires forall k :: StartingAt(r1, k) == StartingAt(r2, k)
    ensures r1 == r2
    decreases |r1|
  {
    SameTiesSameEmptiness(r1, r2);
    SameTiesSameEmptiness(r2, r1);
    if r1 != [] {
      var m1, m2 := r1[0].start, r2[0].start;
      assert StartingAt(r1, m1) == [r1[0]] + StartingAt(r1[1..], m1);
      assert StartingAt(r2, m2) == [r2[0]] + StartingAt(r2[1..], m2);
      HeadStartsFirst(r1, m2);
      HeadStartsFirst(r2, m1);
      assert r1[0] == StartingAt(r1, m1)[0] == StartingAt(r2, m1)[0] == r2[0];
      forall k
        ensures StartingAt(r1[1..], k) == StartingAt(r2[1..], k)
      {
        StartingAtTail(r1, k);
        StartingAtTail(r2, k);
      }
      SortedWithSameTiesEqual(r1[1..], r2[1..]);
      assert r1 == [r1[0]] + r1[1..];
      assert r2 == [r2[0]] + r2[1..];
    }
  }

  /**
   * SortByStart is the one sorted arrangement of the fetched artifacts
   * that keeps ties in fetched order: what any stable sort by start time
   * produces.
   */
  lemma SortIsTheStableSort(s: seq<Artifact>, r: seq<Artifact>)
    requires SortedByStart(r)
    requires forall k :: StartingAt(r, k) == StartingAt(s, k)
    ensures r == SortByStart(s)
  {
    forall k
      ensures StartingAt(r, k) == StartingAt(SortByStart(s), k)
    {
      SortIsStable(s, k);
    }
    SortedWithSameTiesEqual(r, SortByStart(s));
  }

  /**
   * `sorted.find(a => start(a) > now) || null`: the first artifact whose
   * auction has not started yet, or None when every one has.
   */
  function FindUpcoming(s: seq<Artifact>, now: int): (r: Option<Artifact>)
    ensures r.None? <==> forall a :: a in s ==> a.start <= now
    ensures r.Some? ==> exists i :: (0 <= i < |s| && s[i] == r.value && r.value.start > now
      && forall j :: 0 <= j < i ==> s[j].start <= now)
    decreases |s|
  {
    if s == [] then None
    else if s[0].start > now then Some(s[0])
    else
      var r := FindUpcoming(s[1..], now);
      assert s == [s[0]] + s[1..];
      if r.Some? then
        var i :| 0 <= i < |s[1..]| && s[1..][i] == r.value && r.value.start > now
          && forall j :: 0 <= j < i ==> s[1..][j].start <= now;
        assert s[i + 1] == r.value;
        r
      else
        r
  }

  /**
   * `sorted.filter(a => a._id !== id)`: the artifacts whose id differs from
   * `id`, in their order.
   */
  function RemoveId(s: seq<Artifact>, id: int): (r: seq<Artifact>)
    ensures forall a :: a in r <==> a in s && a.id != id
    ensures forall a :: multiset(r)[a] == if a.id != id then multiset(s)[a] else 0
    ensures IsSubsequence(r, s)
    ensures SortedByStart(s) ==> SortedByStart(r)
    decreases |s|
  {
    if s == [] then []
    else
      assert s == [s[0]] + s[1..];
      if s[0].id == id then RemoveId(s[1..], id)
      else [s[0]] + RemoveId(s[1..], id)
  }

  /** The artifacts of `s` with id `id`, in their order. */
  function KeepId(s: seq<Artifact>, id: int): (r: seq<Artifact>)
    ensures forall a :: a in r <==> a in s && a.id == id
    decreases |s|
  {
    if s == [] then []
    else if s[0].id == id then [s[0]] + KeepId(s[1..], id)
    else KeepId(s[1..], id)
  }

  /** With no artifact of that id, nothing is kept. */
  lemma {:induction false} KeepIdAbsent(s: seq<Artifact>, id: int)
    requires forall a :: a in s ==> a.id != id
    ensures KeepId(s, id) == []
    decreases |s|
  {
    if s != [] {
      KeepIdAbsent(s[1..], id);
    }
  }

  /** `r` is `s` with some elements left out and the rest in their order. */
  predicate IsSubsequence(r: seq<Artifact>, s: seq<Artifact>)
    decreases |s|
  {
    if s == [] then r == []
    else (r != [] && r[0] == s[0] && IsSubsequence(r[1..], s[1..])) || IsSubsequence(r, s[1..])
  }

  lemma {:induction false} SubsequenceOfItself(s: seq<Artifact>)
    ensures IsSubsequence(s, s)
    decreases |s|
  {
    if s != [] {
      SubsequenceOfItself(s[1..]);
    }
  }

  datatype Split = Split(upcoming: Option<Artifact>, remaining: seq<Artifact>)

  /**
   * The effect of ArtifactsAuctionPage: the featured artifact and the
   * cards below it. When nothing is upcoming, `nextArtifact?._id` is
   * undefined, no id equals it, and every artifact stays.
   */
  function SplitUpcoming(data: seq<Artifact>, now: int): (r: Split)
    ensures r.upcoming.None? <==> forall a :: a in data ==> a.start <= now
    ensures r.upcoming.None? ==> r.remaining == SortByStart(data)
    ensures SortedByStart(r.remaining)
    ensures IsSubsequence(r.remaining, SortByStart(data))
    ensures forall a :: a in r.remaining <==>
      a in data && (r.upcoming.Some? ==> a.id != r.upcoming.value.id)
    ensures forall a :: (multiset(r.remaining)[a] ==
      if r.upcoming.None? || a.id != r.upcoming.value.id then multiset(data)[a] else 0)
  {
    var sorted := SortByStart(data);
    SortKeepsMembers(data);
    var next := FindUpcoming(sorted, now);
    match next
    case None =>
      SubsequenceOfItself(sorted);
      Split(None, sorted)
    case Some(a) => Split(next, RemoveId(sorted, a.id))
  }

  /**
   * The featured artifact is one whose auction is still ahead and no
   * fetched auction that is still ahead starts earlier: it is the
   * earliest future auction.
   */
  lemma UpcomingIsEarliestFuture(data: seq<Artifact>, now: int)
    requires SplitUpcoming(data, now).upcoming.Some?
    ensures var a := SplitUpcoming(data, now).upcoming.value;
      a in data && a.start > now
      && forall b :: b in data && b.start > now ==> a.start <= b.start
  {
    var sorted := SortByStart(data);
    SortKeepsMembers(data);
    assert SplitUpcoming(data, now).upcoming == FindUpcoming(sorted, now);
    FirstFutureIsEarliest(sorted, now);
  }

  /** In a sorted list, the first artifact still ahead starts no later than any other still ahead. */
  lemma FirstFutureIsEarliest(sorted: seq<Artifact>, now: int)
    requires SortedByStart(sorted) && FindUpcoming(sorted, now).Some?
    ensures forall b :: b in sorted && b.start > now ==> FindUpcoming(sorted, now).value.start <= b.start
  {
    var a := FindUpcoming(sorted, now).value;
    var i :| 0 <= i < |sorted| && sorted[i] == a && a.start > now
      && forall j :: 0 <= j < i ==> sorted[j].start <= now;
    forall b | b in sorted && b.start > now
      ensures a.start <= b.start
    {
      var j :| 0 <= j < |sorted| && sorted[j] == b;
      assert i <= j;
    }
  }

  /** The first element starting at `k` is the first one in the whole list at `k`. */
  lemma {:induction false} StartingAtHead(s: seq<Artifact>, i: nat)
    requires i < |s|
    requires forall j :: 0 <= j < i ==> s[j].start != s[i].start
    ensures StartingAt(s, s[i].start) != [] && StartingAt(s, s[i].start)[0] == s[i]
    decreases i
  {
    if i > 0 {
      StartingAtHead(s[1..], i - 1);
    }
  }

  /**
   * Among artifacts that start at the same moment, the featured one is the
   * one fetched first: ties are settled by the order of the fetched list.
   */
  lemma UpcomingTieBreak(data: seq<Artifact>, now: int)
    requires SplitUpcoming(data, now).upcoming.Some?
    ensures var a := SplitUpcoming(data, now).upcoming.value;
      StartingAt(data, a.start) != [] && StartingAt(data, a.start)[0] == a
  {
    var sorted := SortByStart(data);
    var a := FindUpcoming(sorted, now).value;
    var i :| 0 <= i < |sorted| && sorted[i] == a && a.start > now
      && forall j :: 0 <= j < i ==> sorted[j].start <= now;
    StartingAtHead(sorted, i);
    SortIsStable(data, a.start);
  }

  predicate UniqueIds(s: seq<Artifact>) {
    forall i, j :: 0 <= i < j < |s| ==> s[i].id != s[j].id
  }

  /** Filtering by id splits the list, as a multiset, into the kept and the removed artifacts. */
  lemma SplitById(s: seq<Artifact>, id: int)
    ensures multiset(s) == multiset(RemoveId(s, id)) + multiset(KeepId(s, id))
  {
    forall x
      ensures multiset(s)[x] == multiset(RemoveId(s, id))[x] + multiset(KeepId(s, id))[x]
    {
      KeepIdCounts(s, id, x);
    }
  }

  /** How often an artifact occurs among those with a given id depends only on the multiset. */
  lemma {:induction false} KeepIdCounts(s: seq<Artifact>, id: int, x: Artifact)
    ensures multiset(KeepId(s, id))[x] == if x.id == id then multiset(s)[x] else 0
    decreases |s|
  {
    if s != [] {
      KeepIdCounts(s[1..], id, x);
      assert s == [s[0]] + s[1..];
    }
  }

  /** With unique ids, at most one artifact carries a given id. */
  lemma {:induction false} KeepIdAtMostOne(s: seq<Artifact>, id: int)
    requires UniqueIds(s)
    ensures |KeepId(s, id)| <= 1
    decreases |s|
  {
    if s != [] {
      assert UniqueIds(s[1..]) by {
        forall i, j | 0 <= i < j < |s[1..]| ensures s[1..][i].id != s[1..][j].id {
          assert s[1..][i] == s[i + 1] && s[1..][j] == s[j + 1];
        }
      }
      KeepIdAtMostOne(s[1..], id);
      if s[0].id == id {
        forall a | a in s[1..] ensures a.id != id {
          var j :| 0 <= j < |s[1..]| && s[1..][j] == a;
          assert s[j + 1] == a;
        }
        KeepIdAbsent(s[1..], id);
      }
    }
  }

  /** Rearranging a list does not change which artifacts carry a given id. */
  lemma KeepIdOfPermutation(s1: seq<Artifact>, s2: seq<Artifact>, id: int)
    requires multiset(s1) == multiset(s2)
    ensures multiset(KeepId(s1, id)) == multiset(KeepId(s2, id))
  {
    forall x
      ensures multiset(KeepId(s1, id))[x] == multiset(KeepId(s2, id))[x]
    {
      KeepIdCounts(s1, id, x);
      KeepIdCounts(s2, id, x);
    }
  }

  /** With unique ids, an artifact is the only one that carries its id. */
  lemma KeepUniqueId(data: seq<Artifact>, a: Artifact)
    requires UniqueIds(data) && a in data
    ensures KeepId(data, a.id) == [a]
  {
    KeepIdAtMostOne(data, a.id);
    assert a in KeepId(data, a.id);
  }

  /**
   * Filtering out the id of an artifact whose id is unique removes exactly
   * that artifact, also after the list has been rearranged.
   */
  lemma RemoveUniqueId(data: seq<Artifact>, sorted: seq<Artifact>, a: Artifact)
    requires UniqueIds(data) && multiset(sorted) == multiset(data) && a in sorted
    ensures multiset(sorted) == multiset(RemoveId(sorted, a.id)) + multiset{a}
  {
    SplitById(sorted, a.id);
    KeepIdOfPermutation(sorted, data, a.id);
    assert a in multiset(data);
    KeepUniqueId(data, a);
    assert multiset(KeepId(sorted, a.id)) == multiset([a]) == multiset{a};
  }

  /**
   * With unique ids every fetched artifact is shown exactly once: either
   * as the featured one or among the remaining cards.
   */
  lemma EachArtifactShownOnce(data: seq<Artifact>, now: int)
    requires UniqueIds(data)
    ensures var r := SplitUpcoming(data, now);
      multiset(data) == multiset(r.remaining)
        + (if r.upcoming.Some? then multiset{r.upcoming.value} else multiset{})
  {
    var sorted := SortByStart(data);
    var found := FindUpcoming(sorted, now);
    if found.Some? {
      var a := found.value;
      assert SplitUpcoming(data, now) == Split(found, RemoveId(sorted, a.id));
      RemoveUniqueId(data, sorted, a);
    } else {
      assert SplitUpcoming(data, now) == Split(None, sorted);
    }
  }
}
