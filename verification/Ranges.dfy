/**
 Byte ranges of a request: validation and normalisation against the content length, then
 sorting and coalescing (section 14.2 of RFC 9110).
 */
module Ranges {
  import opened Common

  const MAX_COUNT: nat := 1024

  /** -1 stands for an absent position. */
  datatype Range = Range(first: int, last: int)

  predicate InContent(r: Range, len: nat) {
    0 <= r.first <= r.last <= len - 1
  }

  /** Fill in absent positions and cut off what lies beyond the content. */
  function Normalise(r: Range, len: nat): Range {
    var a := if r.first == -1 && r.last == -1 then Range(0, len) else r;
    var b := if a.first == -1 then Range(len - a.last, len - 1) else a;
    if b.last == -1 || b.last >= len then Range(b.first, len - 1) else b
  }

  /** The positions a range asks for: everything, the last bytes, or from `first` to `last` or the end. */
  predicate Requested(r: Range, len: nat, p: int) {
    && 0 <= p < len
    && (if r.first == -1 then r.last == -1 || p >= len - r.last
        else r.first <= p && (r.last == -1 || p <= r.last))
  }

  ghost predicate AnyRequested(ranges: seq<Range>, len: nat, p: int) {
    exists i :: 0 <= i < |ranges| && Requested(ranges[i], len, p)
  }

  ghost predicate Covers(ranges: seq<Range>, p: int) {
    exists i :: 0 <= i < |ranges| && ranges[i].first <= p <= ranges[i].last
  }

  predicate AllInContent(ranges: seq<Range>, len: nat) {
    forall i :: 0 <= i < |ranges| ==> InContent(ranges[i], len)
  }

  predicate SortedByStart(ranges: seq<Range>) {
    forall i, j :: 0 <= i < j < |ranges| ==> ranges[i].first <= ranges[j].first
  }

  /** No two neighbours touch. */
  predicate Separated(ranges: seq<Range>) {
    forall i :: 0 <= i < |ranges| - 1 ==> ranges[i].last + 1 < ranges[i + 1].first
  }

  /** One range more: skipped, merged into the last one, or appended. */
  function Absorb(done: seq<Range>, r: Range, len: nat): seq<Range> {
    if !InContent(r, len) then done
    else if done != [] && r.first <= done[|done| - 1].last + 1 && r != done[|done| - 1] then
      var prev := done[|done| - 1];
      done[..|done| - 1] + [Range(prev.first, Max(prev.last, r.last))]
    else done + [r]
  }

  function Coalesce(sorted: seq<Range>, len: nat): seq<Range> {
    if sorted == [] then []
    else Absorb(Coalesce(sorted[..|sorted| - 1], len), Normalise(sorted[|sorted| - 1], len), len)
  }

  lemma CoversOneMore(ranges: seq<Range>, r: Range, p: int)
    ensures Covers(ranges + [r], p) <==> Covers(ranges, p) || r.first <= p <= r.last
  {
    var all := ranges + [r];
    if Covers(ranges, p) {
      var i :| 0 <= i < |ranges| && ranges[i].first <= p <= ranges[i].last;
      assert all[i] == ranges[i];
    }
    if r.first <= p <= r.last {
      assert all[|ranges|] == r;
    }
  }

  /** The last range stands for some input range that ends where it ends and starts no earlier. */
  ghost predicate LastStandsFor(done: seq<Range>, sorted: seq<Range>) {
    done != [] ==>
      exists q :: q in sorted && q.first >= done[|done| - 1].first && q.last == done[|done| - 1].last
  }

  lemma AbsorbKeepsPositions(done: seq<Range>, r: Range, len: nat, p: int)
    requires InContent(r, len)
    requires done != [] ==> done[|done| - 1].first <= r.first
    ensures Covers(Absorb(done, r, len), p) <==> Covers(done, p) || r.first <= p <= r.last
  {
    if Absorb(done, r, len) == done + [r] {
      CoversOneMore(done, r, p);
    } else {
      var front, prev := done[..|done| - 1], done[|done| - 1];
      assert done == front + [prev];
      CoversOneMore(front, prev, p);
      CoversOneMore(front, Range(prev.first, Max(prev.last, r.last)), p);
    }
  }

  /**
   Coalescing validated ranges in any order by start: the result covers exactly the same
   positions, stays within the content and is sorted by start.
   */
  lemma {:induction false} CoalesceKeepsPositions(sorted: seq<Range>, len: nat)
    requires AllInContent(sorted, len) && SortedByStart(sorted)
    ensures var done := Coalesce(sorted, len);
            && AllInContent(done, len) && SortedByStart(done)
            && (forall p :: Covers(done, p) <==> Covers(sorted, p))
            && LastStandsFor(done, sorted)
  {
    hide *;
    if sorted == [] {
      NothingIsCoalesced(len);
    } else {
      var front, r := sorted[..|sorted| - 1], sorted[|sorted| - 1];
      var before := Coalesce(front, len);
      assert sorted == front + [r];
      FrontInContent(front, r, len);
      FrontIsSorted(front, r);
      CoalesceOneMore(front, r, len);
      CoalesceKeepsPositions(front, len);
      LastStartsEarlier(before, front, r);
      AbsorbKeepsOrder(before, front, r, len);
      forall p
        ensures Covers(Coalesce(sorted, len), p) <==> Covers(sorted, p)
      {
        CoversOneMore(front, r, p);
        AbsorbKeepsPositions(before, r, len, p);
      }
    }
  }

  lemma NothingIsCoalesced(len: nat)
    ensures Coalesce([], len) == [] && AllInContent([], len) && SortedByStart([]) && Separated([])
    ensures LastStandsFor([], [])
  {
  }

  lemma CoalesceOneMore(xs: seq<Range>, r: Range, len: nat)
    ensures Coalesce(xs + [r], len) == Absorb(Coalesce(xs, len), Normalise(r, len), len)
  {
    assert (xs + [r])[..|xs|] == xs;
  }

  lemma FrontIsSorted(front: seq<Range>, r: Range)
    requires SortedByStart(front + [r])
    ensures SortedByStart(front)
  {
    assert forall i :: 0 <= i < |front| ==> (front + [r])[i] == front[i];
  }

  lemma FrontInContent(front: seq<Range>, r: Range, len: nat)
    requires AllInContent(front + [r], len)
    ensures AllInContent(front, len) && InContent(r, len) && Normalise(r, len) == r
  {
    assert (front + [r])[|front|] == r;
    assert forall i :: 0 <= i < |front| ==> (front + [r])[i] == front[i];
  }

  lemma LastStartsEarlier(done: seq<Range>, front: seq<Range>, r: Range)
    requires SortedByStart(front + [r]) && LastStandsFor(done, front)
    ensures done != [] ==> done[|done| - 1].first <= r.first
  {
    if done != [] {
      var q :| q in front && q.first >= done[|done| - 1].first && q.last == done[|done| - 1].last;
      var i :| 0 <= i < |front| && front[i] == q;
      assert (front + [r])[i] == q && (front + [r])[|front|] == r;
    }
  }

  lemma AbsorbKeepsOrder(before: seq<Range>, front: seq<Range>, r: Range, len: nat)
    requires InContent(r, len) && AllInContent(before, len) && SortedByStart(before)
    requires before != [] ==> before[|before| - 1].first <= r.first
    requires LastStandsFor(before, front)
    ensures var done := Absorb(before, r, len);
            AllInContent(done, len) && SortedByStart(done) && LastStandsFor(done, front + [r])
  {
    var done := Absorb(before, r, len);
    assert r in front + [r];
    if done != before + [r] {
      var prev := before[|before| - 1];
      var q :| q in front && q.first >= prev.first && q.last == prev.last;
      assert q in front + [r];
    }
  }

  ghost predicate NoneIdentical(ranges: seq<Range>) {
    forall r :: multiset(ranges)[r] <= 1
  }

  /** Wherever a range is repeated, the position in front of it is covered too. */
  ghost predicate RepeatsReach(ranges: seq<Range>) {
    forall r :: multiset(ranges)[r] > 1 ==> Covers(ranges, r.first - 1)
  }

  lemma FrontRepeatsReach(front: seq<Range>, r: Range)
    requires SortedByStart(front + [r]) && RepeatsReach(front + [r])
    ensures RepeatsReach(front) && SortedByStart(front)
    ensures r in front ==> Covers(front, r.first - 1)
  {
    var all := front + [r];
    assert multiset(all) == multiset(front) + multiset{r};
    forall q | q in front && (multiset(front)[q] > 1 || q == r)
      ensures Covers(front, q.first - 1)
    {
      assert multiset(all)[q] > 1 && Covers(all, q.first - 1);
      CoversOneMore(front, r, q.first - 1);
      var k :| 0 <= k < |front| && front[k] == q;
      assert all[k] == q && all[|front|] == r;
    }
    FrontIsSorted(front, r);
  }

  /** The result is strictly separated if every repeated range touches what starts before it. */
  lemma {:induction false} ReachedRepeatsComeOutSeparated(sorted: seq<Range>, len: nat)
    requires AllInContent(sorted, len) && SortedByStart(sorted) && RepeatsReach(sorted)
    ensures Separated(Coalesce(sorted, len))
  {
    hide *;
    if sorted == [] {
      NothingIsCoalesced(len);
    } else {
      var front, r := sorted[..|sorted| - 1], sorted[|sorted| - 1];
      var before := Coalesce(front, len);
      assert sorted == front + [r];
      FrontInContent(front, r, len);
      FrontRepeatsReach(front, r);
      CoalesceOneMore(front, r, len);
      ReachedRepeatsComeOutSeparated(front, len);
      CoalesceKeepsPositions(front, len);
      assert Covers(before, r.first - 1) <==> Covers(front, r.first - 1);
      LastStartsEarlier(before, front, r);
      LastIsNotRepeated(before, front, r);
      AbsorbSeparates(before, r, len);
    }
  }

  /** Without identical ranges in the input the result is strictly separated. */
  lemma DistinctRangesComeOutSeparated(sorted: seq<Range>, len: nat)
    requires AllInContent(sorted, len) && SortedByStart(sorted) && NoneIdentical(sorted)
    ensures Separated(Coalesce(sorted, len))
  {
    ReachedRepeatsComeOutSeparated(sorted, len);
  }

  lemma AbsorbSeparates(done: seq<Range>, r: Range, len: nat)
    requires Separated(done) && InContent(r, len)
    requires done != [] ==> done[|done| - 1].first <= r.first && r != done[|done| - 1]
    ensures Separated(Absorb(done, r, len))
  {
  }

  lemma NothingTouchesTheLast(done: seq<Range>)
    requires SortedByStart(done) && Separated(done) && done != []
    ensures !Covers(done, done[|done| - 1].first - 1)
  {
    var n := |done| - 1;
    forall i | 0 <= i < n
      ensures done[i].last + 1 < done[n].first
    {
      assert done[i].last + 1 < done[i + 1].first;
      assert i + 1 == n || done[i + 1].first <= done[n].first;
    }
  }

  lemma LastWasThere(done: seq<Range>, front: seq<Range>, r: Range)
    requires LastStandsFor(done, front) && SortedByStart(front + [r])
    ensures done != [] && r == done[|done| - 1] ==> r in front
  {
    forall q | q in front
      ensures q.first <= r.first
    {
      var k :| 0 <= k < |front| && front[k] == q;
      assert (front + [r])[k] == q && (front + [r])[|front|] == r;
    }
  }

  lemma LastIsNotRepeated(done: seq<Range>, front: seq<Range>, r: Range)
    requires LastStandsFor(done, front) && SortedByStart(front + [r])
    requires SortedByStart(done) && Separated(done)
    requires r in front ==> Covers(done, r.first - 1)
    ensures done != [] ==> r != done[|done| - 1]
  {
    LastWasThere(done, front, r);
    if done != [] {
      NothingTouchesTheLast(done);
    }
  }

  // --- some order leaves a repeated range alone ---

  lemma AbsorbStaysTouching(done: seq<Range>, r: Range, len: nat)
    requires !Separated(done)
    ensures !Separated(Absorb(done, r, len))
  {
    var i :| 0 <= i < |done| - 1 && !(done[i].last + 1 < done[i + 1].first);
    var longer := Absorb(done, r, len);
    assert longer[i].last + 1 >= longer[i + 1].first;
  }

  lemma {:induction false} CoalesceStaysTouching(xs: seq<Range>, ys: seq<Range>, len: nat)
    requires !Separated(Coalesce(xs, len))
    ensures !Separated(Coalesce(xs + ys, len))
    decreases |ys|
  {
    if ys == [] {
      assert xs + ys == xs;
    } else {
      var front := ys[..|ys| - 1];
      CoalesceStaysTouching(xs, front, len);
      assert (xs + ys)[..|xs + ys| - 1] == xs + front;
      AbsorbStaysTouching(Coalesce(xs + front, len), Normalise(ys[|ys| - 1], len), len);
      hide Separated, Absorb, Normalise;
    }
  }

  /** Twice the same range right after ranges that stop short of it: the second is appended, too. */
  lemma TwiceInARowTouches(low: seq<Range>, r: Range, len: nat)
    requires AllInContent(low, len) && SortedByStart(low) && InContent(r, len)
    requires (forall q :: q in low ==> q.first < r.first) && !Covers(low, r.first - 1)
    ensures !Separated(Coalesce(low + [r, r], len))
  {
    hide *;
    var done := Coalesce(low, len);
    CoalesceKeepsPositions(low, len);
    LastStartsBefore(done, low, r);
    assert Covers(done, r.first - 1) <==> Covers(low, r.first - 1);
    AppendedTwice(done, r, len);
    NormalisedStays(r, len);
    CoalesceOneMore(low, r, len);
    CoalesceOneMore(low + [r], r, len);
    assert low + [r] + [r] == low + [r, r];
  }

  lemma NormalisedStays(r: Range, len: nat)
    requires InContent(r, len)
    ensures Normalise(r, len) == r
  {
  }

  lemma LastStartsBefore(done: seq<Range>, low: seq<Range>, r: Range)
    requires LastStandsFor(done, low) && forall q :: q in low ==> q.first < r.first
    ensures done != [] ==> done[|done| - 1].first < r.first
  {
  }

  lemma AppendedTwice(done: seq<Range>, r: Range, len: nat)
    requires InContent(r, len) && !Covers(done, r.first - 1)
    requires done != [] ==> done[|done| - 1].first < r.first
    ensures !Separated(Absorb(Absorb(done, r, len), r, len))
  {
    assert Absorb(done, r, len) == done + [r];
    var twice := done + [r] + [r];
    assert Absorb(done + [r], r, len) == twice;
    assert twice[|done|] == r && twice[|done| + 1] == r;
  }

  /** In front of everything that starts no earlier. */
  function PlaceFor(sorted: seq<Range>, r: Range): (k: nat)
    ensures k <= |sorted|
    ensures forall j :: 0 <= j < k ==> sorted[j].first < r.first
    ensures k < |sorted| ==> sorted[k].first >= r.first
  {
    if sorted == [] || sorted[0].first >= r.first then 0 else 1 + PlaceFor(sorted[1..], r)
  }

  function InsertEarly(sorted: seq<Range>, r: Range): seq<Range> {
    var k := PlaceFor(sorted, r);
    sorted[..k] + [r] + sorted[k..]
  }

  function Arrange(ranges: seq<Range>): seq<Range> {
    if ranges == [] then []
    else InsertEarly(Arrange(ranges[..|ranges| - 1]), ranges[|ranges| - 1])
  }

  lemma InsertEarlySorts(sorted: seq<Range>, r: Range)
    requires SortedByStart(sorted)
    ensures SortedByStart(InsertEarly(sorted, r))
    ensures multiset(InsertEarly(sorted, r)) == multiset(sorted) + multiset{r}
  {
    var k := PlaceFor(sorted, r);
    assert forall j :: k <= j < |sorted| ==> r.first <= sorted[j].first;
    hide SortedByStart;
    InsertedInOrder(sorted, k, r);
    InsertedKeepsTheRest(sorted, k, r);
  }

  lemma {:induction false} ArrangeSorts(ranges: seq<Range>)
    ensures SortedByStart(Arrange(ranges)) && multiset(Arrange(ranges)) == multiset(ranges)
  {
    if ranges != [] {
      var front, r := ranges[..|ranges| - 1], ranges[|ranges| - 1];
      ArrangeSorts(front);
      InsertEarlySorts(Arrange(front), r);
      assert ranges == front + [r];
    }
  }

  /** An order by start with two copies of a repeated range right behind what starts earlier. */
  lemma TwoCopiesFirst(ranges: seq<Range>, r: Range) returns (low: seq<Range>, high: seq<Range>)
    requires multiset(ranges)[r] > 1
    ensures SortedByStart(low + [r, r] + high) && multiset(low + [r, r] + high) == multiset(ranges)
    ensures forall q :: q in low ==> q.first < r.first
  {
    var rest := WithoutOne(WithoutOne(ranges, r), r);
    var sorted := Arrange(rest);
    var once, k := InsertEarly(sorted, r), PlaceFor(sorted, r);
    low, high := sorted[..k], sorted[k..];
    ArrangeSorts(rest);
    InsertEarlySorts(sorted, r);
    InsertEarlySorts(once, r);
    SamePlaceAgain(sorted, r);
    TwoInserted(sorted, r, k);
    hide SortedByStart, InsertEarly, Arrange, WithoutOne;
    assert multiset(InsertEarly(once, r)) == multiset(rest) + multiset{r} + multiset{r};
  }

  lemma TwoInserted(sorted: seq<Range>, r: Range, k: nat)
    requires k == PlaceFor(sorted, r) == PlaceFor(InsertEarly(sorted, r), r)
    ensures InsertEarly(InsertEarly(sorted, r), r) == sorted[..k] + [r, r] + sorted[k..]
  {
    var once := InsertEarly(sorted, r);
    TwoParts(sorted[..k], [r], sorted[k..]);
    assert once == sorted[..k] + [r] + sorted[k..];
    hide *;
  }

  lemma TwoParts(a: seq<Range>, b: seq<Range>, c: seq<Range>)
    ensures (a + b + c)[..|a|] == a && (a + b + c)[|a|..] == b + c
    ensures a + b + (b + c) == a + (b + b) + c
  {
  }

  lemma SamePlaceAgain(sorted: seq<Range>, r: Range)
    ensures PlaceFor(InsertEarly(sorted, r), r) == PlaceFor(sorted, r)
  {
    var k, once := PlaceFor(sorted, r), InsertEarly(sorted, r);
    assert once[k] == r && forall j :: 0 <= j < k ==> once[j] == sorted[j];
    PlaceIs(once, r, k);
  }

  lemma {:induction false} PlaceIs(sorted: seq<Range>, r: Range, k: nat)
    requires k < |sorted| && sorted[k].first >= r.first && forall j :: 0 <= j < k ==> sorted[j].first < r.first
    ensures PlaceFor(sorted, r) == k
  {
    if k > 0 {
      PlaceIs(sorted[1..], r, k - 1);
    }
  }

  /** One copy of `r` less. */
  function WithoutOne(ranges: seq<Range>, r: Range): (rest: seq<Range>)
    requires r in multiset(ranges)
    ensures multiset(rest) + multiset{r} == multiset(ranges)
  {
    if ranges[|ranges| - 1] == r then
      assert ranges == ranges[..|ranges| - 1] + [r];
      ranges[..|ranges| - 1]
    else
      assert ranges == ranges[..|ranges| - 1] + [ranges[|ranges| - 1]];
      WithoutOne(ranges[..|ranges| - 1], r) + [ranges[|ranges| - 1]]
  }

  /** Whatever order by start the sort leaves, the ranges come out separated. */
  ghost predicate AlwaysSeparated(ranges: seq<Range>, len: nat) {
    forall sorted :: multiset(sorted) == multiset(ranges) && SortedByStart(sorted) ==> Separated(Coalesce(sorted, len))
  }

  /**
   The exact condition: the result is strictly separated in every order by start if and only
   if the position in front of every repeated range is covered.
   */
  lemma SeparatedExactly(ranges: seq<Range>, len: nat)
    requires AllInContent(ranges, len)
    ensures AlwaysSeparated(ranges, len) <==> RepeatsReach(ranges)
  {
    if RepeatsReach(ranges) {
      forall sorted | multiset(sorted) == multiset(ranges) && SortedByStart(sorted)
        ensures Separated(Coalesce(sorted, len))
      {
        SamePropertiesInAnyOrder(ranges, sorted, len);
        ReachedRepeatsComeOutSeparated(sorted, len);
      }
    } else {
      var r :| multiset(ranges)[r] > 1 && !Covers(ranges, r.first - 1);
      var low, high := TwoCopiesFirst(ranges, r);
      hide SortedByStart, Covers, Separated, AllInContent, InContent, RepeatsReach, Coalesce;
      SamePropertiesInAnyOrder(ranges, low + [r, r] + high, len);
      PermutationCovers(ranges, low + [r, r] + high, r.first - 1);
      SomeOrderTouches(low, r, high, len);
    }
  }

  lemma SomeOrderTouches(low: seq<Range>, r: Range, high: seq<Range>, len: nat)
    requires SortedByStart(low + [r, r] + high) && AllInContent(low + [r, r] + high, len)
    requires (forall q :: q in low ==> q.first < r.first) && !Covers(low + [r, r] + high, r.first - 1)
    ensures !Separated(Coalesce(low + [r, r] + high, len))
  {
    assert low + ([r, r] + high) == low + [r, r] + high;
    FrontOfAll(low, [r, r] + high, r.first - 1, len);
    assert (low + [r, r] + high)[|low|] == r;
    hide SortedByStart, Covers, Separated, Coalesce;
    TwiceInARowTouches(low, r, len);
    CoalesceStaysTouching(low + [r, r], high, len);
  }

  lemma FrontOfAll(low: seq<Range>, later: seq<Range>, p: int, len: nat)
    requires SortedByStart(low + later) && AllInContent(low + later, len) && !Covers(low + later, p)
    ensures SortedByStart(low) && AllInContent(low, len) && !Covers(low, p)
  {
    assert forall i :: 0 <= i < |low| ==> (low + later)[i] == low[i];
  }

  lemma SamePropertiesInAnyOrder(ranges: seq<Range>, sorted: seq<Range>, len: nat)
    requires multiset(sorted) == multiset(ranges) && AllInContent(ranges, len)
    ensures AllInContent(sorted, len)
    ensures RepeatsReach(sorted) <==> RepeatsReach(ranges)
  {
    forall i | 0 <= i < |sorted|
      ensures InContent(sorted[i], len)
    {
      assert sorted[i] in multiset(ranges);
    }
    forall r: Range
      ensures Covers(sorted, r.first - 1) <==> Covers(ranges, r.first - 1)
    {
      PermutationCovers(sorted, ranges, r.first - 1);
    }
  }

  /** A normalised range within the content holds exactly the requested positions. */
  lemma NormaliseKeepsTheRequest(r: Range, len: nat, p: int)
    requires InContent(Normalise(r, len), len)
    ensures var n := Normalise(r, len); Requested(r, len, p) <==> n.first <= p <= n.last
  {
  }

  predicate Overlap(a: Range, b: Range) {
    !(a.last < b.first || a.first > b.last)
  }

  predicate OverlapsAny(ranges: seq<Range>, r: Range) {
    exists i :: 0 <= i < |ranges| && Overlap(r, ranges[i])
  }

  /** How many ranges overlap an earlier one. */
  function OverlapCount(ranges: seq<Range>): nat {
    if ranges == [] then 0
    else
      var front := ranges[..|ranges| - 1];
      OverlapCount(front) + (if OverlapsAny(front, ranges[|ranges| - 1]) then 1 else 0)
  }

  function NormaliseAll(ranges: seq<Range>, len: nat): seq<Range> {
    seq(|ranges|, i requires 0 <= i < |ranges| => Normalise(ranges[i], len))
  }

  /** The ranges up to the first refused one are normalised, the others are as asked. */
  ghost predicate PartlyNormalised(asked: seq<Range>, ranges: seq<Range>, len: nat) {
    exists k: nat :: FirstRefused(NormaliseAll(asked, len), len, k)
                && ranges == NormaliseAll(asked, len)[..k] + asked[k..]
  }

  /** Too many ranges, one outside the content, or more than two overlaps. */
  predicate Rejected(ranges: seq<Range>, len: nat) {
    |ranges| > MAX_COUNT || !Tolerable(NormaliseAll(ranges, len), len)
  }

  predicate Tolerable(normalised: seq<Range>, len: nat) {
    AllInContent(normalised, len) && OverlapCount(normalised) <= 2
  }

  /** The `k`-th range is the first that cannot be tolerated after those before it. */
  predicate FirstRefused(normalised: seq<Range>, len: nat, k: nat) {
    && 0 < k <= |normalised|
    && Tolerable(normalised[..k - 1], len) && !Tolerable(normalised[..k], len)
  }

  lemma {:induction false} OverlapsOnlyGrow(xs: seq<Range>, ys: seq<Range>)
    ensures OverlapCount(xs) <= OverlapCount(xs + ys)
    decreases |ys|
  {
    if ys == [] {
      assert xs + ys == xs;
    } else {
      OverlapsOnlyGrow(xs, ys[..|ys| - 1]);
      assert (xs + ys)[..|xs + ys| - 1] == xs + ys[..|ys| - 1];
    }
  }

  lemma CoversIsRequested(ranges: seq<Range>, len: nat, p: int)
    requires AllInContent(NormaliseAll(ranges, len), len)
    ensures Covers(NormaliseAll(ranges, len), p) <==> AnyRequested(ranges, len, p)
  {
    var all := NormaliseAll(ranges, len);
    forall i | 0 <= i < |ranges|
      ensures Requested(ranges[i], len, p) <==> all[i].first <= p <= all[i].last
    {
      assert InContent(all[i], len);
      NormaliseKeepsTheRequest(ranges[i], len, p);
    }
  }

  lemma PermutationCovers(a: seq<Range>, b: seq<Range>, p: int)
    requires multiset(a) == multiset(b)
    ensures Covers(a, p) <==> Covers(b, p)
  {
    if Covers(a, p) {
      var i :| 0 <= i < |a| && a[i].first <= p <= a[i].last;
      assert a[i] in multiset(b);
    }
    if Covers(b, p) {
      var i :| 0 <= i < |b| && b[i].first <= p <= b[i].last;
      assert b[i] in multiset(a);
    }
  }

  lemma InsertedKeepsTheRest(sorted: seq<Range>, k: nat, r: Range)
    requires k <= |sorted|
    ensures multiset(sorted[..k] + [r] + sorted[k..]) == multiset(sorted) + multiset{r}
  {
    assert sorted == sorted[..k] + sorted[k..];
  }

  lemma InsertedInOrder(sorted: seq<Range>, k: nat, r: Range)
    requires SortedByStart(sorted) && k <= |sorted|
    requires k > 0 ==> sorted[k - 1].first <= r.first
    requires forall j :: k <= j < |sorted| ==> r.first <= sorted[j].first
    ensures SortedByStart(sorted[..k] + [r] + sorted[k..])
  {
    var longer := sorted[..k] + [r] + sorted[k..];
    forall i | 0 <= i < |longer|
      ensures longer[i] == if i < k then sorted[i] else if i == k then r else sorted[i - 1]
    {
    }
  }
}
