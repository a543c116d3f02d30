/**
 Serving a range request: when it is refused, in terms of the positions it asks for, and the
 operations that validate, sort and coalesce its ranges in place.
 */
module RangeRequests {
  import opened Common
  import opened Ranges

  predicate In(r: Range, p: int) {
    r.first <= p <= r.last
  }

  /** Overlapping means sharing a position; touching is not enough. */
  lemma OverlapIsSharing(a: Range, b: Range)
    requires a.first <= a.last && b.first <= b.last
    ensures Overlap(a, b) <==> exists p :: In(a, p) && In(b, p)
  {
    if Overlap(a, b) {
      assert In(a, Max(a.first, b.first)) && In(b, Max(a.first, b.first));
    }
  }

  /** The whole content, some of its last bytes, or a part that starts inside it. */
  predicate Satisfiable(r: Range, len: nat) {
    && len > 0
    && (|| (r.first == -1 && (r.last == -1 || 1 <= r.last <= len))
        || (0 <= r.first < len && (r.last == -1 || r.first <= r.last)))
  }

  /** Normalising puts exactly the satisfiable ranges inside the content. */
  lemma SatisfiableExactly(r: Range, len: nat)
    ensures InContent(Normalise(r, len), len) <==> Satisfiable(r, len)
  {
  }

  /** Some position is asked for by range `i` and by an earlier one. */
  ghost predicate Repeats(ranges: seq<Range>, len: nat, i: nat) {
    i < |ranges| && exists h, p :: 0 <= h < i && Requested(ranges[h], len, p) && Requested(ranges[i], len, p)
  }

  ghost function Repeaters(ranges: seq<Range>, len: nat): set<nat> {
    set i: nat | i < |ranges| && Repeats(ranges, len, i)
  }

  predicate OverlapsEarlier(all: seq<Range>, i: nat) {
    i < |all| && OverlapsAny(all[..i], all[i])
  }

  function Overlappers(all: seq<Range>): set<nat> {
    set i: nat | i < |all| && OverlapsEarlier(all, i)
  }

  /** The running count is the number of ranges that overlap an earlier one. */
  lemma {:induction false} OverlapCountIsExact(all: seq<Range>)
    ensures OverlapCount(all) == |Overlappers(all)|
  {
    if all == [] {
      assert Overlappers(all) == {};
    } else {
      var n := |all| - 1;
      var front := all[..n];
      OverlapCountIsExact(front);
      forall i: nat | i < n
        ensures OverlapsEarlier(all, i) == OverlapsEarlier(front, i)
      {
        assert front[..i] == all[..i] && front[i] == all[i];
      }
      hide OverlapsAny;
      assert n !in Overlappers(front);
      assert Overlappers(all) == Overlappers(front) + (if OverlapsEarlier(all, n) then {n} else {});
    }
  }

  lemma OverlapsEarlierIsRepeating(ranges: seq<Range>, len: nat, i: nat)
    requires AllInContent(NormaliseAll(ranges, len), len) && i < |ranges|
    ensures OverlapsEarlier(NormaliseAll(ranges, len), i) <==> Repeats(ranges, len, i)
  {
    var all := NormaliseAll(ranges, len);
    forall h, p | 0 <= h < |ranges|
      ensures Requested(ranges[h], len, p) <==> In(all[h], p)
    {
      assert InContent(all[h], len);
      NormaliseKeepsTheRequest(ranges[h], len, p);
    }
    forall h | 0 <= h < i
      ensures all[..i][h] == all[h]
      ensures Overlap(all[i], all[h]) <==> exists p :: In(all[i], p) && In(all[h], p)
    {
      assert InContent(all[h], len) && InContent(all[i], len);
      OverlapIsSharing(all[i], all[h]);
    }
    hide Overlap, Requested, In, InContent, NormaliseAll;
    if Repeats(ranges, len, i) {
      var h, p :| 0 <= h < i && Requested(ranges[h], len, p) && Requested(ranges[i], len, p);
      assert Overlap(all[i], all[..i][h]);
    }
  }

  lemma UnsatisfiableExactly(ranges: seq<Range>, len: nat)
    ensures AllInContent(NormaliseAll(ranges, len), len)
       <==> forall i :: 0 <= i < |ranges| ==> Satisfiable(ranges[i], len)
  {
    forall i | 0 <= i < |ranges|
      ensures InContent(NormaliseAll(ranges, len)[i], len) <==> Satisfiable(ranges[i], len)
    {
      SatisfiableExactly(ranges[i], len);
    }
    hide Normalise, Satisfiable, InContent;
  }

  ghost predicate Refused(ranges: seq<Range>, len: nat) {
    || |ranges| > 1024
    || (exists i :: 0 <= i < |ranges| && !Satisfiable(ranges[i], len))
    || |Repeaters(ranges, len)| >= 3
  }

  /**
   A request is refused exactly if it has more than 1024 ranges, or one that cannot be
   satisfied, or at least three that ask for a position an earlier one asked for.
   */
  lemma RefusedExactly(ranges: seq<Range>, len: nat)
    ensures Rejected(ranges, len) <==> Refused(ranges, len)
  {
    var all := NormaliseAll(ranges, len);
    UnsatisfiableExactly(ranges, len);
    if AllInContent(all, len) {
      OverlapCountIsExact(all);
      forall i: nat | i < |ranges|
        ensures OverlapsEarlier(all, i) <==> Repeats(ranges, len, i)
      {
        OverlapsEarlierIsRepeating(ranges, len, i);
      }
      hide OverlapsEarlier, Repeats, AllInContent, Satisfiable;
      assert Overlappers(all) == Repeaters(ranges, len);
    }
  }

  /** Ranges of which no two ask for a common position are never refused for overlapping. */
  lemma DisjointRangesAreServed(ranges: seq<Range>, len: nat)
    requires |ranges| <= 1024 && forall i :: 0 <= i < |ranges| ==> Satisfiable(ranges[i], len)
    requires forall h, i, p :: 0 <= h < i < |ranges| ==> !(Requested(ranges[h], len, p) && Requested(ranges[i], len, p))
    ensures !Refused(ranges, len)
  {
    assert Repeaters(ranges, len) == {};
  }

  // --- the operations ---

  method InsertByStart(sorted: seq<Range>, r: Range) returns (longer: seq<Range>)
    requires SortedByStart(sorted)
    ensures multiset(longer) == multiset(sorted) + multiset{r} && SortedByStart(longer)
  {
    hide SortedByStart;
    var k := |sorted|;
    while k > 0 && sorted[k - 1].first > r.first
      invariant 0 <= k <= |sorted|
      invariant forall j :: k <= j < |sorted| ==> sorted[j].first > r.first
    {
      k := k - 1;
    }
    longer := sorted[..k] + [r] + sorted[k..];
    InsertedInOrder(sorted, k, r);
    InsertedKeepsTheRest(sorted, k, r);
  }

  /** Some order by start: callers may rely on nothing else about `std::sort`. */
  method SortByStart(ranges: seq<Range>) returns (sorted: seq<Range>)
    ensures multiset(sorted) == multiset(ranges) && SortedByStart(sorted)
  {
    sorted := [];
    for i := 0 to |ranges|
      invariant multiset(sorted) == multiset(ranges[..i]) && SortedByStart(sorted)
    {
      assert ranges[..i + 1] == ranges[..i] + [ranges[i]];
      sorted := InsertByStart(sorted, ranges[i]);
    }
    assert ranges[..|ranges|] == ranges;
  }

  method FindOverlap(processed: seq<Range>, r: Range) returns (hit: bool)
    ensures hit == OverlapsAny(processed, r)
  {
    for j := 0 to |processed|
      invariant forall k :: 0 <= k < j ==> !Overlap(r, processed[k])
    {
      if Overlap(r, processed[j]) {
        return true;
      }
    }
    return false;
  }

  class Request {
    var ranges: seq<Range>

    constructor (ranges: seq<Range>)
      ensures this.ranges == ranges
    {
      this.ranges := ranges;
    }

    method CoalesceRanges(len: nat) returns (ghost sorted: seq<Range>)
      modifies this
      ensures multiset(sorted) == multiset(old(ranges)) && SortedByStart(sorted)
      ensures ranges == if |old(ranges)| <= 1 then old(ranges) else Coalesce(sorted, len)
    {
      sorted := ranges;
      if |ranges| <= 1 {
        return;
      }
      ranges := SortByStart(ranges);
      sorted := ranges;
      var coalesced: seq<Range> := [];
      for i := 0 to |ranges|
        invariant ranges == sorted
        invariant coalesced == Coalesce(ranges[..i], len)
      {
        assert ranges[..i + 1][..i] == ranges[..i];
        var first, last := ranges[i].first, ranges[i].last;
        if first == -1 && last == -1 {
          first, last := 0, len;
        }
        if first == -1 {
          first, last := len - last, len - 1;
        }
        if last == -1 || last >= len {
          last := len - 1;
        }
        if !(0 <= first <= last < len) {
          continue;
        }
        if coalesced != [] {
          var prev := coalesced[|coalesced| - 1];
          if first <= prev.last + 1 && !(first == prev.first && last == prev.last) {
            coalesced := coalesced[..|coalesced| - 1] + [Range(prev.first, Max(prev.last, last))];
            continue;
          }
        }
        coalesced := coalesced + [Range(first, last)];
      }
      assert ranges[..|ranges|] == ranges;
      ranges := coalesced;
    }

    /**
     An error exactly for the rejected requests with a 2xx status; otherwise the ranges are
     normalised and coalesced, and cover exactly the positions the request asked for.
     */
    method RangeError(status: int, len: nat) returns (error: bool)
      modifies this
      ensures error <==> old(ranges) != [] && 200 <= status < 300 && Refused(old(ranges), len)
      ensures !(200 <= status < 300) || |old(ranges)| > 1024 ==> ranges == old(ranges)
      ensures error && |old(ranges)| <= 1024 ==> PartlyNormalised(old(ranges), ranges, len)
      ensures !error && 200 <= status < 300 ==>
                && AllInContent(ranges, len) && SortedByStart(ranges)
                && (forall p :: Covers(ranges, p) <==> AnyRequested(old(ranges), len, p))
                && (RepeatsReach(NormaliseAll(old(ranges), len)) ==> Separated(ranges))
    {
      RefusedExactly(ranges, len);
      hide Refused;
      if ranges != [] && 200 <= status < 300 {
        if |ranges| > MAX_COUNT {
          return true;
        }
        error := Validate(len);
        if error {
          return true;
        }
        ghost var asked, all := old(ranges), NormaliseAll(old(ranges), len);
        assert ranges == all;
        ghost var sorted := CoalesceRanges(len);
        Finish(asked, sorted, len, ranges);
      }
      return false;
    }

    method NormaliseAt(i: nat, len: nat)
      requires i < |ranges|
      modifies this
      ensures ranges == old(ranges)[i := Normalise(old(ranges)[i], len)]
    {
      var r := ranges[i];
      if r.first == -1 && r.last == -1 {
        r := Range(0, len);
      }
      if r.first == -1 {
        r := Range(len - r.last, len - 1);
      }
      if r.last == -1 || r.last >= len {
        r := Range(r.first, len - 1);
      }
      ranges := ranges[i := r];
    }

    /**
     Normalise the ranges in place, one after the other, until one is refused; the ranges
     behind that one stay as they were.
     */
    method Validate(len: nat) returns (error: bool)
      modifies this
      ensures error <==> !Tolerable(NormaliseAll(old(ranges), len), len)
      ensures !error ==> ranges == NormaliseAll(old(ranges), len)
      ensures error ==> PartlyNormalised(old(ranges), ranges, len)
    {
      ghost var asked := ranges;
      ghost var all := NormaliseAll(asked, len);
      assert Tolerable([], len) && OverlapCount([]) == 0;
      hide InContent, Normalise, NormaliseAll, AllInContent, OverlapCount, OverlapsAny, PartlyNormalised;
      var processed: seq<Range> := [];
      var overlapping := 0;
      for i := 0 to |ranges|
        invariant |ranges| == |asked| == |all| && ranges == all[..i] + asked[i..]
        invariant processed == all[..i] && Tolerable(all[..i], len)
        invariant overlapping == OverlapCount(all[..i])
      {
        OneMoreNormalised(asked, len, i);
        OneMoreProcessed(all, len, i);
        NormaliseAt(i, len);
        var r := ranges[i];
        if !InContent(r, len) {
          StopHere(asked, ranges, len, i);
          return true;
        }
        var hit := FindOverlap(processed, r);
        if hit {
          overlapping := overlapping + 1;
          if overlapping > 2 {
            StopHere(asked, ranges, len, i);
            return true;
          }
        }
        processed := processed + [r];
      }
      assert all[..|asked|] == all && asked[|asked|..] == [];
      return false;
    }
  }

  lemma OneMoreNormalised(asked: seq<Range>, len: nat, i: nat)
    requires i < |asked|
    ensures var all := NormaliseAll(asked, len);
            && all[i] == Normalise(asked[i], len)
            && (all[..i] + asked[i..])[i] == asked[i]
            && (all[..i] + asked[i..])[i := all[i]] == all[..i + 1] + asked[i + 1..]
            && (all[..i + 1] + asked[i + 1..])[i] == all[i]
  {
  }

  lemma OneMoreProcessed(all: seq<Range>, len: nat, i: nat)
    requires i < |all|
    ensures all[..i + 1] == all[..i] + [all[i]]
    ensures AllInContent(all[..i + 1], len) <==> AllInContent(all[..i], len) && InContent(all[i], len)
    ensures OverlapCount(all[..i + 1]) == OverlapCount(all[..i]) + (if OverlapsAny(all[..i], all[i]) then 1 else 0)
  {
    assert all[..i + 1] == all[..i] + [all[i]] && all[..i + 1][..i] == all[..i];
    assert all[..i + 1][i] == all[i];
    hide OverlapsAny, InContent;
  }

  /** What cannot be tolerated in front cannot be tolerated at all. */
  lemma StopHere(asked: seq<Range>, ranges: seq<Range>, len: nat, i: nat)
    requires i < |asked| && ranges == NormaliseAll(asked, len)[..i + 1] + asked[i + 1..]
    requires Tolerable(NormaliseAll(asked, len)[..i], len) && !Tolerable(NormaliseAll(asked, len)[..i + 1], len)
    ensures !Tolerable(NormaliseAll(asked, len), len) && PartlyNormalised(asked, ranges, len)
  {
    var all := NormaliseAll(asked, len);
    assert FirstRefused(all, len, i + 1);
    assert all[..i + 1] + all[i + 1..] == all;
    OverlapsOnlyGrow(all[..i + 1], all[i + 1..]);
    hide NormaliseAll, InContent, OverlapCount;
    assert forall k :: 0 <= k < i + 1 ==> all[..i + 1][k] == all[k];
  }

  lemma Finish(asked: seq<Range>, sorted: seq<Range>, len: nat, result: seq<Range>)
    requires AllInContent(NormaliseAll(asked, len), len)
    requires multiset(sorted) == multiset(NormaliseAll(asked, len)) && SortedByStart(sorted)
    requires result == if |asked| <= 1 then NormaliseAll(asked, len) else Coalesce(sorted, len)
    ensures AllInContent(result, len) && SortedByStart(result)
    ensures forall p :: Covers(result, p) <==> AnyRequested(asked, len, p)
    ensures RepeatsReach(NormaliseAll(asked, len)) ==> Separated(result)
  {
    var all := NormaliseAll(asked, len);
    SamePropertiesInAnyOrder(all, sorted, len);
    CoalesceKeepsPositions(sorted, len);
    if RepeatsReach(all) {
      ReachedRepeatsComeOutSeparated(sorted, len);
    }
    hide RepeatsReach, Separated, SortedByStart, AllInContent;
    forall p
      ensures Covers(result, p) <==> AnyRequested(asked, len, p)
    {
      CoversIsRequested(asked, len, p);
      PermutationCovers(sorted, all, p);
    }
  }
}
