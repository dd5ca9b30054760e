/** The announcement record and the filter that derives the listed announcements
    from the search text and the priority selector. */
module Announcements {
  import opened Text

  /** One announcement of the store. `priority` is the string the record carries
      ("urgent" or "general" in the store); it is compared as a string. */
  datatype Announcement = Announcement(
    id: int,
    title: string,
    content: string,
    priority: string,
    date: string,
    time: string,
    author: string)

  /** The selector value that lets every priority through. */
  const AllPriorities: string := "all"

  /** The text condition: the lower-cased query occurs in the lower-cased title
      or in the lower-cased content. */
  function MatchesSearch(a: Announcement, query: string): (r: bool)
    ensures query == "" ==> r
    ensures r ==> |query| <= |a.title| || |query| <= |a.content|
  {
    Includes(Lower(a.title), Lower(query)) || Includes(Lower(a.content), Lower(query))
  }

  /** The priority condition: the selector is "all" or equals the record's priority. */
  function MatchesPriority(a: Announcement, filterPriority: string): (r: bool)
    ensures filterPriority == AllPriorities ==> r
    ensures r && filterPriority != AllPriorities ==> a.priority == filterPriority
  {
    filterPriority == AllPriorities || a.priority == filterPriority
  }

  /** The predicate the filter keeps an announcement by: both conditions hold. */
  function Matches(a: Announcement, query: string, filterPriority: string): (r: bool)
    ensures query == "" && filterPriority == AllPriorities ==> r
    ensures r && filterPriority != AllPriorities ==> a.priority == filterPriority
    ensures r ==> |query| <= |a.title| || |query| <= |a.content|
  {
    MatchesSearch(a, query) && MatchesPriority(a, filterPriority)
  }

  /** Keeps, in order, the announcements that match. */
  function Filter(xs: seq<Announcement>, query: string, filterPriority: string): (r: seq<Announcement>)
    ensures |r| <= |xs|
    ensures forall k :: 0 <= k < |r| ==> Matches(r[k], query, filterPriority)
  {
    if xs == [] then []
    else
      var rest := Filter(xs[1..], query, filterPriority);
      if Matches(xs[0], query, filterPriority) then [xs[0]] + rest else rest
  }

  /** Adds one to every index. */
  function Shift(idx: seq<nat>): (r: seq<nat>)
    ensures |r| == |idx|
    ensures forall k :: 0 <= k < |idx| ==> r[k] == idx[k] + 1
  {
    seq(|idx|, k requires 0 <= k < |idx| => idx[k] + 1)
  }

  /** The positions, in `xs`, of the announcements the filter keeps. */
  function KeptIndices(xs: seq<Announcement>, query: string, filterPriority: string): seq<nat>
  {
    if xs == [] then []
    else
      var rest := Shift(KeptIndices(xs[1..], query, filterPriority));
      if Matches(xs[0], query, filterPriority) then [0] + rest else rest
  }

  /** `s` is the subsequence of `t` at the strictly increasing positions `idx`:
      nothing reordered and nothing taken twice. */
  predicate IsOrderedSubsequence<T(==)>(s: seq<T>, t: seq<T>, idx: seq<nat>) {
    && |idx| == |s|
    && (forall k :: 0 <= k < |idx| ==> idx[k] < |t| && s[k] == t[idx[k]])
    && (forall j, k :: 0 <= j < k < |idx| ==> idx[j] < idx[k])
  }

  /** Shifting the positions of a subsequence of the tail gives positions in the
      whole sequence, all at least one. */
  lemma ShiftIntoWhole<T>(s: seq<T>, t: seq<T>, idx: seq<nat>)
    requires |t| > 0 && IsOrderedSubsequence(s, t[1..], idx)
    ensures IsOrderedSubsequence(s, t, Shift(idx))
    ensures forall k :: 0 <= k < |idx| ==> Shift(idx)[k] >= 1
  {
    var sh := Shift(idx);
    forall k | 0 <= k < |sh| ensures sh[k] < |t| && s[k] == t[sh[k]] {
      assert t[sh[k]] == t[1..][idx[k]];
    }
  }

  /** Putting the head in front of a subsequence that avoids position zero. */
  lemma ConsHead<T>(s: seq<T>, t: seq<T>, idx: seq<nat>)
    requires |t| > 0 && IsOrderedSubsequence(s, t, idx)
    requires forall k :: 0 <= k < |idx| ==> idx[k] >= 1
    ensures IsOrderedSubsequence([t[0]] + s, t, [0] + idx)
  {
    var r, ridx := [t[0]] + s, [0] + idx;
    assert forall k :: 0 < k < |ridx| ==> ridx[k] == idx[k - 1] && r[k] == s[k - 1];
  }

  /** A position is shifted in iff the position before it was there. */
  lemma ShiftMembership(idx: seq<nat>, i: int)
    ensures i in Shift(idx) <==> i >= 1 && i - 1 in idx
  {
    var sh := Shift(idx);
    if i in sh {
      var k :| 0 <= k < |sh| && sh[k] == i;
      assert idx[k] == i - 1;
    }
    if i >= 1 && i - 1 in idx {
      var k :| 0 <= k < |idx| && idx[k] == i - 1;
      assert sh[k] == i;
    }
  }

  /** The filtered list is an order-preserving subsequence of the store: it sits
      at the strictly increasing positions `KeptIndices`. */
  lemma {:induction false} FilterIsOrderedSubsequence(xs: seq<Announcement>, query: string, filterPriority: string)
    ensures IsOrderedSubsequence(Filter(xs, query, filterPriority), xs, KeptIndices(xs, query, filterPriority))
  {
    if xs != [] {
      var f, idx := Filter(xs[1..], query, filterPriority), KeptIndices(xs[1..], query, filterPriority);
      FilterIsOrderedSubsequence(xs[1..], query, filterPriority);
      ShiftIntoWhole(f, xs, idx);
      if Matches(xs[0], query, filterPriority) {
        ConsHead(f, xs, Shift(idx));
      }
    }
  }

  /** The kept positions are exactly those whose announcement matches. */
  lemma {:induction false} KeptIndicesExact(xs: seq<Announcement>, query: string, filterPriority: string, i: int)
    requires 0 <= i < |xs|
    ensures i in KeptIndices(xs, query, filterPriority) <==> Matches(xs[i], query, filterPriority)
  {
    var idx := KeptIndices(xs[1..], query, filterPriority);
    ShiftMembership(idx, i);
    if i > 0 {
      KeptIndicesExact(xs[1..], query, filterPriority, i - 1);
      assert xs[1..][i - 1] == xs[i];
    }
  }

  /** An announcement is listed iff it is in the store and both conditions hold. */
  lemma {:induction false} FilterMembership(xs: seq<Announcement>, query: string, filterPriority: string, a: Announcement)
    ensures a in Filter(xs, query, filterPriority) <==> a in xs && Matches(a, query, filterPriority)
  {
    if xs != [] {
      FilterMembership(xs[1..], query, filterPriority, a);
      assert xs == [xs[0]] + xs[1..];
    }
  }

  /** A store whose every announcement matches is listed unchanged. */
  lemma {:induction false} FilterKeepsAllMatching(xs: seq<Announcement>, query: string, filterPriority: string)
    requires forall k :: 0 <= k < |xs| ==> Matches(xs[k], query, filterPriority)
    ensures Filter(xs, query, filterPriority) == xs
  {
    if xs != [] {
      FilterKeepsAllMatching(xs[1..], query, filterPriority);
      assert [xs[0]] + xs[1..] == xs;
    }
  }

  /** A store none of whose announcements matches lists nothing. */
  lemma {:induction false} FilterNoneMatching(xs: seq<Announcement>, query: string, filterPriority: string)
    requires forall a :: a in xs ==> !Matches(a, query, filterPriority)
    ensures Filter(xs, query, filterPriority) == []
  {
    if xs != [] {
      assert xs[0] in xs;
      FilterNoneMatching(xs[1..], query, filterPriority);
    }
  }

  /** Filtering the filtered list again with the same parameters changes nothing. */
  lemma FilterIdempotent(xs: seq<Announcement>, query: string, filterPriority: string)
    ensures Filter(Filter(xs, query, filterPriority), query, filterPriority) == Filter(xs, query, filterPriority)
  {
    FilterKeepsAllMatching(Filter(xs, query, filterPriority), query, filterPriority);
  }

  /** With an empty query and the "all" selector every announcement is listed. */
  lemma FilterDefaultsKeepAll(xs: seq<Announcement>)
    ensures Filter(xs, "", AllPriorities) == xs
  {
    FilterKeepsAllMatching(xs, "", AllPriorities);
  }

  /** The search ignores case: two queries that lower-case alike list the same
      announcements. */
  lemma {:induction false} SearchIgnoresCase(xs: seq<Announcement>, q1: string, q2: string, filterPriority: string)
    requires Lower(q1) == Lower(q2)
    ensures Filter(xs, q1, filterPriority) == Filter(xs, q2, filterPriority)
  {
    if xs != [] {
      SearchIgnoresCase(xs[1..], q1, q2, filterPriority);
    }
  }
}
