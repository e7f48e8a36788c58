/** triple_search (binary_search.h) and find_all (MiscFunctions.h). Iterators are indices into a sequence. */
module BinarySearch {

  /** The iterator triple_search returns twice when the zero run is empty and lies strictly inside the range. */
  const NULL_ITERATOR: int := -1

  /** f cuts the range into a negative, a zero and a positive run, in this order, each possibly empty. */
  ghost predicate Partitioned<T>(s: seq<T>, f: T -> int, begin: nat, end: nat)
    requires begin <= end <= |s|
  {
    forall i, j | begin <= i < j < end ::
      (f(s[j]) < 0 ==> f(s[i]) < 0) && (f(s[i]) > 0 ==> f(s[j]) > 0)
  }

  /** [low, high) is exactly the zero run of [begin, end). */
  ghost predicate ZeroRun<T>(s: seq<T>, f: T -> int, begin: nat, end: nat, low: int, high: int)
    requires begin <= end <= |s|
  {
    forall i | begin <= i < end :: f(s[i]) == 0 <==> low <= i < high
  }

  /** A zero run is known by its two edges. */
  lemma RunFromEdges<T>(s: seq<T>, f: T -> int, begin: nat, end: nat, low: nat, high: nat)
    requires begin <= low < high <= end <= |s| && Partitioned(s, f, begin, end)
    requires f(s[low]) == 0 && f(s[high - 1]) == 0
    requires low == begin || f(s[low - 1]) < 0
    requires high == end || f(s[high]) > 0
    ensures ZeroRun(s, f, begin, end, low, high)
  {
  }

  /** Two neighbours of opposite sign leave no room for a zero. */
  lemma NoRun<T>(s: seq<T>, f: T -> int, begin: nat, end: nat, last: nat)
    requires begin <= last && last + 1 < end <= |s| && Partitioned(s, f, begin, end)
    requires f(s[last]) < 0 && f(s[last + 1]) > 0
    ensures ZeroRun(s, f, begin, end, NULL_ITERATOR, NULL_ITERATOR)
  {
  }

  method TripleSearch<T>(s: seq<T>, f: T -> int, begin0: nat, end0: nat) returns (dstBegin: int, dstEnd: int)
    requires begin0 <= end0 <= |s|
    requires Partitioned(s, f, begin0, end0)
    ensures begin0 <= dstBegin <= dstEnd <= end0 || dstBegin == dstEnd == NULL_ITERATOR
    ensures ZeroRun(s, f, begin0, end0, dstBegin, dstEnd)
    ensures (forall i | begin0 <= i < end0 :: f(s[i]) > 0) ==> dstBegin == dstEnd == begin0
    ensures begin0 < end0 && (forall i | begin0 <= i < end0 :: f(s[i]) < 0) ==> dstBegin == dstEnd == end0
    ensures begin0 < end0 && f(s[begin0]) < 0 < f(s[end0 - 1]) && (forall i | begin0 <= i < end0 :: f(s[i]) != 0) ==>
      dstBegin == dstEnd == NULL_ITERATOR
  {
    dstBegin, dstEnd := NULL_ITERATOR, NULL_ITERATOR;
    if begin0 == end0 {
      return begin0, begin0;
    }
    var fBegin := f(s[begin0]);
    if fBegin > 0 {
      return begin0, begin0;
    }
    var fEnd := f(s[end0 - 1]);
    if fEnd < 0 {
      return end0, end0;
    }
    if fBegin == 0 {
      dstBegin := begin0;
    }
    if fEnd == 0 {
      dstEnd := end0;
    }
    if fBegin == 0 && fEnd == 0 {
      return;
    }
    var begin, end, inside, found := FindInside(s, f, begin0, end0);
    if !found {
      if f(s[begin]) == 0 {
        dstBegin := begin;
        dstEnd := end;
        RunFromEdges(s, f, begin0, end0, begin, end);
      } else {
        NoRun(s, f, begin0, end0, begin);
      }
      return;
    }
    if dstBegin == NULL_ITERATOR {
      dstBegin := FirstZero(s, f, begin, inside);
    }
    if dstEnd == NULL_ITERATOR {
      dstEnd := PastLastZero(s, f, inside, end, end0);
    }
    RunFromEdges(s, f, begin0, end0, dstBegin, dstEnd);
  }

  /** The first loop: narrows the range to a zero, or to two neighbours (or the first element alone). */
  method FindInside<T>(s: seq<T>, f: T -> int, begin0: nat, end0: nat)
    returns (begin: nat, end: nat, inside: nat, found: bool)
    requires begin0 < end0 <= |s|
    requires f(s[begin0]) <= 0 <= f(s[end0 - 1])
    requires f(s[begin0]) != 0 || f(s[end0 - 1]) != 0
    ensures begin0 <= begin < end <= end0
    ensures begin == begin0 || f(s[begin]) < 0
    ensures if end == end0 then f(s[end - 1]) >= 0 else f(s[end]) > 0
    ensures found ==> begin <= inside < end && f(s[inside]) == 0
    ensures !found ==> end == begin + 1 && end < end0
  {
    begin, end, inside, found := begin0, end0, begin0, false;
    while !found && begin < end - 1
      invariant begin0 <= begin < end <= end0
      invariant begin == begin0 || f(s[begin]) < 0
      invariant end == end0 || f(s[end]) > 0
      invariant found ==> begin <= inside < end && f(s[inside]) == 0
      decreases !found, end - begin
    {
      var pivot := begin + (end - begin) / 2;
      var i := f(s[pivot]);
      if i < 0 {
        begin := pivot;
      } else if i > 0 {
        end := pivot;
      } else {
        inside := pivot;
        found := true;
      }
    }
  }

  /** The second loop: from a negative element to the first zero at or before `inside`. */
  method FirstZero<T>(s: seq<T>, f: T -> int, begin0: nat, inside: nat) returns (first: nat)
    requires begin0 < inside < |s|
    requires f(s[begin0]) < 0 && f(s[inside]) == 0
    requires forall i | begin0 <= i <= inside :: f(s[i]) <= 0
    ensures begin0 < first <= inside
    ensures f(s[first - 1]) < 0 && f(s[first]) == 0
  {
    var begin, end := begin0, inside;
    while begin < end - 1
      invariant begin0 <= begin < end <= inside
      invariant f(s[begin]) < 0 && f(s[end]) == 0
    {
      var pivot := begin + (end - begin) / 2;
      if f(s[pivot]) < 0 {
        begin := pivot;
      } else {
        end := pivot;
      }
    }
    first := end;
  }

  /** The third loop: from the zero `inside` to the end of the zero run. */
  method PastLastZero<T>(s: seq<T>, f: T -> int, inside: nat, high: nat, end0: nat) returns (past: nat)
    requires inside < high <= end0 <= |s|
    requires f(s[inside]) == 0
    requires high == end0 || f(s[high]) > 0
    requires forall i | inside <= i < high :: f(s[i]) >= 0
    ensures inside < past <= high
    ensures f(s[past - 1]) == 0
    ensures past == end0 || f(s[past]) > 0
  {
    var begin, end := inside, high;
    while begin < end - 1
      invariant inside <= begin < end <= high
      invariant f(s[begin]) == 0
      invariant end == end0 || f(s[end]) > 0
    {
      var pivot := begin + (end - begin) / 2;
      if f(s[pivot]) <= 0 {
        begin := pivot;
      } else {
        end := pivot;
      }
    }
    past := end;
  }

  /** The first index of [begin0, end0) at which a monotone predicate holds, or end0. */
  method FindAll<T>(s: seq<T>, f: T -> bool, begin0: nat, end0: nat) returns (first: nat)
    requires begin0 <= end0 <= |s|
    requires forall i, j | begin0 <= i < j < end0 :: f(s[i]) ==> f(s[j])
    ensures begin0 <= first <= end0
    ensures forall i | begin0 <= i < end0 :: f(s[i]) <==> first <= i
  {
    if begin0 >= end0 {
      return end0;
    }
    if f(s[begin0]) {
      return begin0;
    }
    var begin, end := begin0, end0;
    var diff := end - begin;
    while diff > 1
      invariant begin0 <= begin < end <= end0 && diff == end - begin
      invariant !f(s[begin])
      invariant end == end0 || f(s[end])
    {
      var pivot := begin + diff / 2;
      if !f(s[pivot]) {
        begin := pivot;
      } else {
        end := pivot;
      }
      diff := end - begin;
    }
    first := end;
  }
}
