/** `sortRoomsByTags`: the display order of the room list. Rooms that have
    tag ids come first; among rooms alike in that respect, rooms with
    pictures come first; all other ties keep their input order, because
    `Array.prototype.sort` is stable (section 23.1.3.30 of ECMA-262, 2023
    edition). */
module DisplaySort {
  import opened Sequences
  import opened RoomSearch

  predicate HasTags(room: Room)
  {
    |room.tagIds| > 0
  }

  predicate HasPictures(room: Room)
  {
    |room.picturesURL| > 0
  }

  /** The comparator handed to `rooms.sort`: negative puts `a` first,
      positive puts `b` first, zero is a tie. */
  function Compare(a: Room, b: Room): int
  {
    if |a.tagIds| == 0 && |b.tagIds| > 0 then 1
    else if |a.tagIds| > 0 && |b.tagIds| == 0 then -1
    else if |a.picturesURL| == 0 && |b.picturesURL| > 0 then 1
    else if |a.picturesURL| > 0 && |b.picturesURL| == 0 then -1
    else 0
  }

  /** The display bucket of a room: 0 tags and pictures, 1 tags only,
      2 pictures only, 3 neither. */
  function Rank(room: Room): int
  {
    (if HasTags(room) then 0 else 2) + (if HasPictures(room) then 0 else 1)
  }

  /** The comparator orders rooms exactly by their bucket, so it is a
      consistent comparator in the sense of `Array.prototype.sort`:
      antisymmetric, and transitive because buckets are integers. */
  lemma CompareIsRankOrder(a: Room, b: Room)
    ensures Compare(a, b) < 0 <==> Rank(a) < Rank(b)
    ensures Compare(a, b) == 0 <==> Rank(a) == Rank(b)
    ensures Compare(a, b) > 0 <==> Rank(a) > Rank(b)
    ensures Compare(a, b) == -Compare(b, a)
  {
  }

  /** Ordered for display: no room is in a later bucket than a room after it. */
  ghost predicate SortedForDisplay(s: seq<Room>)
  {
    forall i, j :: 0 <= i < j < |s| ==> Rank(s[i]) <= Rank(s[j])
  }

  /** Sorted by bucket means the two-level order of the comparator: tagged
      rooms before untagged ones, and with equal tag presence, rooms with
      pictures before rooms without. */
  lemma SortedIsTwoLevelOrder(s: seq<Room>)
    ensures SortedForDisplay(s) <==>
      forall i, j :: 0 <= i < j < |s| ==>
        (HasTags(s[j]) ==> HasTags(s[i])) &&
        (HasTags(s[i]) == HasTags(s[j]) && HasPictures(s[j]) ==> HasPictures(s[i]))
  {
  }

  function InBucket(k: int): Room -> bool
  {
    room => Rank(room) == k
  }

  /** The rooms of bucket `k`, in their order in `s`. */
  function Bucket(s: seq<Room>, k: int): seq<Room>
  {
    Filter(s, InBucket(k))
  }

  /** The stable display order of `s`: its buckets one after the other,
      each in input order. */
  function DisplayOrder(s: seq<Room>): seq<Room>
  {
    Bucket(s, 0) + Bucket(s, 1) + Bucket(s, 2) + Bucket(s, 3)
  }

  /** Both sequences have the same four buckets, each in the same order. */
  ghost predicate SameBuckets(s: seq<Room>, t: seq<Room>)
  {
    Bucket(s, 0) == Bucket(t, 0) && Bucket(s, 1) == Bucket(t, 1) &&
    Bucket(s, 2) == Bucket(t, 2) && Bucket(s, 3) == Bucket(t, 3)
  }

  lemma BucketCons(x: Room, t: seq<Room>, k: int)
    ensures Bucket([x] + t, k) == (if Rank(x) == k then [x] else []) + Bucket(t, k)
  {
    FilterCons(x, t, InBucket(k));
  }

  /** A room belongs to exactly one of the buckets 0 to 3. */
  lemma {:induction false} BucketsPartition(s: seq<Room>)
    ensures multiset(s) == multiset(Bucket(s, 0)) + multiset(Bucket(s, 1)) + multiset(Bucket(s, 2)) + multiset(Bucket(s, 3))
  {
    if s != [] {
      var x, t := s[0], s[1..];
      assert s == [x] + t;
      BucketsPartition(t);
      BucketCons(x, t, 0);
      BucketCons(x, t, 1);
      BucketCons(x, t, 2);
      BucketCons(x, t, 3);
    }
  }

  /** The display order is a permutation of its input. */
  lemma DisplayOrderPermutes(s: seq<Room>)
    ensures multiset(DisplayOrder(s)) == multiset(s)
  {
    BucketsPartition(s);
  }

  /** The display order is sorted by bucket. */
  lemma DisplayOrderSorted(s: seq<Room>)
    ensures SortedForDisplay(DisplayOrder(s))
  {
    var d := DisplayOrder(s);
    var b0, b1, b2, b3 := Bucket(s, 0), Bucket(s, 1), Bucket(s, 2), Bucket(s, 3);
    FilterMembership(s, InBucket(0));
    FilterMembership(s, InBucket(1));
    FilterMembership(s, InBucket(2));
    FilterMembership(s, InBucket(3));
    forall i | 0 <= i < |d|
      ensures Rank(d[i]) == if i < |b0| then 0 else if i < |b0| + |b1| then 1
                            else if i < |b0| + |b1| + |b2| then 2 else 3
    {
      if i < |b0| {
        assert d[i] in b0;
      } else if i < |b0| + |b1| {
        assert d[i] == b1[i - |b0|];
        assert d[i] in b1;
      } else if i < |b0| + |b1| + |b2| {
        assert d[i] == b2[i - |b0| - |b1|];
        assert d[i] in b2;
      } else {
        assert d[i] == b3[i - |b0| - |b1| - |b2|];
        assert d[i] in b3;
      }
    }
  }

  /** Every bucket of the display order is that bucket of the input: rooms
      alike in tag presence and picture presence keep their input order. */
  lemma DisplayOrderStable(s: seq<Room>, k: int)
    ensures Bucket(DisplayOrder(s), k) == Bucket(s, k)
  {
    var b0, b1, b2, b3 := Bucket(s, 0), Bucket(s, 1), Bucket(s, 2), Bucket(s, 3);
    var p := InBucket(k);
    FilterConcat(b0 + b1 + b2, b3, p);
    FilterConcat(b0 + b1, b2, p);
    FilterConcat(b0, b1, p);
    BucketOfBucket(s, 0, k);
    BucketOfBucket(s, 1, k);
    BucketOfBucket(s, 2, k);
    BucketOfBucket(s, 3, k);
    if !(0 <= k < 4) {
      FilterAllOrNone(s, p);
    }
    SelectBucket(k, Bucket(b0, k), Bucket(b1, k), Bucket(b2, k), Bucket(b3, k), Bucket(s, k));
  }

  /** Sequence bookkeeping for `DisplayOrderStable`: when at most the `k`th
      of four parts is non-empty, their concatenation is that part. */
  lemma SelectBucket<T>(k: int, e0: seq<T>, e1: seq<T>, e2: seq<T>, e3: seq<T>, b: seq<T>)
    requires e0 == (if k == 0 then b else []) && e1 == (if k == 1 then b else [])
    requires e2 == (if k == 2 then b else []) && e3 == (if k == 3 then b else [])
    requires !(0 <= k < 4) ==> b == []
    ensures e0 + e1 + e2 + e3 == b
  {
  }

  lemma BucketOfBucket(s: seq<Room>, j: int, k: int)
    ensures Bucket(Bucket(s, j), k) == if j == k then Bucket(s, k) else []
  {
    FilterMembership(s, InBucket(j));
    FilterAllOrNone(Bucket(s, j), InBucket(k));
  }

  /** A sequence already in display order is its own display order. */
  lemma {:induction false} SortedIsFixed(s: seq<Room>)
    requires SortedForDisplay(s)
    ensures DisplayOrder(s) == s
  {
    if s != [] {
      var x, t := s[0], s[1..];
      assert s == [x] + t;
      assert SortedForDisplay(t);
      SortedIsFixed(t);
      forall y | y in t ensures Rank(x) <= Rank(y) {
        var m :| 0 <= m < |t| && t[m] == y;
        assert s[m + 1] == y;
      }
      DisplayOrderCons(x, t);
    }
  }

  /** A room in a bucket no later than any room of `t` goes in front of
      the display order of `t`. */
  lemma DisplayOrderCons(x: Room, t: seq<Room>)
    requires forall y :: y in t ==> Rank(x) <= Rank(y)
    ensures DisplayOrder([x] + t) == [x] + DisplayOrder(t)
  {
    BucketCons(x, t, 0);
    BucketCons(x, t, 1);
    BucketCons(x, t, 2);
    BucketCons(x, t, 3);
    EarlierBucketsEmpty(t, Rank(x));
    PrependToBuckets(x, Rank(x), Bucket([x] + t, 0), Bucket([x] + t, 1), Bucket([x] + t, 2), Bucket([x] + t, 3),
                     Bucket(t, 0), Bucket(t, 1), Bucket(t, 2), Bucket(t, 3));
  }

  /** Sequence bookkeeping for `DisplayOrderCons`: adding `x` in front of
      bucket `r`, when the buckets before `r` are empty, adds it in front of
      the concatenation. */
  lemma PrependToBuckets<T>(x: T, r: int, c0: seq<T>, c1: seq<T>, c2: seq<T>, c3: seq<T>,
                            b0: seq<T>, b1: seq<T>, b2: seq<T>, b3: seq<T>)
    requires 0 <= r < 4
    requires c0 == (if r == 0 then [x] else []) + b0 && c1 == (if r == 1 then [x] else []) + b1
    requires c2 == (if r == 2 then [x] else []) + b2 && c3 == (if r == 3 then [x] else []) + b3
    requires (r > 0 ==> b0 == []) && (r > 1 ==> b1 == []) && (r > 2 ==> b2 == [])
    ensures c0 + c1 + c2 + c3 == [x] + (b0 + b1 + b2 + b3)
  {
    if r == 0 {
    } else if r == 1 {
    } else if r == 2 {
    } else {
    }
  }

  /** If no room of `t` is in a bucket below `r`, those buckets are empty. */
  lemma EarlierBucketsEmpty(t: seq<Room>, r: int)
    requires forall y :: y in t ==> r <= Rank(y)
    ensures forall k :: k < r ==> Bucket(t, k) == []
  {
    forall k | k < r ensures Bucket(t, k) == [] {
      FilterAllOrNone(t, InBucket(k));
    }
  }

  /** Sorting for display a second time changes nothing. */
  lemma DisplayOrderIdempotent(s: seq<Room>)
    ensures DisplayOrder(DisplayOrder(s)) == DisplayOrder(s)
  {
    DisplayOrderSorted(s);
    SortedIsFixed(DisplayOrder(s));
  }

  /** A stable sort is determined by its result being sorted and keeping
      every bucket: any such rearrangement of `s` is `DisplayOrder(s)`. */
  lemma DisplayOrderUnique(s: seq<Room>, t: seq<Room>)
    requires SortedForDisplay(t)
    requires SameBuckets(t, s)
    ensures t == DisplayOrder(s)
  {
    SortedIsFixed(t);
  }

  /** Exchanging two neighbours from different buckets leaves every bucket
      as it was. */
  lemma SwapKeepsBuckets(s: seq<Room>, j: int)
    requires 0 < j < |s| && Rank(s[j - 1]) != Rank(s[j])
    ensures SameBuckets(Swapped(s, j), s)
  {
    var x, y := s[j - 1], s[j];
    var t := Swapped(s, j);
    var front, back := s[..j - 1], s[j + 1..];
    assert s == front + ([x, y] + back);
    assert t == front + ([y, x] + back);
    forall k | 0 <= k < 4 ensures Bucket(t, k) == Bucket(s, k) {
      FilterConcat(front, [x, y] + back, InBucket(k));
      FilterConcat(front, [y, x] + back, InBucket(k));
      SwapPairKeepsBucket(x, y, back, k);
    }
  }

  lemma SwapPairKeepsBucket(x: Room, y: Room, back: seq<Room>, k: int)
    requires Rank(x) != Rank(y)
    ensures Bucket([x, y] + back, k) == Bucket([y, x] + back, k)
  {
    assert [x, y] + back == [x] + ([y] + back);
    assert [y, x] + back == [y] + ([x] + back);
    BucketCons(x, [y] + back, k);
    BucketCons(y, back, k);
    BucketCons(y, [x] + back, k);
    BucketCons(x, back, k);
  }

  /** Having the same buckets is transitive. */
  lemma SameBucketsTransitive(s: seq<Room>, t: seq<Room>, u: seq<Room>)
    requires SameBuckets(s, t) && SameBuckets(t, u)
    ensures SameBuckets(s, u)
  {
  }

  /** `rooms.sort(compare)` on the array itself, as a stable insertion sort
      that moves each room left past the rooms that compare after it. */
  method SortRoomsByTags(a: array<Room>)
    modifies a
    ensures a[..] == DisplayOrder(old(a[..]))
    ensures SortedForDisplay(a[..])
    ensures multiset(a[..]) == multiset(old(a[..]))
    ensures SameBuckets(a[..], old(a[..]))
  {
    var i := 0;
    while i < a.Length
      invariant 0 <= i <= a.Length
      invariant SortedUpTo(a[..], i)
      invariant multiset(a[..]) == multiset(old(a[..]))
      invariant SameBuckets(a[..], old(a[..]))
    {
      ghost var before := a[..];
      InsertLeft(a, i);
      SameBucketsTransitive(a[..], before, old(a[..]));
      i := i + 1;
    }
    DisplayOrderUnique(old(a[..]), a[..]);
  }

  /** One pass of the insertion sort: `a[i]` moves left past every room of
      the sorted prefix `a[..i]` that compares after it, and stops behind
      the first that does not, so equal rooms keep their order. */
  method InsertLeft(a: array<Room>, i: int)
    requires 0 <= i < a.Length
    requires SortedUpTo(a[..], i)
    modifies a
    ensures SortedUpTo(a[..], i + 1)
    ensures a[i + 1..] == old(a[i + 1..])
    ensures multiset(a[..]) == multiset(old(a[..]))
    ensures SameBuckets(a[..], old(a[..]))
  {
    var j := i;
    while j > 0 && Compare(a[j - 1], a[j]) > 0
      invariant Inserting(a[..], i, j)
      invariant a[i + 1..] == old(a[i + 1..])
      invariant multiset(a[..]) == multiset(old(a[..]))
      invariant SameBuckets(a[..], old(a[..]))
      decreases j
    {
      CompareIsRankOrder(a[j - 1], a[j]);
      ghost var prev := a[..];
      a[j - 1], a[j] := a[j], a[j - 1];
      assert a[..] == Swapped(prev, j);
      SwapStep(prev, i, j);
      SameBucketsTransitive(a[..], prev, old(a[..]));
      j := j - 1;
    }
    if j > 0 {
      CompareIsRankOrder(a[j - 1], a[j]);
    }
    InsertionDone(a[..], i, j);
  }

  /** The first `n` rooms of `s` are in display order. */
  ghost predicate SortedUpTo(s: seq<Room>, n: int)
  {
    forall p, q :: 0 <= p < q < n && q < |s| ==> Rank(s[p]) <= Rank(s[q])
  }

  /** Midway through a pass: the room being inserted sits at `j`, the rooms
      `s[..i + 1]` without it are sorted, and it is no later than any room
      it has passed. */
  ghost predicate Inserting(s: seq<Room>, i: int, j: int)
  {
    0 <= j <= i < |s| &&
    (forall p, q :: 0 <= p < q <= i && p != j && q != j ==> Rank(s[p]) <= Rank(s[q])) &&
    (forall q :: j < q <= i ==> Rank(s[j]) <= Rank(s[q]))
  }

  function Swapped(s: seq<Room>, j: int): seq<Room>
    requires 0 < j < |s|
  {
    s[j - 1 := s[j]][j := s[j - 1]]
  }

  /** Moving the inserted room one place left, past a room in a later bucket,
      keeps the pass's invariant, the multiset and the buckets. */
  lemma SwapStep(s: seq<Room>, i: int, j: int)
    requires Inserting(s, i, j) && 0 < j && Rank(s[j - 1]) > Rank(s[j])
    ensures Inserting(Swapped(s, j), i, j - 1)
    ensures multiset(Swapped(s, j)) == multiset(s)
    ensures SameBuckets(Swapped(s, j), s)
  {
    SwapKeepsBuckets(s, j);
  }

  /** The pass ends when the inserted room reaches the front or a room that
      is not in a later bucket: then the first `i + 1` rooms are sorted. */
  lemma InsertionDone(s: seq<Room>, i: int, j: int)
    requires Inserting(s, i, j) && (j == 0 || Rank(s[j - 1]) <= Rank(s[j]))
    ensures SortedUpTo(s, i + 1)
  {
  }

  /** The room list as the component shows it: the rooms `filterRooms`
      selects, sorted for display. */
  method BrowseList(catalog: seq<Room>, minPrice: int, maxPrice: int, tagSearch: string) returns (shown: seq<Room>)
    ensures shown == DisplayOrder(FilterRooms(catalog, minPrice, maxPrice, tagSearch))
    ensures SortedForDisplay(shown)
    ensures forall room :: room in shown <==> room in catalog && MatchesQuery(room, minPrice, maxPrice, tagSearch)
  {
    var filtered := FilterRooms(catalog, minPrice, maxPrice, tagSearch);
    var a := new Room[|filtered|](i requires 0 <= i < |filtered| => filtered[i]);
    assert a[..] == filtered;
    SortRoomsByTags(a);
    shown := a[..];
    assert multiset(shown) == multiset(filtered);
    forall room ensures room in shown <==> room in filtered {
      assert room in shown <==> room in multiset(shown);
      assert room in filtered <==> room in multiset(filtered);
    }
  }
}
