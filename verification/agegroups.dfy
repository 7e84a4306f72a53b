/**
 * The age-groups analytics route: per-age counts from the database are folded into
 * five fixed buckets and returned as five (range, count) pairs in a fixed order.
 */
module AgeGroups {
  import opened Wrappers

  /** One row of the group-by-age query: an age and the number of transactions with it. */
  datatype AgeCount = AgeCount(age: int, count: nat)

  /** One entry of the response. */
  datatype RangeCount = RangeCount(range: string, count: nat)

  const BucketCount := 5
  const Labels: seq<string> := ["18-25", "26-35", "36-45", "46-60", "60+"]

  /** The lowest age of each bucket; a bucket ends where the next begins, the last is open. */
  const LowestAge: seq<int> := [18, 26, 36, 46, 61]

  /** The reference reading of the buckets as half-open integer ranges. */
  predicate InBucket(age: int, k: nat)
  {
    k < BucketCount && LowestAge[k] <= age && (k == BucketCount - 1 || age < LowestAge[k + 1])
  }

  /** The route's if/else-if chain: the bucket an age adds to, or None. */
  function BucketOf(age: int): (b: Option<nat>)
    ensures b.None? <==> age < 18
    ensures b.Some? ==> InBucket(age, b.value)
  {
    if age >= 18 && age <= 25 then Some(0)
    else if age >= 26 && age <= 35 then Some(1)
    else if age >= 36 && age <= 45 then Some(2)
    else if age >= 46 && age <= 60 then Some(3)
    else if age > 60 then Some(4)
    else None
  }

  /** The chain picks exactly the range an age lies in; below 18 there is none. */
  lemma BucketOfIsRange(age: int)
    ensures BucketOf(age).None? <==> age < 18
    ensures forall k: nat :: BucketOf(age) == Some(k) <==> InBucket(age, k)
  {
  }

  /** The boundary ages land where the labels say. */
  lemma BucketBoundaries()
    ensures BucketOf(17).None?
    ensures BucketOf(18) == BucketOf(25) == Some(0)
    ensures BucketOf(26) == BucketOf(35) == Some(1)
    ensures BucketOf(36) == BucketOf(45) == Some(2)
    ensures BucketOf(46) == BucketOf(60) == Some(3)
    ensures BucketOf(61) == Some(4)
  {
  }

  /** One step of the forEach: the item's count goes to its bucket and nowhere else. */
  function AddItem(buckets: seq<nat>, item: AgeCount): (r: seq<nat>)
    requires |buckets| == BucketCount
    ensures |r| == BucketCount
    ensures forall k :: 0 <= k < BucketCount ==>
      r[k] == buckets[k] + (if InBucket(item.age, k) then item.count else 0)
    ensures forall j, k :: 0 <= j < k < BucketCount ==> r[j] == buckets[j] || r[k] == buckets[k]
    ensures item.age < 18 ==> r == buckets
  {
    BucketOfIsRange(item.age);
    match BucketOf(item.age)
    case None => buckets
    case Some(k) => buckets[k := buckets[k] + item.count]
  }

  /** The buckets after the forEach over items, starting from all zeros. */
  function Tally(items: seq<AgeCount>): (r: seq<nat>)
    ensures |r| == BucketCount
  {
    if |items| == 0 then [0, 0, 0, 0, 0]
    else AddItem(Tally(items[..|items| - 1]), items[|items| - 1])
  }

  /** The reference total of bucket k: the counts of the items whose age lies in its range. */
  function RangeTotal(items: seq<AgeCount>, k: nat): nat
  {
    if |items| == 0 then 0
    else (if InBucket(items[0].age, k) then items[0].count else 0) + RangeTotal(items[1..], k)
  }

  /** The counts of the items aged 18 or more. */
  function AdultTotal(items: seq<AgeCount>): nat
  {
    if |items| == 0 then 0
    else (if items[0].age >= 18 then items[0].count else 0) + AdultTotal(items[1..])
  }

  lemma {:induction false} RangeTotalSnoc(items: seq<AgeCount>, item: AgeCount, k: nat)
    ensures RangeTotal(items + [item], k) == RangeTotal(items, k) + (if InBucket(item.age, k) then item.count else 0)
  {
    if |items| > 0 {
      assert (items + [item])[1..] == items[1..] + [item];
      RangeTotalSnoc(items[1..], item, k);
    }
  }

  /** The fold computes, for every bucket, the total of its age range. */
  lemma {:induction false} TallyIsRangeTotal(items: seq<AgeCount>)
    ensures forall k :: 0 <= k < BucketCount ==> Tally(items)[k] == RangeTotal(items, k)
  {
    if |items| > 0 {
      var init := items[..|items| - 1];
      var last := items[|items| - 1];
      TallyIsRangeTotal(init);
      assert items == init + [last];
      forall k | 0 <= k < BucketCount
        ensures Tally(items)[k] == RangeTotal(items, k)
      {
        RangeTotalSnoc(init, last, k);
      }
    }
  }

  function Sum(b: seq<nat>): nat
    requires |b| == BucketCount
  {
    b[0] + b[1] + b[2] + b[3] + b[4]
  }

  /** The five ranges split the adults: their totals add up to the adult total. */
  lemma {:induction false} RangesCoverAdults(items: seq<AgeCount>)
    ensures RangeTotal(items, 0) + RangeTotal(items, 1) + RangeTotal(items, 2)
      + RangeTotal(items, 3) + RangeTotal(items, 4) == AdultTotal(items)
  {
    if |items| > 0 {
      RangesCoverAdults(items[1..]);
    }
  }

  /** No count is lost or counted twice: the buckets sum to the counts of the items aged 18 or more. */
  lemma BucketsSumToAdults(items: seq<AgeCount>)
    ensures Sum(Tally(items)) == AdultTotal(items)
  {
    TallyIsRangeTotal(items);
    RangesCoverAdults(items);
  }

  /** The response: five entries in label order, each with its range's total. */
  function AgeGroupsResponse(items: seq<AgeCount>): (r: seq<RangeCount>)
    ensures |r| == BucketCount
    ensures forall k :: 0 <= k < BucketCount ==> r[k].range == Labels[k] && r[k].count == RangeTotal(items, k)
  {
    var buckets := Tally(items);
    TallyIsRangeTotal(items);
    seq(BucketCount, k requires 0 <= k < BucketCount => RangeCount(Labels[k], buckets[k]))
  }
}
