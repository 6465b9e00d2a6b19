/** IntHistogram.java: the histogram object whose bucket array is filled by
    the constructor and updated in place by `addValue`. Every method is
    proved against the functions of module HistogramSpec. */
module Histogram {
  import opened Common
  import opened HistogramSpec

  class IntHistogram {
    const buckets: int
    const min: int
    const max: int
    /** The bucket width, a whole number. */
    const avg: int
    const myGrams: array<Gram>
    var ntups: int

    /** The histogram as a value. */
    ghost function State(): Hist
      reads this, myGrams
    {
      Hist(buckets, min, max, avg, myGrams[..], ntups)
    }

    ghost predicate Valid()
      reads this, myGrams
    {
      WellFormed(State())
    }

    /** Lays out `buckets` buckets of width `ceil((max - min) / buckets)`
        end to end from `min`, all empty. */
    constructor (buckets: int, min: int, max: int)
      requires 1 <= buckets && min <= max
      ensures Valid() && fresh(myGrams)
      ensures this.buckets == buckets && this.min == min && this.max == max && ntups == 0
      ensures avg == Width(min, max, buckets)
      ensures forall j :: 0 <= j < buckets ==> myGrams[j] == Bucket(min, avg, j, 0)
    {
      this.buckets := buckets;
      this.min := min;
      this.max := max;
      var width := Width(min, max, buckets);
      this.avg := width;
      myGrams := new Gram[buckets](_ => Gram(0, 0, 0, 0));
      ntups := 0;
      new;
      var left := min;
      for i := 0 to buckets
        invariant left == min + i * avg && ntups == 0
        invariant forall j :: 0 <= j < i ==> myGrams[j] == Bucket(min, avg, j, 0)
      {
        var right := left + avg;
        myGrams[i] := Gram(left, right, right - left, 0);
        left := right;
      }
      InitialLayout(buckets, min, max, myGrams[..]);
    }

    /** Finds the bucket holding `v` by halving the index range. */
    method BinarySearch(v: int) returns (index: int)
      requires Valid()
      ensures index == BucketIndex(State(), v)
    {
      var left, right := 0, buckets - 1;
      while left <= right
        invariant 0 <= left <= right + 1 <= buckets
        invariant forall j :: 0 <= j < left ==> myGrams[j].right <= v
        invariant forall j :: right < j < buckets ==> v < myGrams[j].left
        decreases right - left
      {
        var mid := (left + right) / 2;
        assert myGrams[mid] == State().grams[mid];
        if InRange(myGrams[mid], v) {
          IndexOfCovered(State(), mid, v);
          return mid;
        } else if myGrams[mid].left > v {
          forall j | mid <= j < buckets ensures v < myGrams[j].left {
            assert myGrams[j] == State().grams[j];
            MulMono(mid, j, avg);
          }
          right := mid - 1;
        } else {
          forall j | 0 <= j <= mid ensures myGrams[j].right <= v {
            assert myGrams[j] == State().grams[j];
            MulMono(j + 1, mid + 1, avg);
          }
          left := mid + 1;
        }
      }
      BucketIndexMeans(State(), v);
      assert forall j :: 0 <= j < buckets ==> !InRange(State().grams[j], v);
      return -1;
    }

    /** Counts `v` in its bucket; a value in no bucket is dropped. */
    method AddValue(v: int)
      requires Valid()
      modifies this, myGrams
      ensures Valid()
      ensures State() == Add(old(State()), v)
    {
      var index := BinarySearch(v);
      if index != -1 {
        BucketIndexMeans(State(), v);
        myGrams[index] := myGrams[index].(count := myGrams[index].count + 1);
        ntups := ntups + 1;
      }
      AddCounts(old(State()), v);
    }

    /** The loop over the buckets `lo` up to `hi`, lowest first. */
    method SharesUp(lo: int, hi: int) returns (res: real)
      requires Valid() && 0 <= lo <= hi <= buckets && ntups > 0
      ensures res == Share(myGrams[..], lo, hi, ntups)
    {
      res := 0.0;
      for i := lo to hi
        invariant res == Share(myGrams[..], lo, i, ntups)
      {
        res := res + (myGrams[i].count as real) / (ntups as real);
      }
    }

    /** The loop over the buckets below `hi`, highest first. */
    method SharesDown(hi: int) returns (res: real)
      requires Valid() && 0 <= hi <= buckets && ntups > 0
      ensures res == Share(myGrams[..], 0, hi, ntups)
    {
      res := 0.0;
      var i := hi - 1;
      while i >= 0
        invariant -1 <= i < hi
        invariant res == Share(myGrams[..], i + 1, hi, ntups)
      {
        ShareFront(myGrams[..], i, hi, ntups);
        res := res + (myGrams[i].count as real) / (ntups as real);
        i := i - 1;
      }
    }

    /** The estimated fraction of values satisfying `op v`, with the
        LESS_THAN branch for a value beyond every bucket answering 1.0. */
    method EstimateSelectivity(op: Op, v: int) returns (r: Estimate)
      requires Valid()
      ensures r == Selectivity(State(), op, v)
    {
      var index := BinarySearch(v);
      BucketIndexMeans(State(), v);
      var cur: Option<Gram> := None;
      if index != -1 {
        cur := Some(myGrams[index]);
      }
      match op {
        case Equals =>
          if cur == None {
            r := Ratio(0.0);
          } else if ntups == 0 {
            r := NaN;
          } else {
            r := Ratio(((cur.value.count as real) / (cur.value.w as real)) / (ntups as real));
          }
        case GreaterThan =>
          if v < min {
            r := Ratio(1.0);
          } else if v >= max {
            r := Ratio(0.0);
          } else if cur != None {
            if ntups == 0 {
              r := NaN;
            } else {
              var rest := SharesUp(index + 1, buckets);
              r := Ratio(Part(cur.value, cur.value.right - v, ntups) + rest);
            }
          } else {
            r := Ratio(0.0);
          }
        case LessThan =>
          if v <= min {
            r := Ratio(0.0);
          } else if v > max || cur == None {
            r := Ratio(1.0);
          } else if ntups == 0 {
            r := NaN;
          } else {
            var rest := SharesUp(0, index);
            r := Ratio(Part(cur.value, v - cur.value.left, ntups) + rest);
          }
        case NotEquals =>
          if cur == None {
            r := Ratio(1.0);
          } else if ntups == 0 {
            r := NaN;
          } else {
            r := Ratio(1.0 - (cur.value.count as real) / (ntups as real));
          }
        case GreaterThanOrEq =>
          if v <= min {
            r := Ratio(1.0);
          } else if v > max {
            r := Ratio(0.0);
          } else if cur != None {
            if ntups == 0 {
              r := NaN;
            } else {
              var rest := SharesUp(index + 1, buckets);
              r := Ratio(Part(cur.value, cur.value.right - v + 1, ntups) + rest);
            }
          } else {
            r := Ratio(0.0);
          }
        case LessThanOrEq =>
          if v < min {
            r := Ratio(0.0);
          } else if v >= max {
            r := Ratio(1.0);
          } else if cur != None {
            if ntups == 0 {
              r := NaN;
            } else {
              var rest := SharesDown(index);
              r := Ratio(Part(cur.value, v - cur.value.left + 1, ntups) + rest);
            }
          } else {
            r := Ratio(0.0);
          }
        case Like =>
          r := Ratio(0.0);
      }
    }

    /** `avgSelectivity`: the width shared by every bucket. */
    function AvgSelectivity(): (r: real)
      requires Valid()
      reads this, myGrams
      ensures forall j :: 0 <= j < buckets ==> (myGrams[j].right - myGrams[j].left) as real == r
    {
      assert forall j :: 0 <= j < buckets ==> myGrams[j] == State().grams[j];
      avg as real
    }
  }
}
