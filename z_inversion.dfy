/** The majority-vote heuristic that decides whether a log recorded the z-axis inverted,
    so that a retracted probe reads as the travel limit instead of 0. */
module ZInversion {
  import opened Registry

  /** Rounds `z` to the nearest multiple of 100, halves going to the even multiple
      (what rounding to -2 decimals does). */
  function RoundToHundred(z: int): (r: int)
    ensures r % 100 == 0
    ensures z - 50 <= r <= z + 50
    ensures (r == z - 50 || r == z + 50) ==> (r / 100) % 2 == 0
  {
    var q, rem := z / 100, z % 100;
    if rem < 50 then q * 100
    else if rem > 50 then (q + 1) * 100
    else if q % 2 == 0 then q * 100
    else (q + 1) * 100
  }

  /** The three properties in the contract of `RoundToHundred` pin its result down. */
  lemma RoundToHundredUnique(z: int, r: int)
    requires r % 100 == 0
    requires z - 50 <= r <= z + 50
    requires (r == z - 50 || r == z + 50) ==> (r / 100) % 2 == 0
    ensures r == RoundToHundred(z)
  {
    var q, rem := z / 100, z % 100;
    var k := r / 100;
    assert r == 100 * k;
    assert z == 100 * q + rem;
  }

  /** The number of readings in `zs` that round to `v`: one bucket of the counter. */
  function Count(zs: seq<int>, v: int): (n: nat)
    ensures n <= |zs|
  {
    if zs == [] then 0
    else (if RoundToHundred(zs[0]) == v then 1 else 0) + Count(zs[1..], v)
  }

  /** The travel limit the sample is judged against: long travel as soon as any
      reading rounds to 15000, short travel otherwise. */
  function ZLimit(zs: seq<int>): (limit: int)
    ensures limit == LongTravelRange <==> Count(zs, LongTravelRange) > 0
    ensures limit == ShortTravelRange <==> Count(zs, LongTravelRange) == 0
  {
    if Count(zs, LongTravelRange) > 0 then LongTravelRange else ShortTravelRange
  }

  /** The z-axis counts as inverted when strictly more readings sit at the limit
      than at 0; a tie, 0 against 0 included, counts as not inverted.  So inversion
      needs a reading at the limit, and a sample with at least half of its readings
      retracted at 0 (the heuristic's assumption) is never judged inverted. */
  function IsZInverted(zs: seq<int>): (inverted: bool)
    ensures inverted ==> Count(zs, ZLimit(zs)) > 0
    ensures 2 * Count(zs, 0) >= |zs| ==> !inverted
  {
    CountPairBound(zs, 0, ZLimit(zs));
    Count(zs, 0) < Count(zs, ZLimit(zs))
  }

  /** Two different buckets together hold at most every reading. */
  lemma {:induction false} CountPairBound(zs: seq<int>, v: int, w: int)
    requires v != w
    ensures Count(zs, v) + Count(zs, w) <= |zs|
  {
    if zs != [] { CountPairBound(zs[1..], v, w); }
  }

  /** The documented examples. */
  lemma IsZInvertedExamples()
    ensures !IsZInverted([0, 3000, 3000, 0])
    ensures IsZInverted([15000, 3000, 3000, 15000])
  {
    assert RoundToHundred(3000) == 3000;
    assert RoundToHundred(15000) == 15000;
    assert Count([0], 0) == 1;
    assert Count([3000, 0], 0) == 1;
    assert Count([3000, 3000, 0], 0) == 1;
    assert Count([15000], 15000) == 1;
    assert Count([3000, 15000], 15000) == 1;
    assert Count([3000, 3000, 15000], 15000) == 1;
    assert Count([15000], 0) == 0;
    assert Count([3000, 15000], 0) == 0;
    assert Count([3000, 3000, 15000], 0) == 0;
    assert Count([0], 15000) == 0;
    assert Count([3000, 0], 15000) == 0;
    assert Count([3000, 3000, 0], 15000) == 0;
  }

  /** Every reading mirrored about `limit`: the correction `z := limit - z`. */
  function Reflect(zs: seq<int>, limit: int): (r: seq<int>)
    ensures |r| == |zs|
    ensures forall i :: 0 <= i < |zs| ==> r[i] == limit - zs[i]
  {
    if zs == [] then [] else [limit - zs[0]] + Reflect(zs[1..], limit)
  }

  /** Rounding commutes with mirroring about a travel limit, because both limits
      are even multiples of 100. */
  lemma RoundReflect(z: int, limit: int)
    requires limit == ShortTravelRange || limit == LongTravelRange
    ensures RoundToHundred(limit - z) == limit - RoundToHundred(z)
  {
    var m := limit / 100;
    assert limit == 100 * m && m % 2 == 0;
    var q, rem := z / 100, z % 100;
    assert z == 100 * q + rem && 0 <= rem < 100;
    if rem == 0 {
      assert limit - z == 100 * (m - q);
      assert (limit - z) / 100 == m - q && (limit - z) % 100 == 0;
    } else {
      assert limit - z == 100 * (m - q - 1) + (100 - rem);
      assert (limit - z) / 100 == m - q - 1 && (limit - z) % 100 == 100 - rem;
    }
  }

  /** Mirroring the sample about a limit exchanges the bucket of `v` with that of `limit - v`. */
  lemma {:induction false} CountReflect(zs: seq<int>, limit: int, v: int)
    requires limit == ShortTravelRange || limit == LongTravelRange
    ensures Count(Reflect(zs, limit), v) == Count(zs, limit - v)
  {
    if zs != [] {
      RoundReflect(zs[0], limit);
      assert Reflect(zs, limit)[1..] == Reflect(zs[1..], limit);
      CountReflect(zs[1..], limit, v);
    }
  }

  /** Correcting an inverted sample with `z := limit - z` gives a sample the heuristic
      judges not inverted, provided the corrected sample is judged against the same limit. */
  lemma CorrectedSampleNotInverted(zs: seq<int>)
    requires IsZInverted(zs)
    requires ZLimit(Reflect(zs, ZLimit(zs))) == ZLimit(zs)
    ensures !IsZInverted(Reflect(zs, ZLimit(zs)))
  {
    var limit := ZLimit(zs);
    CountReflect(zs, limit, 0);
    CountReflect(zs, limit, limit);
  }
}
