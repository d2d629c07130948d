/**
 * The statistics summary: the per-status counts read from the counts map,
 * their total, and the success and interview rates as percentages rounded
 * to two decimals. Rates are carried as whole hundredths of a percent
 * (33.33% is 3333), rounded half to even as Math.Round(decimal, 2) does.
 */
module Statistics {
  import opened Domain
  import opened Arithmetic

  datatype JobApplicationStatistics = JobApplicationStatistics(
    totalCount: nat,
    appliedCount: nat,
    interviewCount: nat,
    offerCount: nat,
    rejectedCount: nat,
    /** Offers over all applications, in hundredths of a percent. */
    successRate: nat,
    /** Interviews over interviews plus applied, in hundredths of a percent. */
    interviewRate: nat)

  /** Dictionary.TryGetValue with 0 as the fallback. */
  function CountOf(counts: map<Status, nat>, s: Status): (n: nat)
    ensures s in counts ==> n == counts[s]
    ensures s !in counts ==> n == 0
  {
    if s in counts then counts[s] else 0
  }

  /** Values.Sum(), taken over the keys in whatever order the dictionary yields them. */
  ghost function ValuesSum(counts: map<Status, nat>): nat
    decreases |counts|
  {
    if counts == map[] then 0
    else
      var k :| k in counts;
      counts[k] + ValuesSum(counts - {k})
  }

  /** The sum of the four per-status counts. */
  function StatusTotal(counts: map<Status, nat>): (n: nat)
    ensures n >= CountOf(counts, Applied) + CountOf(counts, Offer)
    ensures n >= CountOf(counts, Interview)
  {
    CountOf(counts, Applied) + CountOf(counts, Interview) + CountOf(counts, Offer) + CountOf(counts, Rejected)
  }

  /** Because the status set is closed, summing the values equals summing the four statuses. */
  lemma {:induction false} ValuesSumIsStatusTotal(counts: map<Status, nat>)
    ensures ValuesSum(counts) == StatusTotal(counts)
    decreases |counts|
  {
    if counts != map[] {
      var k :| k in counts && ValuesSum(counts) == counts[k] + ValuesSum(counts - {k});
      var rest := counts - {k};
      ValuesSumIsStatusTotal(rest);
      assert CountOf(rest, k) == 0;
      forall s | s != k ensures CountOf(rest, s) == CountOf(counts, s) {
      }
    }
  }

  /** num / den rounded to the nearest integer, a tie going to the even neighbour. */
  function RoundHalfEven(num: nat, den: nat): (q: nat)
    requires den > 0
    ensures 2 * (q * den - num) <= den && 2 * (num - q * den) <= den
    ensures (2 * (q * den - num) == den || 2 * (num - q * den) == den) ==> q % 2 == 0
  {
    var f, r := num / den, num % den;
    assert num == f * den + r;
    if 2 * r < den then f
    else if 2 * r > den then f + 1
    else if f % 2 == 0 then f
    else f + 1
  }

  /** The nearest integer is unique unless there is a tie. */
  lemma {:induction false} RoundHalfEvenUnique(num: nat, den: nat, k: int)
    requires den > 0
    requires 2 * (k * den - num) < den && 2 * (num - k * den) < den
    ensures RoundHalfEven(num, den) == k
  {
    var q := RoundHalfEven(num, den);
    if q > k {
      MulStep(k, q, den);
    } else if q < k {
      MulStep(q, k, den);
    }
  }

  lemma MulStep(a: int, b: int, d: nat)
    requires a < b
    ensures a * d + d <= b * d
  {
    MulMonotone(a + 1, b, d);
    MulSucc(a, d);
  }

  /** An exact quotient is returned unchanged. */
  lemma {:induction false} RoundHalfEvenExact(k: nat, den: nat)
    requires den > 0
    ensures RoundHalfEven(k * den, den) == k
  {
    RoundHalfEvenUnique(k * den, den, k);
  }

  /** A fraction no larger than 1 rounds to at most 100.00%. */
  lemma {:induction false} RateAtMostWhole(part: nat, whole: nat)
    requires 0 < whole && part <= whole
    ensures RoundHalfEven(part * 10000, whole) <= 10000
  {
    var q := RoundHalfEven(part * 10000, whole);
    MulMonotone(part, whole, 10000);
    if q > 10000 {
      MulStep(10000, q, whole);
      assert false;
    }
  }

  /** Math.Round((decimal)part / whole * 100, 2), in hundredths. */
  function Percent(part: nat, whole: nat): (q: nat)
    requires whole > 0
    ensures 2 * (q * whole - part * 10000) <= whole && 2 * (part * 10000 - q * whole) <= whole
    ensures (2 * (q * whole - part * 10000) == whole || 2 * (part * 10000 - q * whole) == whole) ==> q % 2 == 0
    ensures part <= whole ==> q <= 10000
  {
    var q := RoundHalfEven(part * 10000, whole);
    if part <= whole then RateAtMostWhole(part, whole); q else q
  }

  /** GetStatisticsAsync's arithmetic over the counts map. */
  function ComputeStatistics(counts: map<Status, nat>): (st: JobApplicationStatistics)
    ensures st.totalCount == ValuesSum(counts)
    ensures st.appliedCount == CountOf(counts, Applied) && st.interviewCount == CountOf(counts, Interview)
    ensures st.offerCount == CountOf(counts, Offer) && st.rejectedCount == CountOf(counts, Rejected)
    ensures st.successRate <= 10000 && st.interviewRate <= 10000
    ensures st.totalCount == 0 ==> st.successRate == 0
    ensures st.appliedCount == 0 ==> st.interviewRate == 0
    ensures st.totalCount > 0 ==>
      && 2 * (st.successRate * st.totalCount - st.offerCount * 10000) <= st.totalCount
      && 2 * (st.offerCount * 10000 - st.successRate * st.totalCount) <= st.totalCount
      && ((2 * (st.successRate * st.totalCount - st.offerCount * 10000) == st.totalCount ||
           2 * (st.offerCount * 10000 - st.successRate * st.totalCount) == st.totalCount) ==> st.successRate % 2 == 0)
    ensures st.appliedCount > 0 ==>
      var seen := st.interviewCount + st.appliedCount;
      && 2 * (st.interviewRate * seen - st.interviewCount * 10000) <= seen
      && 2 * (st.interviewCount * 10000 - st.interviewRate * seen) <= seen
      && ((2 * (st.interviewRate * seen - st.interviewCount * 10000) == seen ||
           2 * (st.interviewCount * 10000 - st.interviewRate * seen) == seen) ==> st.interviewRate % 2 == 0)
  {
    ValuesSumIsStatusTotal(counts);
    var total := StatusTotal(counts);
    var applied := CountOf(counts, Applied);
    var interview := CountOf(counts, Interview);
    var offer := CountOf(counts, Offer);
    var rejected := CountOf(counts, Rejected);
    var successRate := if total > 0 then Percent(offer, total) else 0;
    var interviewRate := if applied > 0 then Percent(interview, interview + applied) else 0;
    JobApplicationStatistics(total, applied, interview, offer, rejected, successRate, interviewRate)
  }

  /** No stored applications: every count and both rates are zero. */
  lemma {:induction false} EmptyStatistics()
    ensures ComputeStatistics(map[]) == JobApplicationStatistics(0, 0, 0, 0, 0, 0, 0)
  {
    ValuesSumIsStatusTotal(map[]);
  }

  /** Ten applied, five interviews, two offers, three rejections: 10.00% success and 33.33% interview rate. */
  lemma {:induction false} WorkedExample()
    ensures ComputeStatistics(map[Applied := 10, Interview := 5, Offer := 2, Rejected := 3])
         == JobApplicationStatistics(20, 10, 5, 2, 3, 1000, 3333)
  {
    var counts := map[Applied := 10, Interview := 5, Offer := 2, Rejected := 3];
    ValuesSumIsStatusTotal(counts);
    assert RoundHalfEven(20000, 20) == 1000;
    assert RoundHalfEven(50000, 15) == 3333;
  }

  /** One offer in 32 applications is 3.125%, an exact tie, which rounds to the even 3.12%. */
  lemma {:induction false} TieRoundsToEven()
    ensures ComputeStatistics(map[Offer := 1, Rejected := 31]).successRate == 312
  {
    var counts := map[Offer := 1, Rejected := 31];
    ValuesSumIsStatusTotal(counts);
    assert RoundHalfEven(10000, 32) == 312;
  }

  /** With no application left at Applied the interview rate is 0, however many interviews there are. */
  lemma {:induction false} InterviewRateNeedsApplied(interviews: nat)
    ensures ComputeStatistics(map[Interview := interviews]).interviewRate == 0
    ensures ComputeStatistics(map[Interview := interviews]).interviewCount == interviews
  {
  }
}
