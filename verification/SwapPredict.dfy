/**
 Page-heat prediction: recorded page accesses in a ring of 64, and a table built from them by removing
 duplicates, scoring, sorting and banding. Scores are reals here.
 */
module SwapPredict {
  import opened Common

  const HISTORY_LEN := 64

  datatype Record = Record(pfn: nat, pid: nat, flags: nat, timestampNs: nat, cpu: nat)

  datatype Action = SwapIn | Keep | SwapOut

  datatype Prediction = Prediction(pfn: nat, score: real, pid: nat, action: Action)

  const NO_RECORD := Record(0, 0, 0, 0, 0)
  const NO_PREDICTION := Prediction(0, 0.0, 0, SwapIn)

  // ----- the table: accesses are absorbed newest first

  function Capped(score: real): real {
    if score > 1.0 then 1.0 else score
  }

  /** What the access i steps back adds to the score of its page. */
  function Weight(i: nat): (w: real)
    requires i < HISTORY_LEN
    ensures w > 0.1
  {
    0.1 + 0.05 * (HISTORY_LEN - i) as real
  }

  predicate IsWrite(r: Record) {
    r.flags / 2 % 2 == 1
  }

  function FindPage(table: seq<Prediction>, pfn: nat, i: nat): (k: int)
    requires i <= |table|
    ensures k == -1 ==> forall j :: i <= j < |table| ==> table[j].pfn != pfn
    ensures k != -1 ==> i <= k < |table| && table[k].pfn == pfn
  {
    FindKey(table, (e: Prediction) => e.pfn, pfn, i)
  }

  function FirstScore(r: Record, i: nat): real
    requires i < HISTORY_LEN
  {
    if IsWrite(r) then Capped(Weight(i)) * 0.7 else Capped(Weight(i))
  }

  function Absorb(table: seq<Prediction>, r: Record, i: nat, maxOut: nat): seq<Prediction>
    requires i < HISTORY_LEN
  {
    if r.pfn == 0 then table
    else
      var k := FindPage(table, r.pfn, 0);
      if k != -1 then table[k := table[k].(score := Capped(table[k].score + Weight(i)))]
      else if |table| < maxOut then table + [Prediction(r.pfn, FirstScore(r, i), r.pid, SwapIn)]
      else table
  }

  /** The table after the n newest records of a window. */
  function Collect(window: seq<Record>, n: nat, maxOut: nat): seq<Prediction>
    requires n <= |window| <= HISTORY_LEN
  {
    if n == 0 then [] else Absorb(Collect(window, n - 1, maxOut), window[n - 1], n - 1, maxOut)
  }

  // ----- which pages it should hold

  /** The distinct non-zero pages among the n newest records, most recently accessed first. */
  function Pages(window: seq<Record>, n: nat): seq<nat>
    requires n <= |window|
  {
    if n == 0 then []
    else
      var before, p := Pages(window, n - 1), window[n - 1].pfn;
      if p == 0 || p in before then before else before + [p]
  }

  /** p was last accessed i steps back. */
  ghost predicate LastAccess(window: seq<Record>, p: nat, i: nat) {
    i < |window| && window[i].pfn == p && forall j :: 0 <= j < i ==> window[j].pfn != p
  }

  ghost predicate ByRecency(window: seq<Record>, pages: seq<nat>) {
    forall a, b, i: nat, j: nat ::
      0 <= a < b < |pages| && LastAccess(window, pages[a], i) && LastAccess(window, pages[b], j) ==> i < j
  }

  lemma OneMorePage(window: seq<Record>, before: seq<nat>, n: nat)
    requires 0 < n <= |window| && window[n - 1].pfn != 0 && window[n - 1].pfn !in before && ByRecency(window, before)
    requires forall p :: p in before <==> p != 0 && exists i :: 0 <= i < n - 1 && window[i].pfn == p
    ensures ByRecency(window, before + [window[n - 1].pfn])
  {
    var now := before + [window[n - 1].pfn];
    forall a, b, i: nat, j: nat | 0 <= a < b < |now| && LastAccess(window, now[a], i) && LastAccess(window, now[b], j)
      ensures i < j
    {
      if b == |before| {
        assert before[a] in before;
        var k :| 0 <= k < n - 1 && window[k].pfn == before[a];
        assert j >= n - 1;
      } else {
        assert LastAccess(window, before[a], i) && LastAccess(window, before[b], j);
      }
    }
  }

  /** The listed pages are exactly the non-zero ones accessed, each once, ordered by their last access. */
  lemma {:induction false} PagesByRecency(window: seq<Record>, n: nat)
    requires n <= |window|
    ensures NoDuplicates(Pages(window, n)) && ByRecency(window, Pages(window, n))
    ensures forall p :: p in Pages(window, n) <==> p != 0 && exists i :: 0 <= i < n && window[i].pfn == p
  {
    if n > 0 {
      PagesByRecency(window, n - 1);
      var before, p := Pages(window, n - 1), window[n - 1].pfn;
      if p != 0 && p !in before {
        OneMorePage(window, before, n);
      }
    }
  }

  function Pfns(table: seq<Prediction>): (r: seq<nat>)
    ensures |r| == |table|
    ensures forall i :: 0 <= i < |table| ==> r[i] == table[i].pfn
  {
    seq(|table|, i requires 0 <= i < |table| => table[i].pfn)
  }

  function FirstFew(pages: seq<nat>, maxOut: nat): seq<nat> {
    pages[..Min(|pages|, maxOut)]
  }

  lemma AbsorbPages(table: seq<Prediction>, pages: seq<nat>, r: Record, i: nat, maxOut: nat)
    requires i < HISTORY_LEN && r.pfn != 0 && Pfns(table) == FirstFew(pages, maxOut)
    ensures Pfns(Absorb(table, r, i, maxOut)) == FirstFew(if r.pfn in pages then pages else pages + [r.pfn], maxOut)
  {
    var k := FindPage(table, r.pfn, 0);
    if k != -1 {
      assert pages[k] == Pfns(table)[k] == r.pfn;
      assert Pfns(Absorb(table, r, i, maxOut)) == Pfns(table);
    } else {
      forall j | 0 <= j < |pages| && j < maxOut
        ensures pages[j] != r.pfn
      {
        assert pages[j] == Pfns(table)[j];
      }
      if |table| < maxOut {
        assert pages == Pfns(table);
      }
    }
  }

  /** The table lists the maxOut most recently accessed pages, or all if they are fewer. */
  lemma {:induction false} TableHoldsMostRecent(window: seq<Record>, n: nat, maxOut: nat)
    requires n <= |window| <= HISTORY_LEN
    ensures Pfns(Collect(window, n, maxOut)) == FirstFew(Pages(window, n), maxOut)
  {
    if n > 0 {
      TableHoldsMostRecent(window, n - 1, maxOut);
      var table, pages, p := Collect(window, n - 1, maxOut), Pages(window, n - 1), window[n - 1].pfn;
      if p != 0 {
        AbsorbPages(table, pages, window[n - 1], n - 1, maxOut);
      }
    }
  }

  ghost predicate ScoresInRange(table: seq<Prediction>) {
    forall i :: 0 <= i < |table| ==> 0.0 < table[i].score <= 1.0
  }

  lemma {:induction false} ScoresStayInRange(window: seq<Record>, n: nat, maxOut: nat)
    requires n <= |window| <= HISTORY_LEN
    ensures ScoresInRange(Collect(window, n, maxOut)) && |Collect(window, n, maxOut)| <= maxOut
  {
    if n > 0 {
      ScoresStayInRange(window, n - 1, maxOut);
    }
  }

  /**
   The uncapped heat of a page over the n newest records: its newest access counts with the write discount,
   every older one adds its weight.
   */
  function Heat(window: seq<Record>, p: nat, n: nat): real
    requires n <= |window| <= HISTORY_LEN
  {
    if n == 0 then 0.0
    else if window[n - 1].pfn != p then Heat(window, p, n - 1)
    else if p in Pages(window, n - 1) then Heat(window, p, n - 1) + Weight(n - 1)
    else FirstScore(window[n - 1], n - 1)
  }

  ghost predicate Scored(window: seq<Record>, n: nat, table: seq<Prediction>)
    requires n <= |window| <= HISTORY_LEN
  {
    forall k :: 0 <= k < |table| ==> table[k].score == Capped(Heat(window, table[k].pfn, n))
  }

  lemma AbsorbScores(window: seq<Record>, n: nat, table: seq<Prediction>, maxOut: nat)
    requires 0 < n <= |window| <= HISTORY_LEN && Scored(window, n - 1, table)
    requires Pfns(table) == FirstFew(Pages(window, n - 1), maxOut)
    requires NoDuplicates(Pages(window, n - 1)) && 0 !in Pages(window, n - 1)
    ensures Scored(window, n, Absorb(table, window[n - 1], n - 1, maxOut))
  {
    var pages, after := Pages(window, n - 1), Absorb(table, window[n - 1], n - 1, maxOut);
    forall k | 0 <= k < |after|
      ensures after[k].score == Capped(Heat(window, after[k].pfn, n))
    {
      if k < |table| {
        assert table[k].pfn == Pfns(table)[k] == pages[k];
        assert pages[k] in pages && after[k].pfn == pages[k];
      } else {
        assert pages == Pfns(table);
      }
    }
  }

  /** Capping after every access loses nothing: a score is the capped sum. */
  lemma {:induction false} ScoreIsCappedHeat(window: seq<Record>, n: nat, maxOut: nat)
    requires n <= |window| <= HISTORY_LEN
    ensures Scored(window, n, Collect(window, n, maxOut))
  {
    if n > 0 {
      ScoreIsCappedHeat(window, n - 1, maxOut);
      TableHoldsMostRecent(window, n - 1, maxOut);
      PagesByRecency(window, n - 1);
      AbsorbScores(window, n, Collect(window, n - 1, maxOut), maxOut);
    }
  }

  // ----- what a score is, in numbers

  /** The accesses of p from i steps back on, 3.3 less 0.05 for each step. */
  function SumFrom(window: seq<Record>, p: nat, i: nat, n: nat): real
    requires n <= |window|
  {
    if n <= i then 0.0
    else SumFrom(window, p, i, n - 1) + if window[n - 1].pfn == p then 3.3 - 0.05 * (n - 1) as real else 0.0
  }

  /** The newest access counts at most 1, and 0.7 of that if it was a write; the older ones add to it, up to 1. */
  function ScoreOf(window: seq<Record>, p: nat, i: nat): real
    requires i < |window|
  {
    var newest := if 3.3 - 0.05 * i as real > 1.0 then 1.0 else 3.3 - 0.05 * i as real;
    var discounted := if window[i].flags / 2 % 2 == 1 then newest * 0.7 else newest;
    var sum := discounted + SumFrom(window, p, i + 1, |window|);
    if sum > 1.0 then 1.0 else sum
  }

  lemma {:induction false} HeatIsSum(window: seq<Record>, p: nat, i: nat, n: nat)
    requires n <= |window| <= HISTORY_LEN && p != 0 && LastAccess(window, p, i) && i < n
    ensures Heat(window, p, n) == FirstScore(window[i], i) + SumFrom(window, p, i + 1, n)
  {
    PagesByRecency(window, n - 1);
    if i < n - 1 {
      HeatIsSum(window, p, i, n - 1);
      assert window[i].pfn == p;
    }
  }

  /** Every entry of the table stands for the newest access of its page and keeps the process of that. */
  lemma {:induction false} EntryIsNewest(window: seq<Record>, n: nat, maxOut: nat, k: nat) returns (i: nat)
    requires n <= |window| <= HISTORY_LEN && k < |Collect(window, n, maxOut)|
    ensures var e := Collect(window, n, maxOut)[k];
            i < n && e.pfn != 0 && LastAccess(window, e.pfn, i) && e.pid == window[i].pid
  {
    var before := Collect(window, n - 1, maxOut);
    if k < |before| {
      i := EntryIsNewest(window, n - 1, maxOut, k);
    } else {
      i := n - 1;
      var p := window[i].pfn;
      TableHoldsMostRecent(window, i, maxOut);
      PagesByRecency(window, i);
      assert Pfns(before) == Pages(window, i);
      assert FindPage(before, p, 0) == -1;
      forall j | 0 <= j < i
        ensures window[j].pfn != p
      {
        assert window[j].pfn == p ==> p in Pfns(before);
      }
    }
  }

  /** One access, i steps back, and no other. */
  ghost predicate AccessedOnce(window: seq<Record>, p: nat, i: nat) {
    i < |window| && forall j :: 0 <= j < |window| ==> (window[j].pfn == p <==> j == i)
  }

  lemma {:induction false} NothingOlder(window: seq<Record>, p: nat, i: nat, n: nat)
    requires n <= |window| && AccessedOnce(window, p, i)
    ensures SumFrom(window, p, i + 1, n) == 0.0
  {
    if n > i + 1 {
      NothingOlder(window, p, i, n - 1);
    }
  }

  /**
   A page read once scores 3.3 less 0.05 for each step since, and at most 1; if written, 0.7 of that. So of two pages
   read once the one accessed later never scores lower.
   */
  lemma ScoreOfOne(window: seq<Record>, p: nat, i: nat, q: nat, j: nat)
    requires AccessedOnce(window, p, i) && AccessedOnce(window, q, j) && i <= j < HISTORY_LEN
    ensures var capped := if i <= 46 then 1.0 else 3.3 - 0.05 * i as real;
            ScoreOf(window, p, i) == if window[i].flags / 2 % 2 == 1 then capped * 0.7 else capped
    ensures window[i].flags / 2 % 2 == 0 ==> ScoreOf(window, p, i) >= ScoreOf(window, q, j)
  {
    NothingOlder(window, p, i, |window|);
    NothingOlder(window, q, j, |window|);
  }

  // ----- sorting and banding

  ghost predicate SortedByScore(t: seq<Prediction>) {
    forall i, j :: 0 <= i < j < |t| ==> t[i].score >= t[j].score
  }

  function Swapped(s: seq<Prediction>, i: nat, j: nat): (r: seq<Prediction>)
    requires i < j < |s|
    ensures |r| == |s| && forall k :: 0 <= k < |s| ==> r[k] == s[if k == i then j else if k == j then i else k]
  {
    seq(|s|, k requires 0 <= k < |s| => s[if k == i then j else if k == j then i else k])
  }

  lemma SwappedPermutes(s: seq<Prediction>, i: nat, j: nat)
    requires i < j < |s|
    ensures multiset(Swapped(s, i, j)) == multiset(s)
  {
    assert Swapped(s, i, j) == s[i := s[j]][j := s[i]];
  }

  /** One comparison of the sort. */
  function Exchanged(s: seq<Prediction>, i: nat, j: nat): (r: seq<Prediction>)
    requires i < j < |s|
    ensures |r| == |s|
  {
    if s[j].score > s[i].score then Swapped(s, i, j) else s
  }

  /** After comparing position i with those from i + 1 up to j. */
  function Selected(s: seq<Prediction>, i: nat, j: nat): (r: seq<Prediction>)
    requires i < j <= |s|
    ensures |r| == |s|
  {
    if j == i + 1 then s else Exchanged(Selected(s, i, j - 1), i, j - 1)
  }

  lemma {:induction false} SelectedPermutes(s: seq<Prediction>, i: nat, j: nat)
    requires i < j <= |s|
    ensures multiset(Selected(s, i, j)) == multiset(s)
  {
    if j > i + 1 {
      SelectedPermutes(s, i, j - 1);
      SwappedPermutes(Selected(s, i, j - 1), i, j - 1);
    }
  }

  lemma {:induction false} SelectedFixes(s: seq<Prediction>, i: nat, j: nat, k: nat)
    requires i < j <= |s| && k < i
    ensures Selected(s, i, j)[k] == s[k]
  {
    if j > i + 1 {
      SelectedFixes(s, i, j - 1, k);
    }
  }

  lemma {:induction false} SelectedIsLargest(s: seq<Prediction>, i: nat, j: nat, k: nat)
    requires i <= k < j <= |s|
    ensures Selected(s, i, j)[i].score >= Selected(s, i, j)[k].score
  {
    if j > i + 1 {
      SelectedIsLargest(s, i, j - 1, if k < j - 1 then k else i);
    }
  }

  lemma {:induction false} SelectedBounded(s: seq<Prediction>, i: nat, j: nat, bound: real)
    requires i < j <= |s| && forall k :: i <= k < |s| ==> s[k].score <= bound
    ensures forall k :: i <= k < |s| ==> Selected(s, i, j)[k].score <= bound
  {
    if j > i + 1 {
      SelectedBounded(s, i, j - 1, bound);
    }
  }

  /** The i largest scores are in front, in order. */
  ghost predicate FrontSorted(s: seq<Prediction>, i: nat) {
    forall a, b :: 0 <= a < i && a < b < |s| ==> s[a].score >= s[b].score
  }

  /** One pass of the sort permutes the table and brings the next largest score to the front. */
  lemma PassSorts(s: seq<Prediction>, i: nat)
    requires i < |s| && FrontSorted(s, i)
    ensures FrontSorted(Selected(s, i, |s|), i + 1) && multiset(Selected(s, i, |s|)) == multiset(s)
  {
    var after := Selected(s, i, |s|);
    SelectedPermutes(s, i, |s|);
    forall a, b | 0 <= a < i + 1 && a < b < |s|
      ensures after[a].score >= after[b].score
    {
      if a == i {
        SelectedIsLargest(s, i, |s|, b);
      } else {
        SelectedFixes(s, i, |s|, a);
        if b < i {
          SelectedFixes(s, i, |s|, b);
        } else {
          SelectedBounded(s, i, |s|, s[a].score);
        }
      }
    }
  }

  /** The sort from position i on: one pass after the other, the last entry needing none. */
  function Sorted(s: seq<Prediction>, i: nat): (r: seq<Prediction>)
    ensures |r| == |s|
    decreases |s| - i
  {
    if i + 1 >= |s| then s else Sorted(Selected(s, i, |s|), i + 1)
  }

  lemma {:induction false} SortedSorts(s: seq<Prediction>, i: nat)
    requires i <= |s| && FrontSorted(s, i)
    ensures SortedByScore(Sorted(s, i)) && multiset(Sorted(s, i)) == multiset(s)
    decreases |s| - i
  {
    if i + 1 < |s| {
      PassSorts(s, i);
      SortedSorts(Selected(s, i, |s|), i + 1);
    }
  }

  lemma {:induction false} SelectedKeeps(s: seq<Prediction>, i: nat, j: nat)
    requires i < j <= |s| && SortedByScore(s)
    ensures Selected(s, i, j) == s
  {
    if j > i + 1 {
      SelectedKeeps(s, i, j - 1);
    }
  }

  /** A table whose scores never rise is left as it is: equal scores are not exchanged. */
  lemma {:induction false} SortedKeeps(s: seq<Prediction>, i: nat)
    requires SortedByScore(s)
    ensures Sorted(s, i) == s
    decreases |s| - i
  {
    if i + 1 < |s| {
      SelectedKeeps(s, i, |s|);
      SortedKeeps(s, i + 1);
    }
  }

  function Band(i: nat, n: nat): Action {
    if i < n / 3 then SwapIn else if i > 2 * n / 3 then SwapOut else Keep
  }

  function Banded(t: seq<Prediction>): (r: seq<Prediction>)
    ensures |r| == |t| && forall i :: 0 <= i < |t| ==> r[i] == t[i].(action := Band(i, |t|))
  {
    seq(|t|, i requires 0 <= i < |t| => t[i].(action := Band(i, |t|)))
  }

  /** t is the prediction for a window: the collected table, sorted and then banded. */
  ghost predicate IsPrediction(t: seq<Prediction>, window: seq<Record>, maxOut: nat)
    requires |window| <= HISTORY_LEN
  {
    t == Banded(Sorted(Collect(window, |window|, maxOut), 0))
  }

  // ----- main results

  lemma PfnsWithoutOne(s: seq<Prediction>, k: nat)
    requires k < |s|
    ensures multiset(Pfns(s)) == multiset(Pfns(RemoveAt(s, k))) + multiset{s[k].pfn}
  {
    RemoveOne(Pfns(s), k);
    assert RemoveAt(Pfns(s), k) == Pfns(RemoveAt(s, k));
  }

  lemma {:induction false} MultisetPfns(s: seq<Prediction>, t: seq<Prediction>)
    requires multiset(s) == multiset(t)
    ensures multiset(Pfns(s)) == multiset(Pfns(t)) && |s| == |t|
    decreases |s|
  {
    if s == [] {
      assert |t| == |multiset(t)| == 0;
    } else {
      assert s[0] in multiset(t);
      var k: nat :| k < |t| && t[k] == s[0];
      RemoveOne(s, 0);
      RemoveOne(t, k);
      assert multiset(RemoveAt(s, 0)) == multiset(s) - multiset{s[0]} == multiset(RemoveAt(t, k));
      MultisetPfns(RemoveAt(s, 0), RemoveAt(t, k));
      PfnsWithoutOne(s, 0);
      PfnsWithoutOne(t, k);
    }
  }

  /**
   A prediction lists exactly the maxOut most recently accessed distinct pages (all of them if fewer), by
   falling score, each score being the capped heat of its page, above 0 and at most 1.
   */
  lemma PredictionPages(t: seq<Prediction>, window: seq<Record>, maxOut: nat)
    requires |window| <= HISTORY_LEN && IsPrediction(t, window, maxOut)
    ensures multiset(Pfns(t)) == multiset(FirstFew(Pages(window, |window|), maxOut))
    ensures SortedByScore(t) && ScoresInRange(t) && Scored(window, |window|, t)
  {
    var table := Collect(window, |window|, maxOut);
    var sorted := Sorted(table, 0);
    SortedSorts(table, 0);
    assert Pfns(t) == Pfns(sorted);
    MultisetPfns(sorted, table);
    TableHoldsMostRecent(window, |window|, maxOut);
    ScoresStayInRange(window, |window|, maxOut);
    ScoreIsCappedHeat(window, |window|, maxOut);
    forall i | 0 <= i < |t|
      ensures 0.0 < t[i].score <= 1.0 && t[i].score == Capped(Heat(window, t[i].pfn, |window|))
    {
      assert sorted[i] in multiset(table);
    }
  }

  /** Every entry of a prediction is one of the table, with its action set. */
  lemma FromTable(t: seq<Prediction>, table: seq<Prediction>, k: nat) returns (l: nat)
    requires t == Banded(Sorted(table, 0)) && k < |t|
    ensures l < |table| && t[k] == table[l].(action := t[k].action)
  {
    SortedSorts(table, 0);
    assert Sorted(table, 0)[k] in multiset(table);
    l :| 0 <= l < |table| && table[l] == Sorted(table, 0)[k];
  }

  /** In numbers: the score of an entry, its process, and its band by its place in the order. */
  lemma PredictionScores(t: seq<Prediction>, window: seq<Record>, maxOut: nat, k: nat) returns (i: nat)
    requires |window| <= HISTORY_LEN && IsPrediction(t, window, maxOut) && k < |t|
    ensures t[k].pfn != 0 && LastAccess(window, t[k].pfn, i)
    ensures t[k].score == ScoreOf(window, t[k].pfn, i) && t[k].pid == window[i].pid
    ensures t[k].action == if k < |t| / 3 then SwapIn else if k > 2 * |t| / 3 then SwapOut else Keep
  {
    var table := Collect(window, |window|, maxOut);
    var l := FromTable(t, table, k);
    i := EntryIsNewest(window, |window|, maxOut, l);
    ScoreIsCappedHeat(window, |window|, maxOut);
    HeatIsSum(window, table[l].pfn, i, |window|);
  }

  /** The bands: the first third is swapped in, and no page swapped out scores above one swapped in or kept. */
  lemma PredictionBands(t: seq<Prediction>, window: seq<Record>, maxOut: nat, i: nat, j: nat)
    requires |window| <= HISTORY_LEN && IsPrediction(t, window, maxOut) && i < |t| && j < |t|
    ensures t[i].action.SwapIn? <==> i < |t| / 3
    ensures t[i].action.SwapOut? <==> i > 2 * |t| / 3
    ensures t[i].action.SwapOut? && !t[j].action.SwapOut? ==> t[i].score <= t[j].score
    ensures t[i].action.SwapIn? && !t[j].action.SwapIn? ==> t[i].score >= t[j].score
  {
    SortedSorts(Collect(window, |window|, maxOut), 0);
  }

  /** Where the scores fall with the time of the last access, or are equal, the pages stay in that order. */
  lemma RecencyBreaksTies(t: seq<Prediction>, window: seq<Record>, maxOut: nat)
    requires |window| <= HISTORY_LEN && IsPrediction(t, window, maxOut)
    requires SortedByScore(Collect(window, |window|, maxOut))
    ensures Pfns(t) == FirstFew(Pages(window, |window|), maxOut)
  {
    var table := Collect(window, |window|, maxOut);
    SortedKeeps(table, 0);
    TableHoldsMostRecent(window, |window|, maxOut);
    assert Pfns(t) == Pfns(table);
  }

  // ----- the exchange sort

  method CompareExchange(out: array<Prediction>, n: nat, i: nat, j: nat)
    requires i < j < n <= out.Length
    modifies out
    ensures out[..n] == Exchanged(old(out[..n]), i, j) && out[n..] == old(out[n..])
  {
    if out[j].score > out[i].score {
      out[i], out[j] := out[j], out[i];
    }
  }

  /** The inner loop: one pass. */
  method ExchangePass(out: array<Prediction>, n: nat, i: nat)
    requires i < n <= out.Length
    modifies out
    ensures out[..n] == Selected(old(out[..n]), i, n) && out[n..] == old(out[n..])
  {
    for j := i + 1 to n
      invariant out[..n] == Selected(old(out[..n]), i, j) && out[n..] == old(out[n..])
    {
      CompareExchange(out, n, i, j);
    }
  }

  method ExchangeSort(out: array<Prediction>, n: nat)
    requires n <= out.Length
    modifies out
    ensures out[..n] == Sorted(old(out[..n]), 0) && out[n..] == old(out[n..])
    ensures SortedByScore(out[..n]) && multiset(out[..n]) == multiset(old(out[..n]))
  {
    SortedSorts(out[..n], 0);
    if n == 0 {
      return;
    }
    for i := 0 to n - 1
      invariant Sorted(out[..n], i) == Sorted(old(out[..n]), 0) && out[n..] == old(out[n..])
    {
      ExchangePass(out, n, i);
    }
  }

  method AssignActions(out: array<Prediction>, n: nat)
    requires n <= out.Length
    modifies out
    ensures out[..n] == Banded(old(out[..n])) && out[n..] == old(out[n..])
  {
    for i := 0 to n
      invariant out[n..] == old(out[n..])
      invariant forall k :: 0 <= k < n ==>
                              out[k] == if k < i then old(out[k]).(action := Band(k, n)) else old(out[k])
    {
      out[i] := out[i].(action := if i < n / 3 then SwapIn else if i > 2 * n / 3 then SwapOut else Keep);
    }
  }

  // ----- the program

  /** The 64 newest records of a log, padded with empty ones. */
  function Window(log: seq<Record>): (w: seq<Record>)
    ensures |w| == HISTORY_LEN
    ensures forall i :: 0 <= i < HISTORY_LEN ==> w[i] == if i < |log| then log[|log| - 1 - i] else NO_RECORD
  {
    seq(HISTORY_LEN, i requires 0 <= i < HISTORY_LEN => if i < |log| then log[|log| - 1 - i] else NO_RECORD)
  }

  /** The slot of the record i steps back from the head. */
  function Slot(head: nat, i: nat): (k: nat)
    requires head < HISTORY_LEN && i < HISTORY_LEN
    ensures k < HISTORY_LEN
  {
    (head - 1 - i + HISTORY_LEN) % HISTORY_LEN
  }

  lemma SlotAfterAdvance(head: nat, i: nat)
    requires head < HISTORY_LEN && i < HISTORY_LEN
    ensures Slot((head + 1) % HISTORY_LEN, i) == if i == 0 then head else Slot(head, i - 1)
    ensures 0 < i ==> Slot(head, i - 1) != head
  {
  }

  class Tracker {
    const history: array<Record>
    var head: nat
    var enabled: bool
    ghost var log: seq<Record>

    ghost predicate Valid()
      reads this, history
    {
      && history.Length == HISTORY_LEN && head < HISTORY_LEN
      && forall i :: 0 <= i < HISTORY_LEN ==> history[Slot(head, i)] == Window(log)[i]
    }

    constructor ()
      ensures Valid() && log == [] && enabled && fresh(history)
    {
      history := new Record[HISTORY_LEN](_ => NO_RECORD);
      head, enabled, log := 0, true, [];
    }

    method RecordAccess(pfn: nat, pid: nat, flags: nat, cpu: nat, now: nat)
      requires Valid()
      modifies this, history
      ensures Valid() && enabled == old(enabled)
      ensures log == if enabled then old(log) + [Record(pfn, pid, flags, now, cpu)] else old(log)
    {
      if !enabled {
        return;
      }
      var r := Record(pfn, pid, flags, now, cpu);
      history[head] := r;
      head := (head + 1) % HISTORY_LEN;
      log := log + [r];
      forall i | 0 <= i < HISTORY_LEN
        ensures history[Slot(head, i)] == Window(log)[i]
      {
        SlotAfterAdvance(old(head), i);
        if i > 0 {
          assert Window(log)[i] == Window(old(log))[i - 1];
        }
      }
    }

    /** Fills out[..n] with the table of the first i records looked at. */
    method CollectTable(out: array<Prediction>) returns (n: nat)
      requires Valid() && history as object != out
      modifies out
      ensures n <= out.Length && out[..n] == Collect(Window(log), HISTORY_LEN, out.Length)
      ensures forall k :: n <= k < out.Length ==> out[k] == old(out[k])
    {
      n := 0;
      for i := 0 to HISTORY_LEN
        invariant n <= out.Length && out[..n] == Collect(Window(log), i, out.Length)
        invariant forall k :: n <= k < out.Length ==> out[k] == old(out[k])
      {
        var rec := history[Slot(head, i)];
        assert rec == Window(log)[i];
        n := AbsorbInto(out, n, rec, i);
      }
    }

    method AbsorbInto(out: array<Prediction>, n: nat, rec: Record, i: nat) returns (n': nat)
      requires n <= out.Length && i < HISTORY_LEN
      modifies out
      ensures n <= n' <= out.Length && out[..n'] == Absorb(old(out[..n]), rec, i, out.Length)
      ensures forall k :: n' <= k < out.Length ==> out[k] == old(out[k])
    {
      n' := n;
      if rec.pfn == 0 {
        return;
      }
      var found := -1;
      for j := 0 to n
        invariant found == -1 && FindPage(out[..n], rec.pfn, j) == FindPage(out[..n], rec.pfn, 0)
      {
        if out[j].pfn == rec.pfn {
          found := j;
          break;
        }
      }
      assert found == FindPage(out[..n], rec.pfn, 0);
      if found >= 0 {
        var e := out[found].(score := Capped(out[found].score + Weight(i)));
        out[found] := e;
        assert out[..n] == old(out[..n])[found := e];
      } else if n < out.Length {
        out[n] := Prediction(rec.pfn, FirstScore(rec, i), rec.pid, SwapIn);
        n' := n + 1;
      }
    }

    method Predict(out: array<Prediction>) returns (n: nat)
      requires Valid() && history as object != out
      modifies out
      ensures !enabled || out.Length == 0 ==> n == 0
      ensures !enabled ==> out[..] == old(out[..])
      ensures enabled && out.Length > 0 ==> n <= out.Length && IsPrediction(out[..n], Window(log), out.Length)
      ensures enabled ==> n <= out.Length && forall k :: n <= k < out.Length ==> out[k] == NO_PREDICTION
    {
      if !enabled || out.Length == 0 {
        return 0;
      }
      forall k | 0 <= k < out.Length {
        out[k] := NO_PREDICTION;
      }
      n := CollectTable(out);
      ExchangeSort(out, n);
      AssignActions(out, n);
    }
  }
}
