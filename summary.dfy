/**
 * The statistics shown above the journal: counts of results, the win rate and
 * the growth of equity, computed from the whole trade list as the store
 * returns it, newest first by creation time.
 */
module Summary {
  import opened Accounting

  datatype Stats = Stats(tp: nat, sl: nat, total: nat, winrate: real, growth: real)

  /** Newest first: creation times never increase along the list. */
  predicate SortedByDateDesc(ts: seq<Trade>)
  {
    forall i :: 0 <= i < |ts| - 1 ==> ts[i].date >= ts[i + 1].date
  }

  /** Number of trades whose result is the string "TP". */
  function CountTP(ts: seq<Trade>): (n: nat)
    ensures n <= |ts|
    ensures n == 0 <==> forall i :: 0 <= i < |ts| ==> !ts[i].result.TP?
    ensures n == |ts| <==> forall i :: 0 <= i < |ts| ==> ts[i].result.TP?
  {
    if ts == [] then 0
    else (if ts[0].result == TP then 1 else 0) + CountTP(ts[1..])
  }

  /** Number of trades whose result is the string "SL". */
  function CountSL(ts: seq<Trade>): (n: nat)
    ensures n <= |ts|
    ensures n == 0 <==> forall i :: 0 <= i < |ts| ==> !ts[i].result.SL?
  {
    if ts == [] then 0
    else (if ts[0].result == SL then 1 else 0) + CountSL(ts[1..])
  }

  /** Percentage of "TP" results, kept as an exact ratio; 0 for no trades. */
  function WinRate(tp: nat, total: nat): (r: real)
    requires tp <= total
    ensures 0.0 <= r <= 100.0
    ensures total == 0 ==> r == 0.0
    ensures total > 0 ==> r * (total as real) == (tp as real) * 100.0
  {
    if total == 0 then 0.0
    else
      var ratio := (tp as real) / (total as real);
      assert ratio <= 1.0 by {
        assert (tp as real) <= (total as real);
      }
      ratio * 100.0
  }

  /** The statistics of a trade list ordered newest first. */
  function Summarize(ts: seq<Trade>): (s: Stats)
    ensures s.total == |ts|
    ensures s.tp == CountTP(ts) && s.sl == CountSL(ts)
    ensures s.tp + s.sl <= s.total
    ensures 0.0 <= s.winrate <= 100.0
    ensures s.winrate == WinRate(s.tp, s.total)
    ensures ts == [] ==> s == Stats(0, 0, 0, 0.0, 0.0)
    ensures ts != [] ==> s.growth == ts[0].equityAfter - ts[|ts| - 1].equity
  {
    var tp := CountTP(ts);
    var sl := CountSL(ts);
    var total := |ts|;
    var startEquity := if ts != [] then ts[|ts| - 1].equity else 0.0;
    var endEquity := if ts != [] then ts[0].equityAfter else 0.0;
    CountsPartition(ts);
    Stats(tp, sl, total, WinRate(tp, total), endEquity - startEquity)
  }

  /** Number of trades whose result is neither "TP" nor "SL". */
  function CountOther(ts: seq<Trade>): nat
  {
    if ts == [] then 0
    else (if ts[0].result.Other? then 1 else 0) + CountOther(ts[1..])
  }

  /** Every trade is counted exactly once as "TP", "SL" or neither. */
  lemma {:induction false} CountsPartition(ts: seq<Trade>)
    ensures CountTP(ts) + CountSL(ts) + CountOther(ts) == |ts|
  {
    if ts != [] {
      CountsPartition(ts[1..]);
    }
  }

  lemma {:induction false} CountOtherZero(ts: seq<Trade>)
    ensures CountOther(ts) == 0 <==> forall i :: 0 <= i < |ts| ==> !ts[i].result.Other?
  {
    if ts != [] {
      CountOtherZero(ts[1..]);
      assert forall i :: 1 <= i < |ts| ==> ts[i] == ts[1..][i - 1];
    }
  }

  /** tp + sl reaches total exactly when every result is "TP" or "SL". */
  lemma CountsCoverAll(ts: seq<Trade>)
    ensures CountTP(ts) + CountSL(ts) == |ts|
        <==> forall i :: 0 <= i < |ts| ==> ts[i].result.TP? || ts[i].result.SL?
  {
    CountsPartition(ts);
    CountOtherZero(ts);
  }

  /** The win rate is 100 exactly when every trade hit its target and 0
      exactly when none did. */
  lemma WinRateExtremes(ts: seq<Trade>)
    requires ts != []
    ensures Summarize(ts).winrate == 100.0 <==> forall i :: 0 <= i < |ts| ==> ts[i].result.TP?
    ensures Summarize(ts).winrate == 0.0 <==> forall i :: 0 <= i < |ts| ==> !ts[i].result.TP?
  {
    var s := Summarize(ts);
    var n := |ts| as real;
    assert s.winrate * n == (s.tp as real) * 100.0;
    if s.winrate == 100.0 {
      assert (s.tp as real) * 100.0 == n * 100.0;
    }
    if forall i :: 0 <= i < |ts| ==> ts[i].result.TP? {
      assert s.winrate * n == n * 100.0;
    }
  }

  /** Two targets and one stop give a win rate of 200/3 (66.67 once rounded). */
  lemma WinRateTwoOfThree(a: Trade, b: Trade, c: Trade)
    requires a.result == TP && b.result == TP && c.result == SL
    ensures Summarize([a, b, c]) == Stats(2, 1, 3, 200.0 / 3.0, a.equityAfter - c.equity)
  {
    assert [a, b, c][1..] == [b, c];
    assert [b, c][1..] == [c];
    assert CountTP([a, b, c]) == 2;
    assert CountSL([a, b, c]) == 1;
    assert WinRate(2, 3) == 200.0 / 3.0;
  }

  /** In a newest-first list the head is a newest and the last element an
      oldest trade of the whole list, so growth is the equity after the
      newest trade minus the starting equity of the oldest one. */
  lemma {:induction false} GrowthBetweenEndpoints(ts: seq<Trade>)
    requires SortedByDateDesc(ts)
    requires ts != []
    ensures forall i :: 0 <= i < |ts| ==> ts[|ts| - 1].date <= ts[i].date <= ts[0].date
    ensures Summarize(ts).growth == ts[0].equityAfter - ts[|ts| - 1].equity
  {
    if |ts| > 1 {
      var rest := ts[1..];
      assert SortedByDateDesc(rest) by {
        forall i | 0 <= i < |rest| - 1 ensures rest[i].date >= rest[i + 1].date {
          assert rest[i] == ts[i + 1] && rest[i + 1] == ts[i + 2];
        }
      }
      GrowthBetweenEndpoints(rest);
      forall i | 0 <= i < |ts| ensures ts[|ts| - 1].date <= ts[i].date <= ts[0].date {
        if i > 0 {
          assert ts[i] == rest[i - 1];
          assert ts[1] == rest[0];
        }
      }
    }
  }

  /** No two trades share a creation time. */
  predicate DistinctDates(ts: seq<Trade>)
  {
    forall i, j :: 0 <= i < j < |ts| ==> ts[i].date != ts[j].date
  }

  /** When creation times are distinct, growth depends only on which trades
      are listed, not on how the store happened to order them. */
  lemma GrowthIndependentOfListing(ts: seq<Trade>, us: seq<Trade>)
    requires SortedByDateDesc(ts) && SortedByDateDesc(us)
    requires multiset(ts) == multiset(us)
    requires DistinctDates(ts)
    ensures Summarize(ts).growth == Summarize(us).growth
  {
    if ts != [] {
      assert |us| == |ts| by {
        assert |multiset(us)| == |multiset(ts)|;
      }
      GrowthBetweenEndpoints(ts);
      GrowthBetweenEndpoints(us);
      var last := |ts| - 1;
      assert ts[0] in multiset(us) && ts[last] in multiset(us);
      assert us[0] in multiset(ts) && us[last] in multiset(ts);
      var k :| 0 <= k < |ts| && ts[k] == us[0];
      var m :| 0 <= m < |ts| && ts[m] == us[last];
      var j :| 0 <= j < |us| && us[j] == ts[0];
      var n :| 0 <= n < |us| && us[n] == ts[last];
      assert ts[k].date == ts[0].date;
      assert k == 0;
      assert ts[m].date == ts[last].date;
      assert m == last;
    }
  }

  /** For a single trade the growth is that trade's profit/loss. */
  lemma GrowthOfSingleTrade(t: Trade)
    requires Consistent(t)
    ensures Summarize([t]).growth == Pnl(FormOf(t))
  {
  }

  /** Sum of the profit/loss of every trade in the list. */
  function TotalPnl(ts: seq<Trade>): real
  {
    if ts == [] then 0.0 else Pnl(FormOf(ts[0])) + TotalPnl(ts[1..])
  }

  /** The equity curve is chained when each trade starts from the equity the
      next older trade ended with. */
  predicate Chained(ts: seq<Trade>)
  {
    forall i :: 0 <= i < |ts| - 1 ==> ts[i].equity == ts[i + 1].equityAfter
  }

  /** On a chained curve of consistent records the growth is the total
      profit/loss of all trades. */
  lemma {:induction false} GrowthIsTotalPnl(ts: seq<Trade>)
    requires forall i :: 0 <= i < |ts| ==> Consistent(ts[i])
    requires Chained(ts)
    ensures Summarize(ts).growth == TotalPnl(ts)
  {
    if |ts| > 1 {
      var rest := ts[1..];
      assert Chained(rest) by {
        forall i | 0 <= i < |rest| - 1 ensures rest[i].equity == rest[i + 1].equityAfter {
          assert rest[i] == ts[i + 1] && rest[i + 1] == ts[i + 2];
        }
      }
      assert forall i :: 0 <= i < |rest| ==> rest[i] == ts[i + 1];
      GrowthIsTotalPnl(rest);
      assert ts[|ts| - 1] == rest[|rest| - 1];
      assert ts[0].equity == rest[0].equityAfter;
    } else if |ts| == 1 {
      assert Consistent(ts[0]);
      assert ts[1..] == [];
    }
  }
}
