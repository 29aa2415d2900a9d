/**
 * The per-trade accounting rule of the journal: how a submitted trade form
 * becomes a stored record with its realised profit/loss and the equity after
 * the trade. The same rule runs when a trade is created and when it is edited.
 */
module Accounting {

  /** Contract size of the one instrument the journal supports (XAUUSD):
      the pip value of a position is this multiple of its lot size. */
  const PipMultiplier: real := 100.0

  /** The declared outcome of a trade. The form submits a free string; only
      the exact strings "TP" and "SL" are singled out anywhere, every other
      string is kept verbatim as Other. */
  datatype Outcome = TP | SL | Other(text: string)

  /** An outcome that some form string produces (Other never carries "TP" or "SL"). */
  predicate CanonicalOutcome(o: Outcome)
  {
    o.Other? ==> o.text != "TP" && o.text != "SL"
  }

  /** The results a form can produce; records and forms carry only these. */
  type Result = o: Outcome | CanonicalOutcome(o) witness TP

  /** Reads the `result` field of the form. */
  function ParseResult(s: string): (o: Result)
    ensures o.TP? <==> s == "TP"
    ensures o.SL? <==> s == "SL"
    ensures o.Other? ==> o.text == s
  {
    if s == "TP" then TP
    else if s == "SL" then SL
    else Other(s)
  }

  /** The string stored in the record's `result` field. */
  function ResultLabel(o: Result): (s: string)
    ensures o.TP? <==> s == "TP"
    ensures o.SL? <==> s == "SL"
  {
    match o
    case TP => "TP"
    case SL => "SL"
    case Other(text) => text
  }

  /** The form string survives being read into an outcome and written back. */
  lemma ParseLabelRoundTrip(s: string)
    ensures ResultLabel(ParseResult(s)) == s
  {
  }

  /** Every outcome a form can produce is read back from its stored string. */
  lemma LabelParseRoundTrip(o: Result)
    ensures ParseResult(ResultLabel(o)) == o
  {
  }

  /** The seven fields a user submits on the create and the edit form. */
  datatype TradeForm = TradeForm(
    equity: real,
    lot: real,
    openPrice: real,
    sl: real,
    tp: real,
    result: Result,
    note: string)

  /** A stored journal record: the creation time, the submitted fields and the
      derived equity after the trade. */
  datatype Trade = Trade(
    date: nat,
    equity: real,
    lot: real,
    openPrice: real,
    sl: real,
    tp: real,
    result: Result,
    note: string,
    equityAfter: real)

  /** The submitted fields a stored record carries. */
  function FormOf(t: Trade): TradeForm
  {
    TradeForm(t.equity, t.lot, t.openPrice, t.sl, t.tp, t.result, t.note)
  }

  function PipValue(lot: real): real
  {
    PipMultiplier * lot
  }

  /** Realised profit/loss of a trade. Only a "TP" result takes the target
      branch; every other result, "SL" or not, takes the stop branch. The
      note (Buy/Sell) is not consulted. */
  function Pnl(f: TradeForm): (r: real)
    ensures f.result.TP? ==> r == (f.tp - f.openPrice) * 100.0 * f.lot
    ensures !f.result.TP? ==> r == (f.sl - f.openPrice) * 100.0 * f.lot
  {
    var pipValue := PipValue(f.lot);
    if f.result == TP then (f.tp - f.openPrice) * pipValue
    else (f.openPrice - f.sl) * pipValue * -1.0
  }

  function EquityAfter(f: TradeForm): (r: real)
    ensures f.result.TP? ==> r == f.equity + (f.tp - f.openPrice) * 100.0 * f.lot
    ensures !f.result.TP? ==> r == f.equity + (f.sl - f.openPrice) * 100.0 * f.lot
  {
    f.equity + Pnl(f)
  }

  /** The record invariant: the stored equity after the trade is the stored
      equity plus the profit/loss of the stored fields. */
  predicate Consistent(t: Trade)
  {
    t.equityAfter == t.equity + Pnl(FormOf(t))
  }

  /** The record that creating a trade at time `date` inserts. */
  function MakeTrade(date: nat, f: TradeForm): (t: Trade)
    ensures t.date == date
    ensures FormOf(t) == f
    ensures Consistent(t)
  {
    Trade(date, f.equity, f.lot, f.openPrice, f.sl, f.tp, f.result, f.note, EquityAfter(f))
  }

  /** The record an edit leaves behind: the eight fields are overwritten,
      equity after is recomputed and the creation time is kept. */
  function ApplyEdit(t: Trade, f: TradeForm): (r: Trade)
    ensures r.date == t.date
    ensures FormOf(r) == f
    ensures Consistent(r)
    ensures r == MakeTrade(t.date, f)
  {
    t.(equity := f.equity, lot := f.lot, openPrice := f.openPrice, sl := f.sl, tp := f.tp,
       result := f.result, note := f.note, equityAfter := EquityAfter(f))
  }

  /** A record is determined by its creation time and its submitted fields,
      as long as it satisfies the record invariant. */
  lemma ConsistentTradeIsMade(t: Trade)
    requires Consistent(t)
    ensures t == MakeTrade(t.date, FormOf(t))
  {
  }

  /** Equity after does not depend on the note: a Buy and a Sell with the
      same numbers and result are booked identically. */
  lemma NoteIgnored(f: TradeForm, note: string)
    ensures Pnl(f.(note := note)) == Pnl(f)
    ensures EquityAfter(f.(note := note)) == EquityAfter(f)
  {
  }

  /** Editing a record with the form it was created from gives the record back. */
  lemma EditWithCreationFormIsIdentity(date: nat, f: TradeForm)
    ensures ApplyEdit(MakeTrade(date, f), f) == MakeTrade(date, f)
  {
  }

  /** Two identical edits give the same record as one. */
  lemma EditIdempotent(t: Trade, f: TradeForm)
    ensures ApplyEdit(ApplyEdit(t, f), f) == ApplyEdit(t, f)
  {
  }

  /** The last edit wins: nothing of an earlier edit survives a later one. */
  lemma EditOverridesEdit(t: Trade, f: TradeForm, g: TradeForm)
    ensures ApplyEdit(ApplyEdit(t, f), g) == ApplyEdit(t, g)
  {
  }

  /** Sign of the booked profit/loss for a positive lot: a "TP" result gains
      exactly when the target lies above the open price, any other result
      loses exactly when the stop lies below it. */
  lemma PnlSign(f: TradeForm)
    requires f.lot > 0.0
    ensures f.result.TP? ==> (Pnl(f) > 0.0 <==> f.tp > f.openPrice)
    ensures !f.result.TP? ==> (Pnl(f) < 0.0 <==> f.sl < f.openPrice)
  {
    if f.result.TP? {
      ProductSign(f.tp - f.openPrice, 100.0 * f.lot);
    } else {
      ProductSign(f.sl - f.openPrice, 100.0 * f.lot);
    }
  }

  lemma ProductSign(x: real, y: real)
    requires y > 0.0
    ensures x * y > 0.0 <==> x > 0.0
    ensures x * y < 0.0 <==> x < 0.0
  {
    if x > 0.0 {
      assert x * y > 0.0;
    } else if x < 0.0 {
      assert (-x) * y > 0.0;
    }
  }

  /** Because the note is not consulted, a Sell that reaches its target below
      the open price is booked as a loss, and a Sell stopped out above the
      open price is booked as a gain. */
  lemma SellBookedAsBuy()
    ensures Pnl(TradeForm(10000.0, 1.0, 2000.0, 2010.0, 1990.0, TP, "Sell")) == -1000.0
    ensures Pnl(TradeForm(10000.0, 1.0, 2000.0, 2010.0, 1990.0, SL, "Sell")) == 1000.0
    ensures Pnl(TradeForm(10000.0, 1.0, 2000.0, 1990.0, 2010.0, TP, "Buy")) == 1000.0
    ensures Pnl(TradeForm(10000.0, 1.0, 2000.0, 1990.0, 2010.0, SL, "Buy")) == -1000.0
  {
  }

  /** A result string other than "TP" and "SL" is booked like a stop-loss. */
  lemma OtherResultBookedAsStop(f: TradeForm, text: string)
    requires text != "TP"
    ensures Pnl(f.(result := ParseResult(text))) == Pnl(f.(result := SL))
  {
  }
}
