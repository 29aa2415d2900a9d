# Trading journal accounting model

A Dafny model of the trade accounting of a small trading-journal web
application for one instrument (XAUUSD). Its handlers do three things:

- they turn a submitted trade form into a stored record with a derived
  `equity_after`;
- they show summary statistics over all stored trades, newest first;
- they create, edit and delete records in a document collection.

The model has three modules:

- `Accounting` (`accounting.dfy`) holds the per-trade rule. The pip value is
  `100 * lot`. A result of exactly `"TP"` books `(tp - open_price) * pip_value`.
  Every other result string books `(open_price - sl) * pip_value * -1`.
  `equity_after` is `equity + pnl`. The rule is the same on create and on
  edit. The `note` field (Buy/Sell) is never read by it. `MakeTrade` builds
  the record a create inserts. `ApplyEdit` builds the record an edit leaves
  behind. The record invariant `Consistent` says a stored `equity_after`
  equals `equity + pnl` of the stored fields.
- `Summary` (`summary.dfy`) holds the statistics: the `"TP"` count, the
  `"SL"` count, the total, the win rate and the growth. Growth is the head's
  `equity_after` minus the last element's `equity` in a newest-first list.
  The same block appears in both the index and the edit handler.
- `Store` (`store.dfy`) holds the trade collection as a `map<Id, Trade>`:
  - the `Journal` class, whose `Insert`, `Edit` and `Delete` methods update
    that map in place;
  - pure map functions that specify those methods;
  - `IsListing`, which says when a sequence of ids lists every stored record
    once, newest first. This ties the store's sorted read to the statistics.

Numbers are `real`, an idealisation of Python floats. The creation time is a
`nat` timestamp. The zero-padded `'%Y-%m-%d %H:%M:%S'` string sorts the same
way a timestamp does.

Three behaviours of the code differ from what a reader might expect of a
trading journal. The model keeps the code's behaviour in each case:

- A direction-aware rule would book a Sell that reaches a target below its
  open price as a gain. The code ignores the direction and books it as a
  loss. It books a Sell stopped out above its open price as a gain
  (`Accounting.SellBookedAsBuy`).
- An edit of an id that matches no record is not reported as an error. The
  code issues an `update_one` that matches nothing, which changes nothing
  (`Store.EditRecord`).
- The result is a free string, not a two-value choice. A result other than
  `"TP"` or `"SL"` counts towards neither count. It is still booked with the
  stop-loss formula.

The result field has type `Accounting.Result`: the outcomes a form string
can produce. An `Other` outcome never carries the text `"TP"` or `"SL"`, so
every record's result is booked and counted as its string would be.

## Model

| member | source | states |
|---|---|---|
| `Accounting.ParseResult` | app.py:171-175 | the form's result string becomes TP exactly for `"TP"`, SL exactly for `"SL"`, otherwise it is kept verbatim |
| `Accounting.ResultLabel` | app.py:189 | the stored result string is `"TP"` exactly for TP and `"SL"` exactly for SL |
| `Accounting.ParseLabelRoundTrip` | app.py:171-189 | a result string read from the form and stored again is unchanged |
| `Accounting.LabelParseRoundTrip` | app.py:171-189 | every outcome a form can produce is recovered from its stored string |
| `Accounting.Pnl` | app.py:174-178 | "TP" books `(tp - open) * 100 * lot`; every other result books `(sl - open) * 100 * lot` |
| `Accounting.EquityAfter` | app.py:174-180 | equity after is equity plus the booked profit/loss of either branch |
| `Accounting.MakeTrade` | app.py:182-192 | a created record carries the creation time, exactly the submitted fields, and satisfies `equity_after = equity + pnl` |
| `Accounting.ApplyEdit` | app.py:244-253 | an edit keeps the date, takes exactly the submitted fields, recomputes equity after, and equals creating at the old date |
| `Accounting.ConsistentTradeIsMade` | app.py:182-192 | a record satisfying the invariant is the record that creating with its own date and fields builds |
| `Accounting.NoteIgnored` | app.py:166-180 | two forms differing only in the note get identical pnl and equity after |
| `Accounting.EditWithCreationFormIsIdentity` | app.py:236-253 | editing a record with the form it was created from reproduces it, the create and edit formulas agree |
| `Accounting.EditIdempotent` | app.py:244-253 | two identical edits give the same record as one |
| `Accounting.EditOverridesEdit` | app.py:244-253 | a later edit erases every trace of an earlier one |
| `Accounting.PnlSign` | app.py:174-178 | for a positive lot, "TP" gains iff tp is above open, any other result loses iff sl is below open |
| `Accounting.SellBookedAsBuy` | app.py:172-178 | worked examples: Sell hitting its target below open books -1000, Sell stopped above open books +1000, Buy books +1000/-1000 |
| `Accounting.OtherResultBookedAsStop` | app.py:175-178 | any result string other than "TP" is booked exactly like "SL" |
| `Summary.CountTP` | app.py:198 | the "TP" count is at most the length, 0 iff no trade is "TP", the length iff every trade is "TP" |
| `Summary.CountSL` | app.py:199 | the "SL" count is at most the length and 0 iff no trade is "SL" |
| `Summary.WinRate` | app.py:203 | 0 for no trades, otherwise `tp * 100 / total`, always between 0 and 100 |
| `Summary.Summarize` | app.py:197-211 | total is the length; tp + sl is at most total; win rate is `WinRate(tp, total)`, in [0, 100]; all zero for no trades; growth is head's equity after minus last's equity |
| `Summary.CountsPartition` | app.py:198-200 | every trade is counted exactly once as "TP", "SL" or neither |
| `Summary.CountOtherZero` | app.py:198-200 | no trade falls outside "TP" and "SL" iff the neither-count is 0 |
| `Summary.CountsCoverAll` | app.py:198-200 | tp + sl equals total iff every result is "TP" or "SL" |
| `Summary.WinRateExtremes` | app.py:198-203 | for a non-empty list the win rate is 100 iff every result is "TP" and 0 iff none is |
| `Summary.WinRateTwoOfThree` | app.py:198-211 | two "TP" and one "SL" give counts 2/1/3 and win rate 200/3 |
| `Summary.GrowthBetweenEndpoints` | app.py:197-210 | in a newest-first list the head is a newest and the last an oldest trade, and growth is their equity after minus equity |
| `Summary.GrowthIndependentOfListing` | app.py:197-210 | with distinct creation times, any two newest-first orderings of the same trades give the same growth |
| `Summary.GrowthOfSingleTrade` | app.py:201-210 | for one consistent record the growth is its pnl |
| `Summary.GrowthIsTotalPnl` | app.py:201-210 | when each trade starts from the previous trade's equity after, growth is the sum of all pnl |
| `Store.InsertRecord` | app.py:182-194 | create adds exactly the new id, whose record has the given date and form and is consistent; other records unchanged |
| `Store.EditRecord` | app.py:244-253 | edit keeps the id set and the date, replaces the form fields and recomputes equity after; other records unchanged; an unknown id changes nothing |
| `Store.DeleteRecord` | app.py:219 | delete removes exactly the given id and leaves every other record unchanged |
| `Store.InsertThenDelete` | app.py:182-219 | deleting a just-created record restores the collection |
| `Store.EditWithCreationForm` | app.py:244-253 | editing a new record with its creation form leaves the collection unchanged |
| `Store.EditRecordIdempotent` | app.py:244-253 | two identical edits of the collection equal one |
| `Store.DeleteIdempotent` | app.py:219 | deleting twice equals deleting once |
| `Store.OperationsKeepConsistency` | app.py:174-194 | create, edit and delete keep `equity_after = equity + pnl` for every stored record |
| `Store.ListingTrades` | app.py:197 | a listing yields exactly as many records as are stored, every stored record among them, nothing else, newest first |
| `Store.ListingLength` | app.py:197-200 | a listing has one entry per stored record |
| `Store.ListingSummary` | app.py:197-210 | over a listing of the collection: total is the number of records, growth is a newest record's equity after minus an oldest record's equity |
| `Store.InsertHeadsListing` | app.py:183-197 | a record created no earlier than all others heads the new listing |
| `Store.EditKeepsListing` | app.py:244-257 | an edit never moves a record in the newest-first order |
| `Store.DeleteKeepsListing` | app.py:219 | dropping the deleted id from a listing gives a listing of the remaining records |
| `Store.Journal.constructor` | app.py:17 | an empty collection |
| `Store.Journal.Insert` | app.py:182-194 | the collection becomes `InsertRecord` of the old one; all records stay consistent |
| `Store.Journal.Edit` | app.py:244-253 | the collection becomes `EditRecord` of the old one; all records stay consistent |
| `Store.Journal.Delete` | app.py:219 | the collection becomes `DeleteRecord` of the old one; all records stay consistent |

## Left out

- Flask routing, `render_template_string` and the HTML/JavaScript template: presentation only.
- Login, sessions and the user lookups in `login_system.py`: authentication plumbing with no accounting logic.
- The MongoDB client and `ObjectId` parsing: the collection is the `Journal` map. A fresh id is an input to `Insert`. A malformed id raising an exception is not modelled.
- `float(request.form[...])` parsing and its `ValueError`: the form reaches the model as already-parsed numbers.
- `datetime.now()`: the creation time is an input to `Insert`.
- The store's `sort("date", -1)` itself and its tie-breaking: the statistics take any newest-first list. `IsListing` states what a sorted read of the collection is.
- Summary.WinRate: the exact ratio `tp * 100 / total`, without the rounding to two decimals of `round(..., 2)`.
- Float rounding in general: all arithmetic is exact over the reals.
- The two-decimal display formatting.
- The CSV export (`export`, `io.StringIO`, `send_file`): library I/O with no computation.
- The edit page's `find_one` lookup for pre-filling the form: display only.
- Concurrent handlers touching the shared collection: each handler is modelled as one sequential call.
