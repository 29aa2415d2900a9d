/**
 * The trade collection and the three handlers that change it: creating a
 * trade inserts a record, editing overwrites a record's submitted fields and
 * recomputes its equity after, deleting removes one record. The document
 * store is abstracted to a map from record ids to records.
 */
module Store {
  import opened Accounting
  import opened Summary

  /** Store-assigned record id. */
  type Id = nat

  /** Every stored record satisfies the record invariant. */
  predicate AllConsistent(m: map<Id, Trade>)
  {
    forall id :: id in m ==> Consistent(m[id])
  }

  /** The collection after creating a trade at time `date` under the fresh id `id`. */
  function InsertRecord(m: map<Id, Trade>, id: Id, date: nat, f: TradeForm): (r: map<Id, Trade>)
    requires id !in m
    ensures r.Keys == m.Keys + {id}
    ensures r[id].date == date && FormOf(r[id]) == f && Consistent(r[id])
    ensures forall k :: k in m ==> r[k] == m[k]
  {
    m[id := MakeTrade(date, f)]
  }

  /** The collection after an edit of `id`; an id that matches nothing
      changes nothing. */
  function EditRecord(m: map<Id, Trade>, id: Id, f: TradeForm): (r: map<Id, Trade>)
    ensures r.Keys == m.Keys
    ensures id in m ==> r[id].date == m[id].date && FormOf(r[id]) == f && Consistent(r[id])
    ensures forall k :: k in m && k != id ==> r[k] == m[k]
    ensures id !in m ==> r == m
  {
    if id in m then m[id := ApplyEdit(m[id], f)] else m
  }

  /** The collection after deleting `id`; an id that matches nothing changes nothing. */
  function DeleteRecord(m: map<Id, Trade>, id: Id): (r: map<Id, Trade>)
    ensures r.Keys == m.Keys - {id}
    ensures forall k :: k in r ==> r[k] == m[k]
  {
    m - {id}
  }

  /** Creating a trade and then deleting it leaves the collection as it was. */
  lemma InsertThenDelete(m: map<Id, Trade>, id: Id, date: nat, f: TradeForm)
    requires id !in m
    ensures DeleteRecord(InsertRecord(m, id, date, f), id) == m
  {
  }

  /** Editing a record with the form it was created from changes nothing. */
  lemma EditWithCreationForm(m: map<Id, Trade>, id: Id, date: nat, f: TradeForm)
    requires id !in m
    ensures EditRecord(InsertRecord(m, id, date, f), id, f) == InsertRecord(m, id, date, f)
  {
  }

  /** Two identical edits leave the same collection as one. */
  lemma EditRecordIdempotent(m: map<Id, Trade>, id: Id, f: TradeForm)
    ensures EditRecord(EditRecord(m, id, f), id, f) == EditRecord(m, id, f)
  {
  }

  /** Deleting twice is deleting once. */
  lemma DeleteIdempotent(m: map<Id, Trade>, id: Id)
    ensures DeleteRecord(DeleteRecord(m, id), id) == DeleteRecord(m, id)
  {
  }

  /** All three operations keep the record invariant of every record. */
  lemma OperationsKeepConsistency(m: map<Id, Trade>, id: Id, date: nat, f: TradeForm)
    requires AllConsistent(m)
    ensures id !in m ==> AllConsistent(InsertRecord(m, id, date, f))
    ensures AllConsistent(EditRecord(m, id, f))
    ensures AllConsistent(DeleteRecord(m, id))
  {
  }

  /** `ids` lists every record of `m` exactly once, newest first. */
  predicate IsListing(m: map<Id, Trade>, ids: seq<Id>)
  {
    && (forall i :: 0 <= i < |ids| ==> ids[i] in m)
    && (forall k :: k in m ==> k in ids)
    && (forall i, j :: 0 <= i < j < |ids| ==> ids[i] != ids[j])
    && (forall i :: 0 <= i < |ids| - 1 ==> m[ids[i]].date >= m[ids[i + 1]].date)
  }

  /** The records a listing names, in its order. */
  function TradesOf(m: map<Id, Trade>, ids: seq<Id>): (ts: seq<Trade>)
    requires forall i :: 0 <= i < |ids| ==> ids[i] in m
    ensures |ts| == |ids|
    ensures forall i :: 0 <= i < |ids| ==> ts[i] == m[ids[i]]
  {
    seq(|ids|, i requires 0 <= i < |ids| => m[ids[i]])
  }

  /** A sequence without repetitions has as many distinct elements as entries. */
  lemma {:induction false} DistinctCardinality(ids: seq<Id>)
    requires forall i, j :: 0 <= i < j < |ids| ==> ids[i] != ids[j]
    ensures |set i | 0 <= i < |ids| :: ids[i]| == |ids|
  {
    if ids != [] {
      var rest := ids[1..];
      DistinctCardinality(rest);
      var s := set i | 0 <= i < |ids| :: ids[i];
      var t := set i | 0 <= i < |rest| :: rest[i];
      assert s == {ids[0]} + t by {
        forall x | x in s ensures x in {ids[0]} + t {
          var i :| 0 <= i < |ids| && ids[i] == x;
          if i > 0 { assert rest[i - 1] == x; }
        }
      }
      assert ids[0] !in t by {
        forall i | 0 <= i < |rest| ensures rest[i] != ids[0] {
          assert rest[i] == ids[i + 1];
        }
      }
    }
  }

  /** A listing yields every stored record exactly once, newest first. */
  lemma ListingTrades(m: map<Id, Trade>, ids: seq<Id>)
    requires IsListing(m, ids)
    ensures |TradesOf(m, ids)| == |m|
    ensures forall k :: k in m ==> m[k] in TradesOf(m, ids)
    ensures forall t :: t in TradesOf(m, ids) ==> t in m.Values
    ensures SortedByDateDesc(TradesOf(m, ids))
  {
    ListingLength(m, ids);
    var ts := TradesOf(m, ids);
    forall k | k in m ensures m[k] in ts {
      var i :| 0 <= i < |ids| && ids[i] == k;
      assert ts[i] == m[k];
    }
  }

  /** A listing has exactly one entry per stored record. */
  lemma ListingLength(m: map<Id, Trade>, ids: seq<Id>)
    requires IsListing(m, ids)
    ensures |ids| == |m|
  {
    DistinctCardinality(ids);
    var s := set i | 0 <= i < |ids| :: ids[i];
    assert s == m.Keys;
  }

  /** Over any listing of the collection: total is the number of stored
      records, and growth is the equity after of a newest record minus the
      equity of an oldest record of the whole collection. */
  lemma ListingSummary(m: map<Id, Trade>, ids: seq<Id>)
    requires IsListing(m, ids)
    ensures Summarize(TradesOf(m, ids)).total == |m|
    ensures m != map[] <==> ids != []
    ensures ids != [] ==>
      (forall k :: k in m ==> m[ids[|ids| - 1]].date <= m[k].date <= m[ids[0]].date)
    ensures ids != [] ==>
      Summarize(TradesOf(m, ids)).growth == m[ids[0]].equityAfter - m[ids[|ids| - 1]].equity
  {
    ListingLength(m, ids);
    var ts := TradesOf(m, ids);
    if m != map[] {
      assert SortedByDateDesc(ts);
      GrowthBetweenEndpoints(ts);
      forall k | k in m ensures m[ids[|ids| - 1]].date <= m[k].date <= m[ids[0]].date {
        var i :| 0 <= i < |ids| && ids[i] == k;
        assert ts[i] == m[k];
      }
    }
  }

  /** A trade created no earlier than every stored one heads the listing. */
  lemma InsertHeadsListing(m: map<Id, Trade>, ids: seq<Id>, id: Id, date: nat, f: TradeForm)
    requires IsListing(m, ids)
    requires id !in m
    requires forall k :: k in m ==> m[k].date <= date
    ensures IsListing(InsertRecord(m, id, date, f), [id] + ids)
  {
    var r := InsertRecord(m, id, date, f);
    var ids' := [id] + ids;
    forall k | k in r ensures k in ids' {
      if k != id { assert k in ids; }
    }
    forall i | 0 <= i < |ids'| - 1 ensures r[ids'[i]].date >= r[ids'[i + 1]].date {
      assert ids'[i + 1] == ids[i];
    }
  }

  /** An edit keeps every listing valid: it never moves a record in time. */
  lemma EditKeepsListing(m: map<Id, Trade>, ids: seq<Id>, id: Id, f: TradeForm)
    requires IsListing(m, ids)
    ensures IsListing(EditRecord(m, id, f), ids)
  {
  }

  /** The listing with its entry at position `p` dropped. */
  function RemoveAt(ids: seq<Id>, p: nat): (r: seq<Id>)
    requires p < |ids|
    ensures |r| == |ids| - 1
    ensures forall i :: 0 <= i < p ==> r[i] == ids[i]
    ensures forall i :: p <= i < |r| ==> r[i] == ids[i + 1]
  {
    ids[..p] + ids[p + 1..]
  }

  /** Dropping an entry of a repetition-free sequence leaves exactly the
      other elements, still without repetitions. */
  lemma RemoveAtElements(ids: seq<Id>, p: nat)
    requires p < |ids|
    requires forall i, j :: 0 <= i < j < |ids| ==> ids[i] != ids[j]
    ensures forall i, j :: 0 <= i < j < |RemoveAt(ids, p)| ==> RemoveAt(ids, p)[i] != RemoveAt(ids, p)[j]
    ensures forall k :: k in RemoveAt(ids, p) <==> k in ids && k != ids[p]
  {
    var r := RemoveAt(ids, p);
    forall i, j | 0 <= i < j < |r| ensures r[i] != r[j] {
      var i0 := if i < p then i else i + 1;
      var j0 := if j < p then j else j + 1;
      assert r[i] == ids[i0] && r[j] == ids[j0];
    }
    forall k ensures k in r <==> k in ids && k != ids[p] {
      if k in r {
        var i :| 0 <= i < |r| && r[i] == k;
        var i0 := if i < p then i else i + 1;
        assert ids[i0] == k && i0 != p;
      }
      if k in ids && k != ids[p] {
        var i :| 0 <= i < |ids| && ids[i] == k;
        if i < p { assert r[i] == k; } else { assert r[i - 1] == k; }
      }
    }
  }

  /** Dropping the deleted id from a listing gives a listing of the rest. */
  lemma DeleteKeepsListing(m: map<Id, Trade>, ids: seq<Id>, p: nat)
    requires IsListing(m, ids)
    requires p < |ids|
    ensures IsListing(DeleteRecord(m, ids[p]), RemoveAt(ids, p))
  {
    var r := DeleteRecord(m, ids[p]);
    var ids' := RemoveAt(ids, p);
    RemoveAtElements(ids, p);
    forall i | 0 <= i < |ids'| - 1 ensures r[ids'[i]].date >= r[ids'[i + 1]].date {
      if i + 1 == p {
        assert m[ids[p - 1]].date >= m[ids[p]].date >= m[ids[p + 1]].date;
      } else {
        var i0 := if i < p then i else i + 1;
        assert ids'[i] == ids[i0] && ids'[i + 1] == ids[i0 + 1];
      }
    }
  }

  /** The trade collection the handlers share. */
  class Journal {
    var records: map<Id, Trade>

    ghost predicate Valid()
      reads this
    {
      AllConsistent(records)
    }

    constructor ()
      ensures Valid()
      ensures records == map[]
    {
      records := map[];
    }

    /** Creating a trade: the record built from the form and the creation
        time is stored under the id the store assigns. */
    method Insert(id: Id, date: nat, f: TradeForm)
      requires Valid()
      requires id !in records
      modifies this
      ensures Valid()
      ensures records == InsertRecord(old(records), id, date, f)
    {
      var trade := MakeTrade(date, f);
      records := records[id := trade];
    }

    /** Editing a trade: the record under `id`, if any, gets the form's
        fields and a recomputed equity after; nothing else changes. */
    method Edit(id: Id, f: TradeForm)
      requires Valid()
      modifies this
      ensures Valid()
      ensures records == EditRecord(old(records), id, f)
    {
      if id in records {
        records := records[id := ApplyEdit(records[id], f)];
      }
    }

    /** Deleting a trade: the record under `id`, if any, is removed. */
    method Delete(id: Id)
      requires Valid()
      modifies this
      ensures Valid()
      ensures records == DeleteRecord(old(records), id)
    {
      records := records - {id};
    }
  }
}
