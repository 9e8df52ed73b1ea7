/** The `propostas` table: records keyed by an AUTOINCREMENT id, the status
    overwrites that finalise a dispatch or record a client's decision, and the
    history listing ordered by `data_envio`. */
module Proposals {

  /** The status strings the server writes: "Pendente", "Enviado", "Falha",
      "Aceita" and "Recusada". */
  datatype Status = Pendente | Enviado | Falha | Aceita | Recusada

  /** One row of `propostas` without its id. `dataEnvio` is the store's
      `datetime('now')` at insertion, as a count of seconds. */
  datatype Proposal = Proposal(
    cliente: string,
    empresa: string,
    valor: string,
    descricao: string,
    email: string,
    validade: string,
    dataEnvio: int,
    status: Status)

  /** The rows by id, and the largest id ever handed out (SQLite's
      `sqlite_sequence` entry for the table). */
  datatype Store = Store(rows: map<int, Proposal>, lastId: int)

  /** The largest rowid SQLite can assign. */
  const MaxRowId: int := 0x7FFF_FFFF_FFFF_FFFF

  const EmptyStore: Store := Store(map[], 0)

  /** Every id is one that AUTOINCREMENT has handed out. */
  predicate WellFormed(s: Store) {
    && 0 <= s.lastId <= MaxRowId
    && forall id :: id in s.rows ==> 1 <= id <= s.lastId
  }

  lemma EmptyStoreWellFormed()
    ensures WellFormed(EmptyStore) && |EmptyStore.rows| == 0
  {
  }

  datatype InsertError =
    | StoreFull       // AUTOINCREMENT has used the largest rowid (SQLITE_FULL)
    | EngineFailure   // any other failure the database engine reports

  datatype InsertResult = Saved(store: Store, id: int) | NotSaved(error: InsertError)

  /** `INSERT INTO propostas …`: `engineOk` stands for every failure of the
      engine other than running out of ids. */
  function Insert(s: Store, row: Proposal, engineOk: bool): (r: InsertResult)
    requires WellFormed(s)
    ensures r.Saved? <==> engineOk && s.lastId < MaxRowId
    ensures r.NotSaved? ==> (r.error == StoreFull <==> s.lastId == MaxRowId)
    ensures r.Saved? ==>
              && WellFormed(r.store)
              && r.id == r.store.lastId == s.lastId + 1
              && r.id !in s.rows
              && (forall id :: id in s.rows ==> id < r.id)
              && r.store.rows.Keys == s.rows.Keys + {r.id}
              && r.store.rows[r.id] == row
              && (forall id :: id in s.rows ==> r.store.rows[id] == s.rows[id])
  {
    if s.lastId == MaxRowId then NotSaved(StoreFull)
    else if !engineOk then NotSaved(EngineFailure)
    else
      var id := s.lastId + 1;
      Saved(Store(s.rows[id := row], id), id)
  }

  /** `after` holds the same records as `before`, with at most their statuses
      changed. */
  predicate StatusesOnlyChanged(before: Store, after: Store) {
    && after.rows.Keys == before.rows.Keys
    && forall k :: k in after.rows ==> after.rows[k] == before.rows[k].(status := after.rows[k].status)
  }

  /** `UPDATE propostas SET status = ? WHERE id = ?`. */
  function UpdateStatus(s: Store, id: int, status: Status): (r: Store)
    ensures WellFormed(s) ==> WellFormed(r)
    ensures StatusesOnlyChanged(s, r)
    ensures r.lastId == s.lastId && r.rows.Keys == s.rows.Keys
    ensures id in s.rows ==> r.rows[id] == s.rows[id].(status := status)
    ensures id !in s.rows ==> r == s
    ensures forall k :: k in s.rows && k != id ==> r.rows[k] == s.rows[k]
  {
    if id in s.rows then s.(rows := s.rows[id := s.rows[id].(status := status)]) else s
  }

  /** Writing the same status twice is the same as writing it once. */
  lemma UpdateStatusIdempotent(s: Store, id: int, status: Status)
    ensures UpdateStatus(UpdateStatus(s, id, status), id, status) == UpdateStatus(s, id, status)
  {
  }

  /** The later of two writes to one record wins. */
  lemma UpdateStatusLastWins(s: Store, id: int, first: Status, second: Status)
    ensures UpdateStatus(UpdateStatus(s, id, first), id, second) == UpdateStatus(s, id, second)
  {
    if id in s.rows {
      var t := UpdateStatus(s, id, first);
      assert t.rows[id := t.rows[id].(status := second)] == s.rows[id := s.rows[id].(status := second)];
    }
  }

  datatype Decision = Aceitar | Recusar

  function DecidedStatus(d: Decision): Status {
    match d
    case Aceitar => Aceita
    case Recusar => Recusada
  }

  /** The reply of `/proposta/:id/aceitar` and `/proposta/:id/recusar`:
      confirmed whenever the UPDATE ran, even when it matched no row. */
  datatype DecisionReply = Confirmed | DecisionFailed

  datatype DecisionRun = DecisionRun(store: Store, reply: DecisionReply)

  /** Records a client's decision: an unguarded status overwrite keyed by id. */
  function Decide(s: Store, id: int, d: Decision, engineOk: bool): (r: DecisionRun)
    ensures r.reply == Confirmed <==> engineOk
    ensures !engineOk ==> r.store == s
    ensures WellFormed(s) ==> WellFormed(r.store)
    ensures r.store.lastId == s.lastId && r.store.rows.Keys == s.rows.Keys
    ensures engineOk && id in s.rows ==>
              r.store.rows[id] == s.rows[id].(status := DecidedStatus(d))
    ensures id !in s.rows ==> r.store == s
    ensures forall k :: k in s.rows && k != id ==> r.store.rows[k] == s.rows[k]
  {
    if engineOk then DecisionRun(UpdateStatus(s, id, DecidedStatus(d)), Confirmed)
    else DecisionRun(s, DecisionFailed)
  }

  /** Whatever the current status, a decision sets it: a decided proposal can be
      decided again, and the latest decision stands. */
  lemma DecideLatestStands(s: Store, id: int, first: Decision, second: Decision)
    requires id in s.rows
    ensures Decide(Decide(s, id, first, true).store, id, second, true).store.rows[id].status
            == DecidedStatus(second)
    ensures Decide(Decide(s, id, first, true).store, id, second, true).store
            == Decide(s, id, second, true).store
  {
    UpdateStatusLastWins(s, id, DecidedStatus(first), DecidedStatus(second));
  }

  /** One row of the history listing: `SELECT *` returns the id with the columns. */
  datatype Row = Row(id: int, proposal: Proposal)

  predicate NewestFirst(r: seq<Row>) {
    forall i, j :: 0 <= i < j < |r| ==> r[i].proposal.dataEnvio >= r[j].proposal.dataEnvio
  }

  predicate DistinctIds(r: seq<Row>) {
    forall i, j :: 0 <= i < j < |r| ==> r[i].id != r[j].id
  }

  predicate Listed(r: seq<Row>, id: int) {
    exists i :: 0 <= i < |r| && r[i].id == id
  }

  lemma ListedExtends(p: seq<Row>, x: Row, id: int)
    ensures Listed(p, id) || id == x.id ==> Listed(p + [x], id)
  {
    if Listed(p, id) {
      var i :| 0 <= i < |p| && p[i].id == id;
      assert (p + [x])[i] == p[i];
    } else if id == x.id {
      assert (p + [x])[|p|] == x;
    }
  }

  /** The rows with ids 1 to `k`, in ascending id order: the reference listing. */
  function RowsUpTo(m: map<int, Proposal>, k: int): (r: seq<Row>)
    ensures forall i :: 0 <= i < |r| ==> 1 <= r[i].id <= k && r[i].id in m && r[i].proposal == m[r[i].id]
    ensures forall i, j :: 0 <= i < j < |r| ==> r[i].id < r[j].id
    ensures forall id :: id in m && 1 <= id <= k ==> Listed(r, id)
    decreases k
  {
    if k <= 0 then []
    else
      var prefix := RowsUpTo(m, k - 1);
      if k in m then
        var x := Row(k, m[k]);
        assert forall id :: id in m && 1 <= id <= k ==> Listed(prefix + [x], id) by {
          forall id | id in m && 1 <= id <= k ensures Listed(prefix + [x], id) {
            ListedExtends(prefix, x, id);
          }
        }
        prefix + [x]
      else prefix
  }

  /** Every element of `q` is an element of `r` when the two hold the same multiset. */
  lemma ElementsOf(q: seq<Row>, r: seq<Row>)
    requires multiset(q) == multiset(r)
    ensures forall i :: 0 <= i < |q| ==> q[i] in r
  {
    forall i | 0 <= i < |q| ensures q[i] in r {
      assert q[i] in multiset(q);
    }
  }

  lemma NotListedAmong(q: seq<Row>, r: seq<Row>, id: int)
    requires forall i :: 0 <= i < |q| ==> q[i] in r
    requires !Listed(r, id)
    ensures !Listed(q, id)
  {
    forall i | 0 <= i < |q| ensures q[i].id != id {
      var j :| 0 <= j < |r| && r[j] == q[i];
    }
  }

  /** The facts `InsertNewestFirst` needs when `x` goes after the first row. */
  lemma InsertAfterHead(x: Row, r: seq<Row>, tail: seq<Row>)
    requires NewestFirst(r) && |r| > 0 && x.proposal.dataEnvio < r[0].proposal.dataEnvio
    requires NewestFirst(tail) && multiset(tail) == multiset(r[1..]) + multiset{x}
    requires DistinctIds(r[1..]) && !Listed(r[1..], x.id) ==> DistinctIds(tail)
    ensures NewestFirst([r[0]] + tail)
    ensures multiset([r[0]] + tail) == multiset(r) + multiset{x}
    ensures DistinctIds(r) && !Listed(r, x.id) ==> DistinctIds([r[0]] + tail)
  {
    assert r == [r[0]] + r[1..];
    var from := r[1..] + [x];
    assert multiset(from) == multiset(r[1..]) + multiset{x};
    ElementsOf(tail, from);
    forall i | 0 <= i < |tail|
      ensures tail[i].proposal.dataEnvio <= r[0].proposal.dataEnvio
    {
      var j :| 0 <= j < |from| && from[j] == tail[i];
      if j < |r| - 1 {
        assert from[j] == r[j + 1];
      }
    }
    if DistinctIds(r) && !Listed(r, x.id) {
      HeadNotAmong(x, r, tail);
    }
  }

  /** With distinct ids, the first row's id occurs neither in the rest nor in `x`,
      so not in a rearrangement of the two. */
  lemma HeadNotAmong(x: Row, r: seq<Row>, tail: seq<Row>)
    requires |r| > 0 && DistinctIds(r) && !Listed(r, x.id)
    requires multiset(tail) == multiset(r[1..]) + multiset{x}
    requires DistinctIds(r[1..]) && !Listed(r[1..], x.id) ==> DistinctIds(tail)
    ensures DistinctIds([r[0]] + tail)
  {
    var from := r[1..] + [x];
    assert multiset(from) == multiset(r[1..]) + multiset{x};
    ElementsOf(tail, from);
    forall i | 0 <= i < |r[1..]| ensures r[1..][i].id != x.id && r[1..][i].id != r[0].id {
      assert r[1..][i] == r[i + 1];
    }
    assert !Listed(from, r[0].id) by {
      forall j | 0 <= j < |from| ensures from[j].id != r[0].id {
        if j < |r| - 1 {
          assert from[j] == r[1..][j];
        } else {
          assert from[j] == x;
          assert r[0].id != x.id;
        }
      }
    }
    NotListedAmong(tail, from, r[0].id);
  }

  /** Inserts `x` before the first row that is not newer than it. */
  function InsertNewestFirst(x: Row, r: seq<Row>): (q: seq<Row>)
    requires NewestFirst(r)
    ensures NewestFirst(q)
    ensures multiset(q) == multiset(r) + multiset{x}
    ensures DistinctIds(r) && !Listed(r, x.id) ==> DistinctIds(q)
  {
    if |r| == 0 || x.proposal.dataEnvio >= r[0].proposal.dataEnvio then
      [x] + r
    else
      var tail := InsertNewestFirst(x, r[1..]);
      InsertAfterHead(x, r, tail);
      [r[0]] + tail
  }

  /** The facts `SortNewestFirst` needs to insert the first row into the sorted rest. */
  lemma SortHead(r: seq<Row>, rest: seq<Row>)
    requires |r| > 0 && multiset(rest) == multiset(r[1..])
    requires DistinctIds(r[1..]) ==> DistinctIds(rest)
    ensures multiset(rest) + multiset{r[0]} == multiset(r)
    ensures DistinctIds(r) ==> DistinctIds(rest) && !Listed(rest, r[0].id)
  {
    assert r == [r[0]] + r[1..];
    if DistinctIds(r) {
      ElementsOf(rest, r[1..]);
      forall i | 0 <= i < |r[1..]| ensures r[1..][i].id != r[0].id {
        assert r[1..][i] == r[i + 1];
      }
      NotListedAmong(rest, r[1..], r[0].id);
    }
  }

  /** Orders rows by non-increasing `dataEnvio` (insertion sort). */
  function SortNewestFirst(r: seq<Row>): (q: seq<Row>)
    ensures NewestFirst(q)
    ensures multiset(q) == multiset(r)
    ensures DistinctIds(r) ==> DistinctIds(q)
  {
    if |r| == 0 then []
    else
      var rest := SortNewestFirst(r[1..]);
      SortHead(r, rest);
      InsertNewestFirst(r[0], rest)
  }

  /** A reordering of a listing of `m` that shows every record lists every record. */
  lemma ReorderedListing(all: seq<Row>, sorted: seq<Row>, m: map<int, Proposal>)
    requires multiset(sorted) == multiset(all)
    requires forall i :: 0 <= i < |all| ==> all[i].id in m && all[i].proposal == m[all[i].id]
    requires forall id :: id in m ==> Listed(all, id)
    ensures forall i :: 0 <= i < |sorted| ==> sorted[i].id in m && sorted[i].proposal == m[sorted[i].id]
    ensures forall id :: id in m ==> Listed(sorted, id)
  {
    ElementsOf(sorted, all);
    ElementsOf(all, sorted);
    forall i | 0 <= i < |sorted|
      ensures sorted[i].id in m && sorted[i].proposal == m[sorted[i].id]
    {
      var j :| 0 <= j < |all| && all[j] == sorted[i];
    }
    forall id | id in m ensures Listed(sorted, id) {
      var i :| 0 <= i < |all| && all[i].id == id;
      var j :| 0 <= j < |sorted| && sorted[j] == all[i];
    }
  }

  /** The reply of `/propostas`. */
  datatype HistoryReply = Listing(rows: seq<Row>) | ListFailed

  /** `SELECT * FROM propostas ORDER BY data_envio DESC`: every record exactly
      once, newest first; the order among equal timestamps is unspecified. */
  function History(s: Store, engineOk: bool): (r: HistoryReply)
    requires WellFormed(s)
    ensures r.Listing? <==> engineOk
    ensures r.Listing? ==>
              && NewestFirst(r.rows)
              && DistinctIds(r.rows)
              && (forall i :: 0 <= i < |r.rows| ==>
                    r.rows[i].id in s.rows && r.rows[i].proposal == s.rows[r.rows[i].id])
              && (forall id :: id in s.rows ==> Listed(r.rows, id))
  {
    if !engineOk then ListFailed
    else
      var all := RowsUpTo(s.rows, s.lastId);
      var sorted := SortNewestFirst(all);
      ReorderedListing(all, sorted, s.rows);
      Listing(sorted)
  }

  /** Timestamps strictly increase with the id: each record was created in a
      later second than the one before it. */
  predicate StrictlyChronological(s: Store) {
    forall a, b :: a in s.rows && b in s.rows && a < b ==> s.rows[a].dataEnvio < s.rows[b].dataEnvio
  }

  /** A row inserted at a later time than every stored one keeps timestamps
      increasing with the id. */
  lemma InsertLatestKeepsChronology(s: Store, row: Proposal, engineOk: bool)
    requires WellFormed(s) && StrictlyChronological(s)
    requires forall k :: k in s.rows ==> s.rows[k].dataEnvio < row.dataEnvio
    ensures Insert(s, row, engineOk).Saved? ==> StrictlyChronological(Insert(s, row, engineOk).store)
  {
    var r := Insert(s, row, engineOk);
    if r.Saved? {
      forall a, b | a in r.store.rows && b in r.store.rows && a < b
        ensures r.store.rows[a].dataEnvio < r.store.rows[b].dataEnvio
      {
        if b == r.id {
          assert a in s.rows;
        }
      }
    }
  }

  /** Status writes leave the timestamps, and so their order, as they were. */
  lemma StatusWritesKeepChronology(s: Store, r: Store)
    requires StatusesOnlyChanged(s, r)
    requires StrictlyChronological(s)
    ensures StrictlyChronological(r)
  {
    forall a, b | a in r.rows && b in r.rows && a < b
      ensures r.rows[a].dataEnvio < r.rows[b].dataEnvio
    {
      assert r.rows[a].dataEnvio == s.rows[a].dataEnvio;
      assert r.rows[b].dataEnvio == s.rows[b].dataEnvio;
    }
  }

  /** When no two records share a creation time, the history lists them in the
      reverse of their creation order. */
  lemma HistoryReversesCreation(s: Store)
    requires WellFormed(s) && StrictlyChronological(s)
    ensures forall i, j :: 0 <= i < j < |History(s, true).rows| ==>
              History(s, true).rows[i].id > History(s, true).rows[j].id
  {
    var r := History(s, true).rows;
    forall i, j | 0 <= i < j < |r| ensures r[i].id > r[j].id {
      assert r[i].proposal == s.rows[r[i].id];
      assert r[j].proposal == s.rows[r[j].id];
    }
  }
}
