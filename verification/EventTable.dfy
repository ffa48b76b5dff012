/**
 Rows of the `direct_events` table and the WHERE clauses the store uses on them.
 A table is the sequence of its rows in `sequence` order.
 */
module EventTable {
  import opened Filters

  /** One stored row; `body` stands for the remaining fields of `payload_json`. */
  datatype Row = Row(
    sequence: nat,
    id: string,
    dedupe: string,
    profile: string,
    createdAt: real,
    body: string)

  /** The WHERE clauses of the store's statements. */
  datatype Where =
    | CreatedSince(cutoff: real)
    | SequenceAbove(after: int)
    | HasId(id: string)
    | EitherKey(eventId: string, dedupeKey: string)
    | InScope(profiles: seq<string>, above: int)
  {
    predicate Holds(row: Row) {
      match this
      case CreatedSince(cutoff) => row.createdAt >= cutoff
      case SequenceAbove(after) => row.sequence > after
      case HasId(id) => row.id == id
      case EitherKey(eventId, dedupeKey) => row.id == eventId || row.dedupe == dedupeKey
      case InScope(profiles, above) => row.profile in profiles && row.sequence > above
    }
  }

  /** The rows satisfying `where`, in `sequence` order. */
  function Select(rows: seq<Row>, where: Where): (r: seq<Row>)
    ensures |r| <= |rows|
  {
    Filter(rows, where.Holds)
  }

  lemma SelectMembers(rows: seq<Row>, where: Where)
    ensures forall row :: row in Select(rows, where) <==> row in rows && where.Holds(row)
  {
    FilterMembers(rows, where.Holds);
  }

  ghost predicate Ascending(rows: seq<Row>) {
    forall i, j :: 0 <= i < j < |rows| ==> rows[i].sequence < rows[j].sequence
  }

  /** The last `n` rows, or all of them when there are fewer. */
  function Newest(rows: seq<Row>, n: nat): seq<Row> {
    rows[Max(0, |rows| - n)..]
  }

  lemma {:induction false} FilterAscending(rows: seq<Row>, f: Row -> bool)
    requires Ascending(rows)
    ensures Ascending(Filter(rows, f))
  {
    if rows != [] {
      var front := rows[..|rows| - 1];
      FilterAscending(front, f);
      FilterMembers(front, f);
      forall r | r in Filter(front, f) ensures r.sequence < rows[|rows| - 1].sequence {
        var i :| 0 <= i < |front| && front[i] == r;
        assert rows[i] == r;
      }
    }
  }

  lemma SelectAscending(rows: seq<Row>, where: Where)
    requires Ascending(rows)
    ensures Ascending(Select(rows, where))
  {
    FilterAscending(rows, where.Holds);
  }

  /** What lies above the row at index `i` is everything after it. */
  lemma SelectAbove(rows: seq<Row>, i: nat)
    requires Ascending(rows) && i < |rows|
    ensures Select(rows, SequenceAbove(rows[i].sequence)) == rows[i + 1..]
  {
    FilterSuffix(rows, SequenceAbove(rows[i].sequence).Holds, i + 1);
  }

  /** Reading on from a row that a scoped read returned yields the rest of that read. */
  lemma SelectContinues(rows: seq<Row>, profiles: seq<string>, above: int, i: nat)
    requires Ascending(rows) && i < |Select(rows, InScope(profiles, above))|
    ensures var all := Select(rows, InScope(profiles, above));
            Select(rows, InScope(profiles, all[i].sequence)) == all[i + 1..]
  {
    var scope := InScope(profiles, above);
    var all := Select(rows, scope);
    var next := all[i].sequence;
    assert scope.Holds(all[i]) by {
      SelectMembers(rows, scope);
      assert all[i] in all;
    }
    SelectAscending(rows, scope);
    SelectAbove(all, i);
    FilterTwice(rows, scope.Holds, SequenceAbove(next).Holds, InScope(profiles, next).Holds);
  }
}
