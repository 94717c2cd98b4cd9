/** The best-time table: one record per difficulty, replaced only by a
    strictly faster time. */
module Scores {

  datatype Difficulty = Medium | Hard | Extreme

  /** NoRecord stands for the stored time float('inf') with an empty date. */
  datatype Record = NoRecord | Best(time: real, date: string)

  type Table = map<Difficulty, Record>

  /** The table load_high_scores falls back to. */
  function EmptyTable(): (t: Table)
    ensures t.Keys == {Medium, Hard, Extreme}
    ensures forall d | d in t :: t[d] == NoRecord
  {
    map[Medium := NoRecord, Hard := NoRecord, Extreme := NoRecord]
  }

  /** time_seconds < high_scores[difficulty]["time"], inf being above every time. */
  predicate Beats(t: real, r: Record) {
    r.NoRecord? || t < r.time
  }

  /** The table after update_high_score(d, t) with the current date. */
  function Updated(table: Table, d: Difficulty, t: real, date: string): (u: Table)
    requires d in table
    ensures u.Keys == table.Keys
    ensures Beats(t, table[d]) ==> u[d] == Best(t, date)
    ensures !Beats(t, table[d]) ==> u[d] == table[d]
    ensures forall e | e in table && e != d :: u[e] == table[e]
  {
    if Beats(t, table[d]) then table[d := Best(t, date)] else table
  }

  /** After an update the stored time for d is at most t: the same time
      never counts as a new record twice, which is the second call made
      when the win screen is shown. */
  lemma {:induction false} RepeatIsNotNew(table: Table, d: Difficulty, t: real, date: string)
    requires d in table
    ensures !Beats(t, Updated(table, d, t, date)[d])
  {
  }

  /** On the fallback table any time is a new record: the first win of a
      difficulty is always stored. */
  lemma {:induction false} FirstWinIsRecord(d: Difficulty, t: real, date: string)
    ensures Beats(t, EmptyTable()[d])
    ensures Updated(EmptyTable(), d, t, date)[d] == Best(t, date)
  {
  }

  /** Updates never make a stored time worse. */
  lemma {:induction false} BestOnlyImproves(table: Table, d: Difficulty, t: real, date: string)
    requires d in table && table[d].Best?
    ensures Updated(table, d, t, date)[d].Best?
    ensures Updated(table, d, t, date)[d].time <= table[d].time
  {
  }
}
