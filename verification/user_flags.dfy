/**
 * The `UserFlags` table: one row per issued per-user flag. Rows are only ever
 * appended; nothing checks whether a row for the same user and challenge
 * already exists.
 */
module UserFlagStore {
  import opened Wrappers

  datatype Row = Row(userId: int, challengeId: int, flag: string)

  predicate RowFor(row: Row, userId: int, challengeId: int)
  {
    row.userId == userId && row.challengeId == challengeId
  }

  /** `i` is the first row of the table that belongs to the user and challenge. */
  predicate IsFirstRowFor(rows: seq<Row>, userId: int, challengeId: int, i: int)
  {
    0 <= i < |rows| && RowFor(rows[i], userId, challengeId) &&
    forall j :: 0 <= j < i ==> !RowFor(rows[j], userId, challengeId)
  }

  /**
   * `get_user_flag`: the flag of the first row for the user and challenge,
   * or `None` when the table holds no such row.
   */
  function GetUserFlag(rows: seq<Row>, userId: int, challengeId: int): (r: Option<string>)
    ensures r.None? <==> forall i :: 0 <= i < |rows| ==> !RowFor(rows[i], userId, challengeId)
    ensures r.Some? ==> exists i :: IsFirstRowFor(rows, userId, challengeId, i) && rows[i].flag == r.value
  {
    if rows == [] then None
    else if RowFor(rows[0], userId, challengeId) then
      assert IsFirstRowFor(rows, userId, challengeId, 0);
      Some(rows[0].flag)
    else
      var r := GetUserFlag(rows[1..], userId, challengeId);
      if r.Some? then
        var i :| IsFirstRowFor(rows[1..], userId, challengeId, i) && rows[1..][i].flag == r.value;
        assert IsFirstRowFor(rows, userId, challengeId, i + 1);
        r
      else
        r
  }

  /** The number of rows for the user and challenge. */
  function CountRowsFor(rows: seq<Row>, userId: int, challengeId: int): nat
  {
    if rows == [] then 0
    else (if RowFor(rows[0], userId, challengeId) then 1 else 0) + CountRowsFor(rows[1..], userId, challengeId)
  }

  lemma {:induction false} CountRowsForAppend(rows: seq<Row>, row: Row, userId: int, challengeId: int)
    ensures CountRowsFor(rows + [row], userId, challengeId)
         == CountRowsFor(rows, userId, challengeId) + (if RowFor(row, userId, challengeId) then 1 else 0)
  {
    if rows != [] {
      assert (rows + [row])[1..] == rows[1..] + [row];
      CountRowsForAppend(rows[1..], row, userId, challengeId);
    }
  }

  /**
   * Appending a row changes a lookup only when the table had no row for that
   * user and challenge; otherwise the earlier row keeps winning.
   */
  lemma {:induction false} GetUserFlagAfterAppend(rows: seq<Row>, row: Row, userId: int, challengeId: int)
    ensures GetUserFlag(rows + [row], userId, challengeId)
         == if GetUserFlag(rows, userId, challengeId).None? && RowFor(row, userId, challengeId)
            then Some(row.flag)
            else GetUserFlag(rows, userId, challengeId)
  {
    if rows != [] {
      assert (rows + [row])[1..] == rows[1..] + [row];
      GetUserFlagAfterAppend(rows[1..], row, userId, challengeId);
    }
  }

  /** The table, held as the sequence of its rows in insertion order. */
  class UserFlags {
    var rows: seq<Row>

    constructor ()
      ensures rows == []
    {
      rows := [];
    }

    /** `save_user_flag`: add one row, unconditionally. */
    method SaveUserFlag(userId: int, challengeId: int, flag: string)
      modifies this
      ensures rows == old(rows) + [Row(userId, challengeId, flag)]
      ensures CountRowsFor(rows, userId, challengeId) == CountRowsFor(old(rows), userId, challengeId) + 1
      ensures GetUserFlag(rows, userId, challengeId)
           == if old(GetUserFlag(rows, userId, challengeId)).None? then Some(flag)
              else old(GetUserFlag(rows, userId, challengeId))
    {
      CountRowsForAppend(rows, Row(userId, challengeId, flag), userId, challengeId);
      GetUserFlagAfterAppend(rows, Row(userId, challengeId, flag), userId, challengeId);
      rows := rows + [Row(userId, challengeId, flag)];
    }
  }
}
