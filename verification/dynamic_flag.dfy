/**
 * The dynamic strategy: a flag per user and challenge, issued by
 * `generate_flag` and stored in the `UserFlags` table, and compared with the
 * same accumulating loop as the static strategy.
 */
module DynamicFlag {
  import opened Wrappers
  import opened Decimal
  import opened CaseFold
  import opened Flags
  import opened UserFlagStore
  import StaticFlag

  /**
   * The f-string `flag{<user_id>-<challenge_id>-<uuid>}`. The random uuid is
   * not drawn here: it is the `token` argument.
   */
  function FormatFlag(userId: int, challengeId: int, token: string): string
  {
    "flag{" + IntToString(userId) + "-" + IntToString(challengeId) + "-" + token + "}"
  }

  /** Reads one `<id>-` field from the front of `s`: the id and what follows the dash. */
  function TakeField(s: string): Option<(int, string)>
  {
    match TakeInt(s)
    case None => None
    case Some((n, rest)) =>
      if |rest| == 0 || rest[0] != '-' then None else Some((n, rest[1..]))
  }

  lemma TakeFieldOf(n: int, rest: string)
    ensures TakeField(IntToString(n) + "-" + rest) == Some((n, rest))
  {
    TakeIntOfString(n, "-" + rest);
    assert IntToString(n) + "-" + rest == IntToString(n) + ("-" + rest);
    assert ("-" + rest)[1..] == rest;
  }

  /** Reads `<user>-<challenge>-<token>` from the text between the braces. */
  function DecodeBody(body: string): Option<(int, int, string)>
  {
    match TakeField(body)
    case None => None
    case Some((userId, rest)) =>
      match TakeField(rest)
      case None => None
      case Some((challengeId, token)) => Some((userId, challengeId, token))
  }

  /** Reads the user id, challenge id and token back out of an issued flag. */
  function DecodeFlag(f: string): Option<(int, int, string)>
  {
    if |f| < 6 || f[..5] != "flag{" || f[|f| - 1] != '}' then None
    else DecodeBody(f[5..|f| - 1])
  }

  lemma DecodeWrapped(body: string)
    ensures DecodeFlag("flag{" + body + "}") == DecodeBody(body)
  {
    var f := "flag{" + body + "}";
    assert f[..5] == "flag{";
    assert f[5..|f| - 1] == body;
  }

  lemma FormatFlagShape(userId: int, challengeId: int, token: string)
    ensures FormatFlag(userId, challengeId, token)
         == "flag{" + (IntToString(userId) + "-" + (IntToString(challengeId) + "-" + token)) + "}"
  {
  }

  /** An issued flag names its user, its challenge and its token: decoding recovers all three. */
  lemma DecodeFormatFlag(userId: int, challengeId: int, token: string)
    ensures DecodeFlag(FormatFlag(userId, challengeId, token)) == Some((userId, challengeId, token))
  {
    var tail := IntToString(challengeId) + "-" + token;
    FormatFlagShape(userId, challengeId, token);
    DecodeWrapped(IntToString(userId) + "-" + tail);
    TakeFieldOf(userId, tail);
    TakeFieldOf(challengeId, token);
  }

  /**
   * Different users, challenges or tokens never yield the same flag, so a flag
   * issued to one user cannot be another user's flag.
   */
  lemma FormatFlagInjective(u1: int, c1: int, t1: string, u2: int, c2: int, t2: string)
    requires FormatFlag(u1, c1, t1) == FormatFlag(u2, c2, t2)
    ensures u1 == u2 && c1 == c2 && t1 == t2
  {
    DecodeFormatFlag(u1, c1, t1);
    DecodeFormatFlag(u2, c2, t2);
  }

  /**
   * `CTFDynamicFlag.generate_flag`: build the flag, append its row with
   * `save_user_flag` and return it. The append happens whether or not the
   * table already has a flag for this user and challenge, in which case the
   * lookup keeps returning the earlier one.
   */
  method GenerateFlag(table: UserFlags, userId: int, challengeId: int, token: string) returns (flag: string)
    modifies table
    ensures DecodeFlag(flag) == Some((userId, challengeId, token))
    ensures flag == FormatFlag(userId, challengeId, token)
    ensures table.rows == old(table.rows) + [Row(userId, challengeId, flag)]
    ensures GetUserFlag(table.rows, userId, challengeId)
         == if old(GetUserFlag(table.rows, userId, challengeId)).None? then Some(flag)
            else old(GetUserFlag(table.rows, userId, challengeId))
  {
    flag := FormatFlag(userId, challengeId, token);
    DecodeFormatFlag(userId, challengeId, token);
    table.SaveUserFlag(userId, challengeId, flag);
  }

  /**
   * Generating twice for the same user and challenge leaves two rows, and the
   * lookup answers with the first flag, not the one generated last.
   */
  lemma RegenerationAddsSecondRow(rows: seq<Row>, userId: int, challengeId: int, t1: string, t2: string)
    requires GetUserFlag(rows, userId, challengeId).None?
    ensures var after := rows + [Row(userId, challengeId, FormatFlag(userId, challengeId, t1))]
                              + [Row(userId, challengeId, FormatFlag(userId, challengeId, t2))];
            CountRowsFor(after, userId, challengeId) == CountRowsFor(rows, userId, challengeId) + 2 &&
            GetUserFlag(after, userId, challengeId) == Some(FormatFlag(userId, challengeId, t1))
  {
    var r1 := Row(userId, challengeId, FormatFlag(userId, challengeId, t1));
    var r2 := Row(userId, challengeId, FormatFlag(userId, challengeId, t2));
    CountRowsForAppend(rows, r1, userId, challengeId);
    CountRowsForAppend(rows + [r1], r2, userId, challengeId);
    GetUserFlagAfterAppend(rows, r1, userId, challengeId);
    GetUserFlagAfterAppend(rows + [r1], r2, userId, challengeId);
  }

  /**
   * `CTFDynamicFlag.compare`: the stored record's content is compared exactly
   * as `CTFdStaticFlag.compare` does, so the two strategies agree on every
   * record and attempt.
   */
  method Compare(flag: FlagRecord, provided: string) returns (matched: bool, ghost visited: seq<nat>)
    ensures matched == StaticFlag.ExpectedMatch(flag, provided)
    ensures |flag.content| != |provided| ==> !matched && visited == []
    ensures |flag.content| == |provided| ==> visited == StaticFlag.Indices(|provided|)
  {
    var saved := flag.content;
    if |saved| != |provided| {
      return false, [];
    }
    if IsCaseInsensitive(flag) {
      LowerAt(saved);
      LowerAt(provided);
      matched, visited := StaticFlag.AccumulateEqual(Lower(saved), Lower(provided));
    } else {
      matched, visited := StaticFlag.AccumulateEqual(saved, provided);
    }
  }
}
