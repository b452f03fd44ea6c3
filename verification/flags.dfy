/** The values every flag strategy works on. */
module Flags {

  /**
   * A challenge's stored flag: `content` is the secret (or the pattern, for the
   * regex strategy) and `data` holds the mode string the administrator chose.
   */
  datatype FlagRecord = FlagRecord(content: string, data: string)

  /** The exception a strategy raises when its stored configuration is unusable. */
  datatype FlagException = FlagException(message: string)

  /** The only `data` value that switches a strategy to case-insensitive matching. */
  const CaseInsensitiveMode: string := "case_insensitive"

  predicate IsCaseInsensitive(flag: FlagRecord)
  {
    flag.data == CaseInsensitiveMode
  }
}
