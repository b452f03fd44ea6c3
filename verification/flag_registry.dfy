/**
 * `FLAG_CLASSES`: the fixed table from a strategy's identifier to the strategy,
 * and the lookup that refuses unknown identifiers.
 */
module FlagRegistry {
  import opened Wrappers
  import opened Flags
  import StaticFlag
  import RegexFlag
  import DynamicFlag

  datatype FlagClass = Static | Regex | Dynamic
  {
    /** The class attribute `name` of each strategy. */
    function Name(): string
    {
      match this
      case Static => "static"
      case Regex => "regex"
      case Dynamic => "dynamic"
    }
  }

  /** The bare `KeyError` raised for an unknown identifier. */
  datatype KeyError = KeyError

  const FlagClasses: map<string, FlagClass> :=
    map["static" := Static, "regex" := Regex, "dynamic" := Dynamic]

  /** `get_flag_class`: the registered strategy, or `KeyError`; there is no default strategy. */
  function GetFlagClass(classId: string): (r: Result<FlagClass, KeyError>)
    ensures r.Success? <==> classId == "static" || classId == "regex" || classId == "dynamic"
    ensures r.Success? ==> r.value.Name() == classId
    ensures r.Failure? ==> r.error == KeyError
  {
    if classId in FlagClasses then Success(FlagClasses[classId]) else Failure(KeyError)
  }

  /** Every strategy is registered under its own name. */
  lemma GetFlagClassOfName(cls: FlagClass)
    ensures GetFlagClass(cls.Name()) == Success(cls)
  {
  }

  /**
   * Calling `compare` on the class found in the registry: the static and dynamic
   * strategies run the constant-time comparison, the regex strategy consults
   * the engine and may raise.
   */
  method Compare(cls: FlagClass, flag: FlagRecord, provided: string, reMatch: RegexFlag.Matcher)
    returns (r: Result<bool, FlagException>)
    ensures cls == Regex ==> r == RegexFlag.Compare(flag, provided, reMatch)
    ensures cls != Regex ==> r == Success(StaticFlag.ExpectedMatch(flag, provided))
  {
    match cls
    case Static =>
      var matched, _ := StaticFlag.Compare(flag, provided);
      r := Success(matched);
    case Regex =>
      r := RegexFlag.Compare(flag, provided, reMatch);
    case Dynamic =>
      var matched, _ := DynamicFlag.Compare(flag, provided);
      r := Success(matched);
  }
}
