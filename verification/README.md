# CTFd flag checking, modelled in Dafny

This project models the flag plugin of CTFd (`CTFd/plugins/flags/__init__.py`):
how a submitted attempt is checked against a challenge's stored flag under the
`static`, `regex` and `dynamic` strategies, how the strategy is looked up by its
identifier, and how the dynamic strategy issues per-user flags into the
`UserFlags` table.

Modules, one per part of the plugin:

- `Flags` (`flags.dfy`): the stored flag record (`content`, and `data`, the mode string) and `FlagException`.
- `Bits` (`bits.dfy`): Python's `|` and `^` on unbounded non-negative integers, defined bit by bit.
- `CaseFold` (`casefold.dfy`): `str.lower()` for ASCII letters, one character at a time.
- `StaticFlag` (`static_flag.dfy`): the length check and the accumulating loop of `CTFdStaticFlag.compare`, proved against a reference predicate `ExpectedMatch`. A ghost `visited` trace shows that the loop handles every index, with no early return.
- `RegexFlag` (`regex_flag.dfy`): `CTFdRegexFlag.compare` over a regular-expression engine passed in as a function.
- `UserFlagStore` (`user_flags.dfy`): the `UserFlags` rows, `save_user_flag` as an append on a class holding `seq<Row>`, and `get_user_flag` as a first-match function.
- `Decimal` (`decimal.dfy`): `str(n)` for the ids in the generated flag, and reading an id back.
- `DynamicFlag` (`dynamic_flag.dfy`): `generate_flag`, a decoder that shows a flag determines its user, challenge and token, and `CTFDynamicFlag.compare`.
- `FlagRegistry` (`flag_registry.dfy`): `FLAG_CLASSES`, `get_flag_class` and the call of `compare` on the class it returns.
- `Wrappers` (`wrappers.dfy`): `Option` for `None` and `Result` for raised exceptions.

Where the code and the design description of the system disagree, the model follows the code:

- The design asks for idempotent issuance of per-user flags, at most one per user and challenge. `generate_flag` appends a row unconditionally. `DynamicFlag.RegenerationAddsSecondRow` proves that a second generation adds a second row and that `get_user_flag` keeps returning the first flag.
- The design asks the dynamic comparison to consult the table. The code's `CTFDynamicFlag.compare` compares the record's `content` exactly as the static strategy does. The version that reads the table is commented out in the code and is not modelled.
- The design names the unknown-strategy error after its identifier. `get_flag_class` raises a bare `KeyError` that carries nothing, and `FlagRegistry.KeyError` carries nothing either.

## Model

| member | source | states |
|---|---|---|
| `StaticFlag.Compare` | CTFd/plugins/flags/__init__.py:34-49 | The result equals `ExpectedMatch`: a length mismatch gives false; otherwise the answer is equality, of the lowered strings in case-insensitive mode. When the lengths agree, the ghost trace is every index 0..n-1 in order, so there is no early exit. |
| `StaticFlag.AccumulateEqual` | CTFd/plugins/flags/__init__.py:41-49 | The `result \|= ord(x) ^ ord(y)` loop over equal-length strings ends with `result == 0` exactly when the strings are equal. It visits every index. |
| `StaticFlag.AccumulatedZeroIff` | CTFd/plugins/flags/__init__.py:41-49 | The or-accumulated xor of all pairs is zero iff the two strings are equal. |
| `StaticFlag.AccumulatedSticky` | CTFd/plugins/flags/__init__.py:44-48 | Once the accumulator is nonzero after some prefix, it stays nonzero for every longer prefix. |
| `StaticFlag.ExactModeIsEquality` | CTFd/plugins/flags/__init__.py:46-49 | In exact mode the comparison accepts exactly the attempt equal to the stored flag. |
| `StaticFlag.CaseInsensitiveModeIsSameUpToCase` | CTFd/plugins/flags/__init__.py:43-49 | In case-insensitive mode the comparison accepts exactly the attempts that differ from the flag only in ASCII letter case. |
| `StaticFlag.LengthMismatchRejected` | CTFd/plugins/flags/__init__.py:39-40 | An attempt whose length differs from the flag's is rejected in either mode, whatever its content. |
| `StaticFlag.UpperCasedAttemptAccepted` | CTFd/plugins/flags/__init__.py:43-45 | In case-insensitive mode the upper-cased flag is accepted. |
| `StaticFlag.CaseModeExample` | CTFd/plugins/flags/__init__.py:43-49 | `CTF{abc}` against `ctf{abc}` is rejected in exact mode and accepted in case-insensitive mode. |
| `Bits.XorZeroIff` | CTFd/plugins/flags/__init__.py:45 | `a ^ b` is zero iff `a == b`. |
| `Bits.OrZeroIff` | CTFd/plugins/flags/__init__.py:48 | `a \| b` is zero iff both operands are zero. |
| `Bits.OrSticky` | CTFd/plugins/flags/__init__.py:48 | Or-ing into a nonzero accumulator keeps it nonzero. |
| `CaseFold.LowerAt` | CTFd/plugins/flags/__init__.py:44 | Lowering keeps the length and lowers each position independently, so `zip` pairs the characters of the originals. |
| `CaseFold.SameUpToCaseIff` | CTFd/plugins/flags/__init__.py:44 | Two lowered strings are equal iff the originals differ only in ASCII letter case. |
| `RegexFlag.Compare` | CTFd/plugins/flags/__init__.py:59-73 | A pattern parse error raises `FlagException("Regex parse error occured")` and is never a false result. Otherwise the result is true iff the engine, given `re.IGNORECASE` exactly in `case_insensitive` mode, matched and the matched text is the whole attempt. |
| `RegexFlag.AcceptedIffMatchSpansAttempt` | CTFd/plugins/flags/__init__.py:73 | With an engine that anchors at the start, the result is true iff the match is as long as the attempt. A match of a proper prefix gives false. |
| `UserFlagStore.GetUserFlag` | CTFd/plugins/flags/__init__.py:93-95 | Returns `None` iff no row has the user and challenge. Otherwise it returns the flag of the first such row. |
| `UserFlagStore.GetUserFlagAfterAppend` | CTFd/plugins/flags/__init__.py:88-95 | Appending a row changes a lookup only when the table had no row for that user and challenge and the new row is for them. |
| `UserFlagStore.CountRowsForAppend` | CTFd/plugins/flags/__init__.py:88-91 | Appending a row for a user and challenge raises that pair's row count by exactly one. |
| `UserFlagStore.UserFlags.SaveUserFlag` | CTFd/plugins/flags/__init__.py:88-91 | Appends exactly the row `(user, challenge, flag)` and keeps the earlier rows. It does not check whether the pair already has a row. |
| `DynamicFlag.GenerateFlag` | CTFd/plugins/flags/__init__.py:106-110 | Returns `flag{<user>-<challenge>-<token>}`, which decodes back to its user, challenge and token. It appends one row holding that flag. The lookup for the pair gives this flag only if the pair had no earlier row. |
| `DynamicFlag.DecodeFormatFlag` | CTFd/plugins/flags/__init__.py:108 | Decoding a generated flag gives back its user id, challenge id and token. |
| `DynamicFlag.FormatFlagInjective` | CTFd/plugins/flags/__init__.py:108 | Two generated flags are equal only when user, challenge and token are all equal. |
| `DynamicFlag.RegenerationAddsSecondRow` | CTFd/plugins/flags/__init__.py:88-110 | Generating twice for a pair with no row leaves two rows for it. The lookup returns the first flag. |
| `DynamicFlag.Compare` | CTFd/plugins/flags/__init__.py:118-133 | Gives the same result as `StaticFlag.Compare` on every record and attempt (both equal `ExpectedMatch`), with the same full-length trace. |
| `Decimal.TakeIntOfString` | CTFd/plugins/flags/__init__.py:108 | `str(n)` followed by a dash reads back as `n`, for negative `n` too. |
| `FlagRegistry.GetFlagClass` | CTFd/plugins/flags/__init__.py:136-143 | Succeeds iff the identifier is `static`, `regex` or `dynamic`, with the strategy of that name. Any other identifier gives `KeyError` and never a default strategy. |
| `FlagRegistry.GetFlagClassOfName` | CTFd/plugins/flags/__init__.py:136 | Every strategy is registered under its own `name`. |
| `FlagRegistry.Compare` | CTFd/plugins/flags/__init__.py:136 | `compare` on a registered class: regex goes to the engine-based comparison, and static and dynamic go to the constant-time comparison. |

## Left out

- `BaseFlag.compare` (lines 22-24) always returns true, and no registered strategy uses it.
- `get_current_user_id`, `get_challenge_id` and `load` (lines 145-153) read the web session or register assets. User and challenge ids are parameters here.
- The `templates` dictionaries are paths of UI templates.
- Python's `re` engine and `re.IGNORECASE` are not modelled. The engine is a function parameter `(pattern, text, ignoreCase) -> ParseError | NoMatch | Matched(group)`.
- `uuid.uuid4()` is not modelled. Its text is the `token` parameter of `GenerateFlag`, and the model says nothing about its randomness or uniqueness.
- The database is an in-memory sequence of rows in insertion order. Left out: `db.session.add`/`commit`, the auto-increment `id` column and the `String(64)` width of `flag`. `.first()` without an ordering is taken to return the earliest inserted row.
- There is no concurrency. Two requests that generate at the same time behave like two generations in sequence, which the code also does not guard.
- The commented-out `compare` at lines 112-117 is not live code.
- `CaseFold.LowerAt`: only ASCII `A`-`Z` are lowered. Python's `str.lower()` covers all of Unicode and can change a string's length; with such characters `zip` would stop at the shorter lowered string.
- `RegexFlag.Compare`: `res and ...` returns `None` when nothing matches; the model returns false, which callers treat the same way.
- Strings are sequences of Unicode scalar values. Python strings may also hold lone surrogates.
- `userFlag_challenges/__init__.py` is not part of this model. It is challenge-type registration, ORM reads and writes, and request handling.
