/**
 * The static strategy: the attempt must equal the stored flag, compared in a
 * loop that visits every character pair and never returns early, so that the
 * time taken does not depend on where the first mismatch is.
 */
module StaticFlag {
  import opened Bits
  import opened CaseFold
  import opened Flags

  /** `ord(c)`: the character's code point. */
  function Ord(c: char): nat
  {
    c as int
  }

  /** `ord(x) ^ ord(y)` for one character pair. */
  function PairDiff(x: char, y: char): nat
  {
    Xor(Ord(x), Ord(y))
  }

  /** The accumulator after the loop has or-ed in the first |a| pairs. */
  function Accumulated(a: string, b: string): nat
    requires |a| == |b|
  {
    if |a| == 0 then 0
    else Or(Accumulated(a[..|a| - 1], b[..|b| - 1]), PairDiff(a[|a| - 1], b[|b| - 1]))
  }

  /** The accumulator ends at zero exactly when the two strings are equal. */
  lemma {:induction false} AccumulatedZeroIff(a: string, b: string)
    requires |a| == |b|
    ensures Accumulated(a, b) == 0 <==> a == b
  {
    if |a| > 0 {
      var n := |a| - 1;
      AccumulatedZeroIff(a[..n], b[..n]);
      OrZeroIff(Accumulated(a[..n], b[..n]), PairDiff(a[n], b[n]));
      XorZeroIff(Ord(a[n]), Ord(b[n]));
      assert a == a[..n] + [a[n]] && b == b[..n] + [b[n]];
    }
  }

  /** Once the accumulator is nonzero, no later pair can bring it back to zero. */
  lemma {:induction false} AccumulatedSticky(a: string, b: string, i: nat, j: nat)
    requires |a| == |b| && i <= j <= |a|
    requires Accumulated(a[..i], b[..i]) != 0
    ensures Accumulated(a[..j], b[..j]) != 0
    decreases j - i
  {
    if i < j {
      assert a[..i + 1][..i] == a[..i] && b[..i + 1][..i] == b[..i];
      OrSticky(Accumulated(a[..i], b[..i]), PairDiff(a[i], b[i]));
      AccumulatedSticky(a, b, i + 1, j);
    }
  }

  /** The indices 0, 1, ..., n - 1 in order. */
  function Indices(n: nat): (r: seq<nat>)
    ensures |r| == n && forall k :: 0 <= k < n ==> r[k] == k
  {
    seq(n, k => k)
  }

  /**
   * The loop `for x, y in zip(a, b): result |= ord(x) ^ ord(y)` followed by
   * `result == 0`, for strings already known to have the same length.
   * `visited` records the index of every pair the loop body handled.
   */
  method AccumulateEqual(a: string, b: string) returns (equal: bool, ghost visited: seq<nat>)
    requires |a| == |b|
    ensures equal <==> a == b
    ensures visited == Indices(|a|)
  {
    var result: nat := 0;
    visited := [];
    var i := 0;
    while i < |a|
      invariant 0 <= i <= |a|
      invariant result == Accumulated(a[..i], b[..i])
      invariant visited == Indices(i)
    {
      assert a[..i + 1][..i] == a[..i] && b[..i + 1][..i] == b[..i];
      result := Or(result, PairDiff(a[i], b[i]));
      visited := visited + [i];
      i := i + 1;
    }
    assert a[..i] == a && b[..i] == b;
    AccumulatedZeroIff(a, b);
    equal := result == 0;
  }

  /**
   * What a static comparison is meant to decide: the lengths agree, and the
   * strings are equal, after lowering both when the mode is case-insensitive.
   */
  predicate ExpectedMatch(flag: FlagRecord, provided: string)
  {
    |flag.content| == |provided| &&
    if IsCaseInsensitive(flag) then Lower(flag.content) == Lower(provided)
    else flag.content == provided
  }

  /** In exact mode the comparison is plain string equality. */
  lemma ExactModeIsEquality(flag: FlagRecord, provided: string)
    requires !IsCaseInsensitive(flag)
    ensures ExpectedMatch(flag, provided) <==> flag.content == provided
  {
  }

  /**
   * In case-insensitive mode the comparison accepts exactly the attempts that
   * differ from the stored flag only in the case of ASCII letters.
   */
  lemma CaseInsensitiveModeIsSameUpToCase(flag: FlagRecord, provided: string)
    requires IsCaseInsensitive(flag)
    ensures ExpectedMatch(flag, provided) <==> SameUpToCase(flag.content, provided)
  {
    SameUpToCaseIff(flag.content, provided);
  }

  /** Attempts of a different length are rejected in either mode. */
  lemma LengthMismatchRejected(flag: FlagRecord, provided: string)
    requires |flag.content| != |provided|
    ensures !ExpectedMatch(flag, provided)
  {
  }

  /** In case-insensitive mode the upper-cased flag is always accepted. */
  lemma UpperCasedAttemptAccepted(flag: FlagRecord)
    requires IsCaseInsensitive(flag)
    ensures ExpectedMatch(flag, Upper(flag.content))
  {
    UpperAt(flag.content);
    LowerOfUpper(flag.content);
  }

  /**
   * The record `CTF{abc}`: in exact mode `ctf{abc}` is rejected, in
   * case-insensitive mode it is accepted.
   */
  lemma CaseModeExample()
    ensures !ExpectedMatch(FlagRecord("CTF{abc}", ""), "ctf{abc}")
    ensures ExpectedMatch(FlagRecord("CTF{abc}", CaseInsensitiveMode), "ctf{abc}")
  {
    var exact := FlagRecord("CTF{abc}", "");
    assert exact.content[0] != "ctf{abc}"[0];
    CaseInsensitiveModeIsSameUpToCase(FlagRecord("CTF{abc}", CaseInsensitiveMode), "ctf{abc}");
    var a, b := "CTF{abc}", "ctf{abc}";
    assert forall i :: 0 <= i < |a| ==> a[i] == b[i] || UpperChar(a[i]) == b[i] || a[i] == UpperChar(b[i]);
  }

  /**
   * `CTFdStaticFlag.compare`: reject on a length mismatch, otherwise run the
   * accumulating loop over the (lowered, in case-insensitive mode) strings.
   * When the lengths agree, `visited` is every index: the loop has no early exit.
   */
  method Compare(flag: FlagRecord, provided: string) returns (matched: bool, ghost visited: seq<nat>)
    ensures matched == ExpectedMatch(flag, provided)
    ensures |flag.content| != |provided| ==> !matched && visited == []
    ensures |flag.content| == |provided| ==> visited == Indices(|provided|)
  {
    var saved := flag.content;
    if |saved| != |provided| {
      return false, [];
    }
    if IsCaseInsensitive(flag) {
      LowerAt(saved);
      LowerAt(provided);
      matched, visited := AccumulateEqual(Lower(saved), Lower(provided));
    } else {
      matched, visited := AccumulateEqual(saved, provided);
    }
  }
}
