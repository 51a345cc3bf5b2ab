/**
  The input checks in front of the search: exactly two command-line
  arguments, a positive password length, and a target that is 64
  hexadecimal digits in either case, lower-cased before use.
*/
module Validation {
  import opened Wrappers

  /** Why the program refuses to start; each is an error message and exit code 1. */
  datatype InputError = Usage | BadLength | BadHashFormat

  /** The validated inputs of one search. */
  datatype SearchSpec = SearchSpec(length: nat, target: string)

  predicate IsHexDigit(c: char) {
    '0' <= c <= '9' || 'a' <= c <= 'f'
  }

  /** The character class `[a-f0-9]` under the `i` flag: 'A' to 'F' match too. */
  predicate IsHexDigitAnyCase(c: char) {
    IsHexDigit(c) || 'A' <= c <= 'F'
  }

  /** A SHA-256 digest as `digest("hex")` writes it: 64 lower-case hexadecimal digits. */
  predicate IsDigest(s: string) {
    |s| == 64 && forall i :: 0 <= i < |s| ==> IsHexDigit(s[i])
  }

  /** The test `/^[a-f0-9]{64}$/i`: exactly 64 hexadecimal digits of either case. */
  predicate MatchesDigestPattern(s: string) {
    |s| == 64 && forall i :: 0 <= i < |s| ==> IsHexDigitAnyCase(s[i])
  }

  /** `toLowerCase` on one character: 'A' to 'Z' become 'a' to 'z'. */
  function LowerChar(c: char): char {
    if 'A' <= c <= 'Z' then (c as int + 32) as char else c
  }

  function ToLower(s: string): string {
    seq(|s|, i requires 0 <= i < |s| => LowerChar(s[i]))
  }

  /** Equal up to the case of letters. */
  predicate SameIgnoringCase(a: string, b: string) {
    |a| == |b| && forall i :: 0 <= i < |a| ==> LowerChar(a[i]) == LowerChar(b[i])
  }

  /**
    The length check: `parseInt` gives NaN (`None`) or a finite integer
    (`Some`), and anything but a positive integer is refused. The
    `Infinity` that `parseInt` gives for very long digit strings is not
    representable here.
  */
  function CheckLength(parsed: Option<int>): (r: Result<nat, InputError>)
    ensures r.Ok? <==> parsed.Some? && parsed.value > 0
    ensures r.Ok? ==> r.value == parsed.value
    ensures r.Err? ==> r.error == BadLength
  {
    match parsed
    case None => Err(BadLength)
    case Some(n) => if n <= 0 then Err(BadLength) else Ok(n)
  }

  /**
    The target check: the argument is lower-cased and must then be 64
    hexadecimal digits. Accepted are exactly the arguments of 64 hexadecimal
    digits in any mix of case, and what is kept is the same digest in lower case.
  */
  function CheckTarget(raw: string): (r: Result<string, InputError>)
    ensures r.Ok? <==> MatchesDigestPattern(raw)
    ensures r.Ok? ==> IsDigest(r.value) && SameIgnoringCase(r.value, raw)
    ensures r.Err? ==> r.error == BadHashFormat
  {
    var target := ToLower(raw);
    assert forall i :: 0 <= i < |raw| ==> (IsHexDigitAnyCase(raw[i]) <==> IsHexDigitAnyCase(target[i]));
    if MatchesDigestPattern(target) then Ok(target) else Err(BadHashFormat)
  }

  /**
    Because the target is lower-cased, a digest (always lower case) matches
    it exactly when it equals the argument as given up to case.
  */
  lemma TargetMatchIgnoresCase(raw: string, digest: string)
    requires MatchesDigestPattern(raw) && IsDigest(digest)
    ensures CheckTarget(raw).value == digest <==> SameIgnoringCase(raw, digest)
  {
    var target := CheckTarget(raw).value;
    if SameIgnoringCase(raw, digest) {
      forall i | 0 <= i < 64 ensures target[i] == digest[i] {
        assert LowerChar(digest[i]) == digest[i];
      }
    }
  }

  /**
    The checks in program order: argument count, then length, then target;
    the first that fails decides the error.
  */
  function Validate(args: seq<string>, parseInt: string -> Option<int>): (r: Result<SearchSpec, InputError>)
    ensures r.Ok? <==>
      |args| == 2 && parseInt(args[0]).Some? && parseInt(args[0]).value > 0 && MatchesDigestPattern(args[1])
    ensures r.Ok? ==>
      && r.value.length == parseInt(args[0]).value && r.value.length > 0
      && IsDigest(r.value.target) && SameIgnoringCase(r.value.target, args[1])
    ensures |args| != 2 ==> r == Err(Usage)
    ensures |args| == 2 && !(parseInt(args[0]).Some? && parseInt(args[0]).value > 0) ==> r == Err(BadLength)
    ensures |args| == 2 && parseInt(args[0]).Some? && parseInt(args[0]).value > 0 && !MatchesDigestPattern(args[1])
      ==> r == Err(BadHashFormat)
  {
    if |args| != 2 then Err(Usage)
    else
      match CheckLength(parseInt(args[0]))
      case Err(e) => Err(e)
      case Ok(length) =>
        match CheckTarget(args[1])
        case Err(e) => Err(e)
        case Ok(target) => Ok(SearchSpec(length, target))
  }
}
