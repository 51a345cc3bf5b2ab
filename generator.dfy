/**
  The candidate generator of the brute-force search: every string of exactly
  `length` lower-case letters, in odometer order ('a' < ... < 'z', most
  significant position first).
*/
module Generator {
  import opened Arith

  // The alphabet is the character codes 97 ('a') to 122 ('z'), 26 letters.
  // The numbers are written as literals so that the solver sees products
  // with a constant factor as linear arithmetic.

  predicate IsLetter(c: char) {
    'a' <= c <= 'z'
  }

  predicate AllLetters(s: string) {
    forall i :: 0 <= i < |s| ==> IsLetter(s[i])
  }

  /** A candidate password: exactly `length` letters from 'a' to 'z'. */
  predicate IsCandidate(length: nat, s: string) {
    |s| == length && AllLetters(s)
  }

  /** JavaScript's `<` on strings: code-unit lexicographic order, a proper prefix first. */
  predicate LexLess(a: string, b: string) {
    |b| > 0 && (|a| == 0 || a[0] < b[0] || (a[0] == b[0] && LexLess(a[1..], b[1..])))
  }

  /**
    What `generatePasswords(length, current)` yields: `current` alone once it
    has `length` characters, otherwise the candidates of each one-letter
    extension of `current`, 'a' first. There are 26 to the number of missing
    letters of them: one level of recursion per position, 26 branches each.
  */
  function Generate(length: nat, current: string): (r: seq<string>)
    requires |current| <= length
    ensures |r| == Pow(26, length - |current|)
    decreases length - |current|, 27
  {
    if |current| == length then [current]
    else
      BlocksIsProduct(26, Pow(26, length - |current| - 1));
      Branches(length, current, 97)
  }

  /** The generator's `for` loop over the character codes from `code` up to 122 ('z'). */
  function Branches(length: nat, current: string, code: int): (r: seq<string>)
    requires |current| < length && 97 <= code <= 123
    ensures |r| == Blocks(123 - code, Pow(26, length - |current| - 1))
    decreases length - |current|, 123 - code
  {
    if code > 122 then []
    else Generate(length, current + [code as char]) + Branches(length, current, code + 1)
  }

  /** The search space of the program: `generatePasswords(length)` with the default `current = ""`. */
  function SearchSpace(length: nat): seq<string> {
    Generate(length, "")
  }

  /** The `k`-letter string whose base-26 value ('a' = 0, most significant first) is `i`. */
  function Encode(k: nat, i: nat): (s: string)
    requires i < Pow(26, k)
    ensures IsCandidate(k, s)
  {
    if k == 0 then []
    else
      var p := Pow(26, k - 1);
      BlocksIsProduct(26, p);
      QuotBelow(i, p, 26);
      QuotRem(i, p);
      [(97 + Quot(i, p)) as char] + Encode(k - 1, Rem(i, p))
  }

  /** The base-26 value of a string of letters, 'a' = 0, most significant first. */
  function Value(s: string): (v: nat)
    requires AllLetters(s)
    ensures v < Pow(26, |s|)
  {
    if s == [] then 0
    else
      var p := Pow(26, |s| - 1);
      var d := s[0] as int - 97;
      BlocksMonotone(d + 1, 26, p);
      BlocksIsProduct(26, p);
      Blocks(d, p) + Value(s[1..])
  }

  /** The leading letter of a string contributes whole blocks of the power below it. */
  lemma ValueStep(s: string)
    requires AllLetters(s) && |s| > 0
    ensures Value(s) == Blocks(s[0] as int - 97, Pow(26, |s| - 1)) + Value(s[1..])
    ensures Value(s[1..]) < Pow(26, |s| - 1)
  {
  }

  /** The encoding of `i` starts with the letter of its leading digit. */
  lemma EncodeStep(k: nat, i: nat)
    requires 0 < k && i < Pow(26, k)
    ensures Quot(i, Pow(26, k - 1)) < 26 && Rem(i, Pow(26, k - 1)) < Pow(26, k - 1)
    ensures Encode(k, i) == [(97 + Quot(i, Pow(26, k - 1))) as char] + Encode(k - 1, Rem(i, Pow(26, k - 1)))
    ensures i == Blocks(Quot(i, Pow(26, k - 1)), Pow(26, k - 1)) + Rem(i, Pow(26, k - 1))
  {
    BlocksIsProduct(26, Pow(26, k - 1));
    QuotBelow(i, Pow(26, k - 1), 26);
    QuotRem(i, Pow(26, k - 1));
  }

  /** Decoding an encoded index gives the index back. */
  lemma {:induction false} ValueOfEncode(k: nat, i: nat)
    requires i < Pow(26, k)
    ensures Value(Encode(k, i)) == i
  {
    if k > 0 {
      var p := Pow(26, k - 1);
      EncodeStep(k, i);
      var e := Encode(k, i);
      assert e[0] as int - 97 == Quot(i, p) && e[1..] == Encode(k - 1, Rem(i, p));
      ValueOfEncode(k - 1, Rem(i, p));
    }
  }

  /** Encoding the value of a string of letters gives the string back. */
  lemma {:induction false} EncodeOfValue(s: string)
    requires AllLetters(s)
    ensures Encode(|s|, Value(s)) == s
  {
    if s != [] {
      var p := Pow(26, |s| - 1);
      var d := s[0] as int - 97;
      QuotRemUnique(Value(s), p, d, Value(s[1..]));
      EncodeStep(|s|, Value(s));
      EncodeOfValue(s[1..]);
    }
  }

  /** Of two strings of letters of one length, the one with the smaller first letter has the smaller value. */
  lemma LeadingLetterDecides(s: string, t: string)
    requires AllLetters(s) && AllLetters(t) && |s| == |t| > 0 && s[0] < t[0]
    ensures Value(s) < Value(t)
  {
    ValueStep(s);
    ValueStep(t);
    BlocksGap(s[0] as int - 97, t[0] as int - 97, Pow(26, |s| - 1));
  }

  /** On candidates of one length, a smaller value means an earlier string. */
  lemma {:induction false} SmallerValueIsLexLess(s: string, t: string)
    requires AllLetters(s) && AllLetters(t) && |s| == |t|
    requires Value(s) < Value(t)
    ensures LexLess(s, t)
  {
    if s[0] > t[0] {
      LeadingLetterDecides(t, s);
      assert false;
    } else if s[0] == t[0] {
      SmallerValueIsLexLess(s[1..], t[1..]);
    }
  }

  /** Element `q` blocks plus `r` of the loop from `code` is element `r` of the `q`-th extension. */
  lemma {:induction false} BranchesAt(length: nat, current: string, code: int, q: nat, r: nat)
    requires |current| < length && 97 <= code <= 122
    requires q <= 122 - code && r < Pow(26, length - |current| - 1)
    ensures Blocks(q, Pow(26, length - |current| - 1)) + r < |Branches(length, current, code)|
    ensures Branches(length, current, code)[Blocks(q, Pow(26, length - |current| - 1)) + r]
         == Generate(length, current + [(code + q) as char])[r]
    decreases q
  {
    var p := Pow(26, length - |current| - 1);
    BlocksMonotone(q + 1, 123 - code, p);
    if q > 0 {
      BranchesAt(length, current, code + 1, q - 1, r);
    }
  }

  /** The generator yields `current + t` at the index given by the base-26 value of the letters `t`. */
  lemma {:induction false} GenerateAtValue(length: nat, current: string, t: string)
    requires |current| + |t| == length && AllLetters(t)
    ensures Value(t) < |Generate(length, current)|
    ensures Generate(length, current)[Value(t)] == current + t
    decreases |t|
  {
    if t != [] {
      var d := t[0] as int - 97;
      BranchesAt(length, current, 97, d, Value(t[1..]));
      assert (97 + d) as char == t[0];
      GenerateAtValue(length, current + [t[0]], t[1..]);
      assert current + [t[0]] + t[1..] == current + t;
    }
  }

  /** Element `i` of `generatePasswords(length, current)` is `current` followed by the encoding of `i`. */
  lemma GenerateAt(length: nat, current: string, i: nat)
    requires |current| <= length && i < Pow(26, length - |current|)
    ensures Generate(length, current)[i] == current + Encode(length - |current|, i)
  {
    ValueOfEncode(length - |current|, i);
    GenerateAtValue(length, current, Encode(length - |current|, i));
  }

  /** Once `current` is full, the generator yields it exactly once and nothing else. */
  lemma FullPrefixYieldsItself(length: nat, current: string)
    requires |current| == length
    ensures Generate(length, current) == [current]
  {
  }

  /** With length 0 the generator yields the empty string alone. */
  lemma EmptyLengthYieldsEmptyString()
    ensures SearchSpace(0) == [""]
  {
  }

  /** Element `i` of the search space is the `length`-letter encoding of `i`. */
  lemma SearchSpaceAt(length: nat, i: nat)
    requires i < |SearchSpace(length)|
    ensures SearchSpace(length)[i] == Encode(length, i)
  {
    GenerateAt(length, "", i);
  }

  /** The search space has `26^length` entries, each a candidate of that length. */
  lemma SearchSpaceWellFormed(length: nat)
    ensures |SearchSpace(length)| == Pow(26, length)
    ensures forall s :: s in SearchSpace(length) ==> IsCandidate(length, s)
  {
    forall s | s in SearchSpace(length) ensures IsCandidate(length, s) {
      var i :| 0 <= i < |SearchSpace(length)| && SearchSpace(length)[i] == s;
      SearchSpaceAt(length, i);
    }
  }

  /**
    Every candidate occurs, at the 0-based index given by its base-26 value:
    its 1-based position is one more than its value ("ba" is 27th).
  */
  lemma SearchSpacePosition(length: nat, s: string)
    requires IsCandidate(length, s)
    ensures Value(s) < |SearchSpace(length)| && SearchSpace(length)[Value(s)] == s
  {
    GenerateAtValue(length, "", s);
  }

  /** Each index holds the candidate whose value is that index. */
  lemma SearchSpaceIndexIsValue(length: nat, i: nat)
    requires i < |SearchSpace(length)|
    ensures IsCandidate(length, SearchSpace(length)[i]) && Value(SearchSpace(length)[i]) == i
  {
    SearchSpaceAt(length, i);
    ValueOfEncode(length, i);
  }

  /** The search space is strictly increasing in string order, hence free of repeats. */
  lemma SearchSpaceStrictlyIncreasing(length: nat)
    ensures forall i, j :: 0 <= i < j < |SearchSpace(length)| ==>
      LexLess(SearchSpace(length)[i], SearchSpace(length)[j]) && SearchSpace(length)[i] != SearchSpace(length)[j]
  {
    var space := SearchSpace(length);
    forall i, j | 0 <= i < j < |space| ensures LexLess(space[i], space[j]) && space[i] != space[j] {
      SearchSpaceIndexIsValue(length, i);
      SearchSpaceIndexIsValue(length, j);
      SmallerValueIsLexLess(space[i], space[j]);
    }
  }

  /** The worked ordering example: "aa" is first, "az" 26th, "ba" 27th, "zz" last of 676. */
  lemma TwoLetterPositions()
    ensures |SearchSpace(2)| == 676
    ensures SearchSpace(2)[0] == "aa" && SearchSpace(2)[25] == "az"
    ensures SearchSpace(2)[26] == "ba" && SearchSpace(2)[675] == "zz"
  {
    SearchSpacePosition(2, "aa");
    SearchSpacePosition(2, "az");
    SearchSpacePosition(2, "ba");
    SearchSpacePosition(2, "zz");
  }
}
