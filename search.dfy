/**
  The search driver of `crackPassword`: walk the candidates in generation
  order, count each attempt, hash it, write a progress line every 100000
  attempts and stop at the first candidate whose digest equals the target.
  The SHA-256 digest is the parameter `hash`; the clock and the console are
  not modelled, the progress lines are returned instead of written.
*/
module Search {
  import opened Arith
  import opened Generator

  /** One progress line: the attempt count and the candidate just tried. */
  datatype ProgressLine = ProgressLine(attempts: nat, current: string)

  /** The terminal report: the matching password with its digest, or exhaustion; both with the attempt count. */
  datatype Report =
    | Found(password: string, digest: string, attempts: nat)
    | NotFound(attempts: nat)

  /** Progress is written after the attempts whose count is a multiple of 100000. */
  predicate IsProgressPoint(attempts: nat) {
    attempts % 100000 == 0
  }

  /**
    The progress lines written during the first `count` attempts over `space`:
    the `j`-th (from 0) is written at attempt `(j + 1) * 100000`, with the
    candidate tried at that attempt, and there are `count / 100000` of them.
  */
  function ProgressLines(space: seq<string>, count: nat): (r: seq<ProgressLine>)
    requires count <= |space|
    ensures |r| == count / 100000
    ensures forall j :: 0 <= j < |r| ==>
      r[j] == ProgressLine((j + 1) * 100000, space[(j + 1) * 100000 - 1])
  {
    if count == 0 then []
    else
      ProgressLines(space, count - 1)
      + (if IsProgressPoint(count) then [ProgressLine(count, space[count - 1])] else [])
  }

  /** A progress line is written at attempt `k` exactly when `k` is a multiple of 100000, and at no other count. */
  lemma ProgressOnlyAtMultiples(space: seq<string>, count: nat)
    requires count <= |space|
    ensures forall e :: e in ProgressLines(space, count) ==>
      1 <= e.attempts <= count && IsProgressPoint(e.attempts) && e.current == space[e.attempts - 1]
    ensures forall k :: 1 <= k <= count ==>
      (ProgressLine(k, space[k - 1]) in ProgressLines(space, count) <==> IsProgressPoint(k))
  {
    var r := ProgressLines(space, count);
    forall k | 1 <= k <= count && IsProgressPoint(k)
      ensures ProgressLine(k, space[k - 1]) in r
    {
      assert r[k / 100000 - 1] == ProgressLine(k, space[k - 1]);
    }
  }

  /**
    `crackPassword` for a validated length and lower-case target: the report
    names the first candidate in generation order whose digest is `target`,
    with the attempt count equal to its 1-based position (one more than its
    base-26 value); when no candidate matches, all `26^length` were tried.
  */
  method CrackPassword(length: nat, target: string, hash: string -> string)
    returns (report: Report, progress: seq<ProgressLine>)
    ensures report.Found? <==> exists c :: c in SearchSpace(length) && hash(c) == target
    ensures report.Found? ==>
      && 1 <= report.attempts <= Pow(26, length)
      && report.password == SearchSpace(length)[report.attempts - 1]
      && report.digest == target && hash(report.password) == target
      && (forall j :: 0 <= j < report.attempts - 1 ==> hash(SearchSpace(length)[j]) != target)
    ensures report.Found? ==>
      IsCandidate(length, report.password) && report.attempts == Value(report.password) + 1
    ensures report.NotFound? ==> report.attempts == Pow(26, length)
    ensures progress == ProgressLines(SearchSpace(length), report.attempts)
  {
    var space := SearchSpace(length);
    var attempts := 0;
    var found := false;
    report := NotFound(0);
    progress := [];
    while attempts < |space|
      invariant 0 <= attempts <= |space| && !found
      invariant forall j :: 0 <= j < attempts ==> hash(space[j]) != target
      invariant progress == ProgressLines(space, attempts)
    {
      var password := space[attempts];
      attempts := attempts + 1;
      var digest := hash(password);
      if IsProgressPoint(attempts) {
        progress := progress + [ProgressLine(attempts, password)];
      }
      if digest == target {
        SearchSpaceIndexIsValue(length, attempts - 1);
        report := Found(password, digest, attempts);
        found := true;
        break;
      }
    }
    if !found {
      report := NotFound(attempts);
    }
  }

  /** One letter, target the digest of "a": found at once, after one attempt. */
  method FirstCandidateMatches(hash: string -> string) returns (report: Report)
    ensures report == Found("a", hash("a"), 1)
  {
    SearchSpacePosition(1, "a");
    var lines;
    report, lines := CrackPassword(1, hash("a"), hash);
  }

  /**
    Two letters, target the digest of "ba", which no earlier candidate shares:
    found after 27 attempts ("aa" to "az" come first).
  */
  method TwentySeventhCandidateMatches(hash: string -> string) returns (report: Report)
    requires forall c :: IsCandidate(2, c) && LexLess(c, "ba") ==> hash(c) != hash("ba")
    ensures report == Found("ba", hash("ba"), 27)
  {
    SearchSpacePosition(2, "ba");
    SearchSpaceStrictlyIncreasing(2);
    SearchSpaceWellFormed(2);
    var lines;
    report, lines := CrackPassword(2, hash("ba"), hash);
  }

  /** One letter, a target no letter hashes to: not found after all 26 attempts. */
  method NoLetterMatches(hash: string -> string, target: string) returns (report: Report)
    requires forall c :: IsCandidate(1, c) ==> hash(c) != target
    ensures report == NotFound(26)
  {
    SearchSpaceWellFormed(1);
    var lines;
    report, lines := CrackPassword(1, target, hash);
  }
}
