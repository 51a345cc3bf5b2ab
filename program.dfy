/**
  The script as a whole: check the command line, then run the search on the
  validated length and the lower-cased target. Reading `process.argv`,
  `parseInt` and SHA-256 are the parameters `args`, `parseInt` and `hash`.
*/
module Program {
  import opened Wrappers
  import opened Arith
  import opened Generator
  import opened Validation
  import opened Search

  /**
    Invalid input stops the program before any candidate is tried; valid
    input runs the search, whose report is the first candidate whose digest
    equals the target given on the command line up to case.
  */
  method Run(args: seq<string>, parseInt: string -> Option<int>, hash: string -> string)
    returns (outcome: Result<Report, InputError>, progress: seq<ProgressLine>)
    ensures outcome.Err? <==> Validate(args, parseInt).Err?
    ensures outcome.Err? ==> outcome.error == Validate(args, parseInt).error && progress == []
    ensures outcome.Ok? ==>
      var spec := Validate(args, parseInt).value;
      && spec.length > 0
      && outcome.value.attempts <= Pow(26, spec.length)
      && progress == ProgressLines(SearchSpace(spec.length), outcome.value.attempts)
      && (outcome.value.Found? <==> exists c :: c in SearchSpace(spec.length) && hash(c) == spec.target)
      && (outcome.value.Found? ==>
            && 1 <= outcome.value.attempts
            && IsCandidate(spec.length, outcome.value.password)
            && outcome.value.password == SearchSpace(spec.length)[outcome.value.attempts - 1]
            && hash(outcome.value.password) == spec.target
            && SameIgnoringCase(hash(outcome.value.password), args[1])
            && (forall j :: 0 <= j < outcome.value.attempts - 1 ==>
                  hash(SearchSpace(spec.length)[j]) != spec.target)
            && outcome.value.attempts == Value(outcome.value.password) + 1)
      && (outcome.value.NotFound? ==> outcome.value.attempts == Pow(26, spec.length))
  {
    var checked := Validate(args, parseInt);
    if checked.Err? {
      return Err(checked.error), [];
    }
    var report;
    report, progress := CrackPassword(checked.value.length, checked.value.target, hash);
    outcome := Ok(report);
  }
}
