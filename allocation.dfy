/**
 * The code-generation path of `POST /api/links`: up to ten attempts, each
 * drawing a length of 6, 7 or 8, generating a candidate of that length and
 * checking the table for it; the first candidate the table lacks wins.
 */
module Allocation {
  import opened Wrappers
  import opened Validation
  import opened CodeGen
  import opened Links

  /** The loop bound `attempts < 10`. */
  const MaxAttempts: nat := 10

  /**
   * The random draws one attempt consumes: `Math.floor(Math.random() * 3)`
   * for the extra length, then one alphabet position per character.
   */
  datatype AttemptDraws = AttemptDraws(extraLength: nat, chars: seq<nat>)

  /** Draws the random source can produce: each in the range its `floor` yields. */
  predicate WellFormed(d: AttemptDraws) {
    d.extraLength < 3 && |d.chars| == 6 + d.extraLength && InAlphabet(d.chars)
  }

  /** Enough well-formed draws for every attempt the loop may make. */
  predicate Randomness(draws: seq<AttemptDraws>) {
    |draws| >= MaxAttempts && forall i :: 0 <= i < |draws| ==> WellFormed(draws[i])
  }

  /** The candidate an attempt generates. */
  function Candidate(d: AttemptDraws): string
    requires WellFormed(d)
  {
    Spell(d.chars)
  }

  /** Every candidate passes `isValidCode`: its length is `6 + k` with `k < 3`. */
  lemma CandidateIsValid(d: AttemptDraws)
    requires WellFormed(d)
    ensures IsValidCode(Candidate(d))
    ensures 6 <= |Candidate(d)| <= 8
  {
    SpeltCodeIsValid(d.chars);
  }

  /**
   * The index of the first attempt whose candidate the table lacks, or
   * `None` when every candidate is taken.
   */
  function FirstFreeAttempt(rows: seq<Link>, draws: seq<AttemptDraws>): (k: Option<nat>)
    requires forall i :: 0 <= i < |draws| ==> WellFormed(draws[i])
    ensures k.Some? ==> k.value < |draws| && !HasCode(rows, Candidate(draws[k.value]))
    ensures k.Some? ==> forall j :: 0 <= j < k.value ==> HasCode(rows, Candidate(draws[j]))
    ensures k.None? ==> forall j :: 0 <= j < |draws| ==> HasCode(rows, Candidate(draws[j]))
  {
    if draws == [] then None
    else if !HasCode(rows, Candidate(draws[0])) then Some(0)
    else match FirstFreeAttempt(rows, draws[1..])
      case None => None
      case Some(k) => Some(k + 1)
  }

  /** The first attempt whose candidate is free is the one `FirstFreeAttempt` names. */
  lemma FirstFreeAttemptIs(rows: seq<Link>, draws: seq<AttemptDraws>, k: nat)
    requires forall i :: 0 <= i < |draws| ==> WellFormed(draws[i])
    requires k < |draws| && !HasCode(rows, Candidate(draws[k]))
    requires forall j :: 0 <= j < k ==> HasCode(rows, Candidate(draws[j]))
    ensures FirstFreeAttempt(rows, draws) == Some(k)
  {
  }

  /**
   * The allocated code is the candidate of the first free attempt, and
   * there is none exactly when all ten candidates are taken.
   */
  lemma AllocatedCodeIsFirstFree(rows: seq<Link>, draws: seq<AttemptDraws>)
    requires Randomness(draws)
    ensures AllocatedCode(rows, draws).None? <==>
      forall j :: 0 <= j < MaxAttempts ==> HasCode(rows, Candidate(draws[j]))
    ensures AllocatedCode(rows, draws).Some? ==>
      exists k :: 0 <= k < MaxAttempts && AllocatedCode(rows, draws) == Some(Candidate(draws[k])) &&
        forall j :: 0 <= j < k ==> HasCode(rows, Candidate(draws[j]))
  {
    var tried := draws[..MaxAttempts];
    assert forall j :: 0 <= j < MaxAttempts ==> tried[j] == draws[j];
  }

  /** The code the loop settles on, if any. */
  function AllocatedCode(rows: seq<Link>, draws: seq<AttemptDraws>): (code: Option<string>)
    requires Randomness(draws)
    ensures code.Some? ==> IsValidCode(code.value) && !HasCode(rows, code.value)
  {
    match FirstFreeAttempt(rows, draws[..MaxAttempts])
    case None => None
    case Some(k) =>
      CandidateIsValid(draws[k]);
      Some(Candidate(draws[k]))
  }

  /**
   * The `while (!unique && attempts < 10)` loop. It makes at most ten
   * attempts and stops at the first candidate absent from the table; with
   * all ten present it reports failure after exactly ten.
   */
  method AllocateCode(rows: seq<Link>, draws: seq<AttemptDraws>) returns (code: Option<string>, attempts: nat)
    requires Randomness(draws)
    ensures 1 <= attempts <= MaxAttempts
    ensures code == AllocatedCode(rows, draws)
    ensures match FirstFreeAttempt(rows, draws[..MaxAttempts])
      case Some(k) => attempts == k + 1
      case None => attempts == MaxAttempts
  {
    var unique := false;
    attempts := 0;
    code := None;
    while !unique && attempts < MaxAttempts
      invariant attempts <= MaxAttempts
      invariant unique ==> 1 <= attempts && code == Some(Candidate(draws[attempts - 1]))
      invariant unique ==> !HasCode(rows, Candidate(draws[attempts - 1]))
      invariant !unique ==> code == None
      invariant forall j :: 0 <= j < attempts - (if unique then 1 else 0) ==> HasCode(rows, Candidate(draws[j]))
    {
      attempts := attempts + 1;
      var d := draws[attempts - 1];
      var len := 6 + d.extraLength;
      var candidate := GenerateCode(len, d.chars);
      var existing := HasCode(rows, candidate);
      if !existing {
        code := Some(candidate);
        unique := true;
      }
    }
    ghost var tried := draws[..MaxAttempts];
    assert forall j :: 0 <= j < attempts ==> tried[j] == draws[j];
    if unique {
      FirstFreeAttemptIs(rows, tried, attempts - 1);
    } else {
      assert FirstFreeAttempt(rows, tried).None?;
    }
  }
}
