/** Which recovery action a re-read receipt row may expose, given the row this client has claimed. */
module RecoveryAuthority {
  import opened Basics
  import opened CanonicalJson
  import Decimal

  /** A name from the receipt schema as code units. */
  function Units(s: string): Text {
    seq(|s|, i requires 0 <= i < |s| => var n := s[i] as int; if n < 0x1_0000 then n else 0)
  }

  // ---- Reading JSON members ----

  function Find(ms: seq<Member>, key: Text): Option<Json> {
    if ms == [] then None
    else if ms[0].key == key then Some(ms[0].value)
    else Find(ms[1..], key)
  }

  /** value?.[key]; None when the value is no object or lacks the key. */
  function Get(v: Option<Json>, key: string): Option<Json> {
    if v.Some? && v.value.Obj? then Find(v.value.members, Units(key)) else None
  }

  /** The text as characters; whatever is not ASCII shows as '?'. */
  function Characters(t: Text): (s: string)
    ensures |s| == |t|
  {
    seq(|t|, i requires 0 <= i < |t| => if t[i] < 128 then t[i] as char else '?')
  }

  predicate DigitText(t: Text) {
    Decimal.Digits(Characters(t))
  }

  /** The member `version` of a receipt when it is a non-negative integer. */
  function VersionOf(receipt: Json): Option<int> {
    match Get(Some(receipt), "version")
    case Some(Num(token)) =>
      if DigitText(token) then Some(Decimal.Parse(Characters(token))) else None
    case _ => None
  }

  // ---- The inputs ----

  /** The phase of a projection, a claim or an error: undefined, null, or a name. */
  datatype Phase = Undefined | NullPhase | Named(name: string)

  /** An authoritative row; version is None when it is not a safe integer. */
  datatype Row = Row(receipt: Option<Json>, version: Option<int>)

  datatype Claim = Claim(receipt: Option<Json>, version: Option<int>, phase: Phase)

  datatype Failure = Failure(code: Option<string>, phase: Phase)

  datatype Projection = Projection(
    action: string, phase: Phase, reasonCode: Option<string>, receipt: Option<Json>)

  const TX_HASH_REQUIRED: string := "RECOVERY_POLL_TX_HASH_REQUIRED"
  const SHARE_BASELINE_REQUIRED: string := "RECOVERY_POLL_SHARE_BASELINE_REQUIRED"

  predicate ManualReviewCode(code: Option<string>) {
    code == Some(TX_HASH_REQUIRED) || code == Some(SHARE_BASELINE_REQUIRED)
  }

  // ---- The proof behind a poll ----

  predicate IsString(v: Option<Json>, s: string) {
    v.Some? && v.value.Str? && v.value.text == Units(s)
  }

  /** v === phase: an absent member equals undefined only, and null equals null only. */
  predicate EqualsPhase(v: Option<Json>, phase: Phase) {
    match phase
    case Undefined => v.None?
    case NullPhase => v == Some(Null)
    case Named(name) => IsString(v, name)
  }

  /** Each kind of phase is met by its own kind of value, and by no other. */
  lemma {:induction false} PhasesAreMet(v: Option<Json>, name: string)
    ensures EqualsPhase(v, Undefined) <==> v == None
    ensures EqualsPhase(v, NullPhase) <==> v == Some(Null)
    ensures EqualsPhase(v, Named(name)) <==> v == Some(Str(Units(name)))
  {
  }

  /** A real attempt at this phase. */
  predicate RealAttempt(attempt: Json, phase: Phase) {
    IsString(Get(Some(attempt), "kind"), "phase") && EqualsPhase(Get(Some(attempt), "phase"), phase)
  }

  function Attempts(receipt: Option<Json>): seq<Json> {
    var a := Get(receipt, "attempts");
    if a.Some? && a.value.Arr? then a.value.items else []
  }

  predicate LatestAt(attempts: seq<Json>, phase: Phase, i: nat)
    requires i < |attempts|
  {
    RealAttempt(attempts[i], phase) && forall j :: i < j < |attempts| ==> !RealAttempt(attempts[j], phase)
  }

  /** The last real attempt at the phase. */
  function LatestAttempt(attempts: seq<Json>, phase: Phase): (r: Option<Json>)
    ensures r.None? ==> forall i :: 0 <= i < |attempts| ==> !RealAttempt(attempts[i], phase)
    ensures r.Some? ==> exists i :: 0 <= i < |attempts| && LatestAt(attempts, phase, i) && attempts[i] == r.value
  {
    if attempts == [] then None
    else
      var last := |attempts| - 1;
      if RealAttempt(attempts[last], phase) then
        assert LatestAt(attempts, phase, last);
        Some(attempts[last])
      else
        var r := LatestAttempt(attempts[..last], phase);
        assert forall i :: 0 <= i < last ==> attempts[..last][i] == attempts[i];
        assert forall i :: 0 <= i < last && LatestAt(attempts[..last], phase, i) ==> LatestAt(attempts, phase, i);
        r
  }

  lemma {:induction false} LatestAmongFirst(attempts: seq<Json>, phase: Phase, n: nat)
    requires n < |attempts|
    ensures LatestAttempt(attempts[..n + 1], phase)
         == if RealAttempt(attempts[n], phase) then Some(attempts[n]) else LatestAttempt(attempts[..n], phase)
  {
    assert attempts[..n + 1][..n] == attempts[..n];
  }

  method LatestRealRecoveryAttempt(attempts: seq<Json>, phase: Phase) returns (r: Option<Json>)
    ensures r == LatestAttempt(attempts, phase)
  {
    var index := |attempts|;
    assert attempts[..index] == attempts;
    while index > 0
      invariant 0 <= index <= |attempts|
      invariant LatestAttempt(attempts[..index], phase) == LatestAttempt(attempts, phase)
    {
      index := index - 1;
      LatestAmongFirst(attempts, phase, index);
      if RealAttempt(attempts[index], phase) {
        return Some(attempts[index]);
      }
    }
    return None;
  }

  function Evidence(p: Projection, name: string): Option<Json> {
    Get(Get(LatestAttempt(Attempts(p.receipt), p.phase), "evidence"), name)
  }

  /** It carries a transaction hash. */
  predicate HashProof(p: Projection) {
    var hash := Evidence(p, "txHash");
    hash.Some? && hash.value.Str? && hash.value.text != []
  }

  /** The latest real attempt at the projected phase carries what a poll of that phase needs. */
  predicate PollProof(p: Projection) {
    var hash := Evidence(p, "txHash");
    var shares := Evidence(p, "preShareUnits");
    && hash.Some? && hash.value.Str? && hash.value.text != []
    && (p.phase == Named("stellar_deposit") ==> shares.Some? && shares.value.Str? && DigitText(shares.value.text))
  }

  /** currentPollProofError: the code of the missing proof, if any. */
  function PollProofError(p: Projection): (code: Option<string>)
    ensures code.None? <==> (p.action == "poll" ==> PollProof(p))
    ensures code.Some? ==>
              code.value == if HashProof(p) then "RECOVERY_POLL_SHARE_BASELINE_REQUIRED"
                            else "RECOVERY_POLL_TX_HASH_REQUIRED"
  {
    var hash := Evidence(p, "txHash");
    var shares := Evidence(p, "preShareUnits");
    if p.action != "poll" then None
    else if hash.None? || !hash.value.Str? || hash.value.text == [] then Some(TX_HASH_REQUIRED)
    else if p.phase == Named("stellar_deposit") && (shares.None? || !shares.value.Str? || !DigitText(shares.value.text))
      then Some(SHARE_BASELINE_REQUIRED)
    else None
  }

  // ---- The projection ----

  /** receipt != null: neither absent nor null. */
  predicate Present(receipt: Option<Json>) {
    receipt.Some? && !receipt.value.Null?
  }

  predicate ClaimHasReceipt(claim: Claim) {
    Present(claim.receipt) && claim.version.Some?
  }

  predicate RowValid(row: Row) {
    && row.version.Some? && row.version.value >= 0
    && (if !Present(row.receipt) then row.version.value == 0 else VersionOf(row.receipt.value) == row.version)
  }

  predicate ViolatesClaimFloor(row: Row, claim: Claim) {
    ClaimHasReceipt(claim) &&
    (|| !RowValid(row)
     || !Present(row.receipt)
     || row.version.value < claim.version.value
     || (row.version == claim.version && !SameRecoveryReceipt(row.receipt.value, claim.receipt.value)))
  }

  /** a ?? b for phases. */
  function PhaseOrElse(a: Phase, b: Phase): Phase {
    if a.Named? then a else b
  }

  function OrElse(a: Option<string>, b: Option<string>): Option<string> {
    if a.Some? then a else b
  }

  function ProjectRecoveryAuthority(
      row: Row, claim: Claim, error: Option<Failure>, projectReceipt: Row -> Projection): Projection {
    var violates := ViolatesClaimFloor(row, claim);
    var next := projectReceipt(if violates then Row(claim.receipt, claim.version) else row);
    var proofError := PollProofError(next);
    if proofError.Some? then
      next.(action := "manual-review", reasonCode := proofError)
    else if violates then
      next.(
        action := "manual-review",
        phase := PhaseOrElse(
          if error.Some? then error.value.phase else Undefined, PhaseOrElse(claim.phase, next.phase)),
        reasonCode := OrElse(if error.Some? then error.value.code else None, Some("RECOVERY_RECEIPT_CHANGED")))
    else if error.None? || !ManualReviewCode(error.value.code) then
      next
    else if next.action in {"complete", "manual-review", "blocked-reconcile", "poll"}
            || (row.version.Some? && claim.version.Some? && row.version.value > claim.version.value) then
      next
    else
      next.(
        action := "manual-review",
        phase := PhaseOrElse(error.value.phase, PhaseOrElse(claim.phase, next.phase)),
        reasonCode := error.value.code)
  }

  /** The row stands at or above the claim, and is the claimed receipt itself when the versions tie. */
  ghost predicate AtOrAboveClaim(row: Row, claim: Claim)
    requires ClaimHasReceipt(claim)
  {
    && Present(row.receipt) && row.version.Some?
    && VersionOf(row.receipt.value) == row.version
    && claim.version.value <= row.version.value
    && (row.version == claim.version ==> Same(row.receipt.value, claim.receipt.value))
  }

  lemma {:induction false} VersionIsNatural(receipt: Json)
    ensures VersionOf(receipt).Some? ==> VersionOf(receipt).value >= 0
  {
  }

  /**
   * With a claimed receipt, any action but manual review comes from a row at or above the claim, as
   * that row projects; and without an error nothing else stands in the way of such a row.
   */
  lemma {:induction false} ClaimIsAMonotoneFloor(
      row: Row, claim: Claim, error: Option<Failure>, projectReceipt: Row -> Projection)
    requires ClaimHasReceipt(claim) && Valid(claim.receipt.value) && (row.receipt.Some? ==> Valid(row.receipt.value))
    ensures var p := ProjectRecoveryAuthority(row, claim, error, projectReceipt);
            && (p.action != "manual-review" ==> AtOrAboveClaim(row, claim) && p == projectReceipt(row))
            && (error.None? && AtOrAboveClaim(row, claim) && PollProofError(projectReceipt(row)).None?
                ==> p == projectReceipt(row))
  {
    if row.receipt.Some? {
      ReceiptComparisonIsExact(row.receipt.value, claim.receipt.value);
      VersionIsNatural(row.receipt.value);
    }
  }

  /** A poll is exposed only with the proof carried by the latest real attempt at its phase. */
  lemma {:induction false} PollNeedsProof(
      row: Row, claim: Claim, error: Option<Failure>, projectReceipt: Row -> Projection)
    requires ProjectRecoveryAuthority(row, claim, error, projectReceipt).action == "poll"
    ensures PollProof(ProjectRecoveryAuthority(row, claim, error, projectReceipt))
  {
  }

  /** The row that is projected: the authoritative one at or above the claim, else the claimed one. */
  ghost function Selected(row: Row, claim: Claim): Row
    requires ClaimHasReceipt(claim)
  {
    if AtOrAboveClaim(row, claim) then row else Row(claim.receipt, claim.version)
  }

  /** A poll-proof error holds a row at the claimed version, unless it projects to one of these three. */
  predicate HeldByError(row: Row, claim: Claim, error: Option<Failure>, next: Projection) {
    && error.Some? && (error.value.code == Some(TX_HASH_REQUIRED) || error.value.code == Some(SHARE_BASELINE_REQUIRED))
    && row.version == claim.version
    && next.action != "complete" && next.action != "blocked-reconcile" && next.action != "poll"
  }

  /**
   * With a claimed receipt the result is manual review exactly when the row is not at or above the
   * claim, or projects to manual review, or to a poll without its proof, or is held by the error.
   */
  lemma {:induction false} ManualReviewExactly(
      row: Row, claim: Claim, error: Option<Failure>, projectReceipt: Row -> Projection)
    requires ClaimHasReceipt(claim) && Valid(claim.receipt.value) && (row.receipt.Some? ==> Valid(row.receipt.value))
    ensures var p := ProjectRecoveryAuthority(row, claim, error, projectReceipt);
            var next := projectReceipt(Selected(row, claim));
            p.action == "manual-review" <==>
              || !AtOrAboveClaim(row, claim) || next.action == "manual-review"
              || (next.action == "poll" && !PollProof(next))
              || HeldByError(row, claim, error, next)
  {
    ClaimIsAMonotoneFloor(row, claim, error, projectReceipt);
    if row.receipt.Some? {
      ReceiptComparisonIsExact(row.receipt.value, claim.receipt.value);
      VersionIsNatural(row.receipt.value);
    }
  }

  /** And its reason is the missing proof, then the error that held it, then a changed receipt. */
  lemma {:induction false} ReasonsAreGiven(
      row: Row, claim: Claim, error: Option<Failure>, projectReceipt: Row -> Projection)
    requires ClaimHasReceipt(claim) && Valid(claim.receipt.value) && (row.receipt.Some? ==> Valid(row.receipt.value))
    ensures var p := ProjectRecoveryAuthority(row, claim, error, projectReceipt);
            var next := projectReceipt(Selected(row, claim));
            && p.receipt == next.receipt
            && (next.action == "poll" && !PollProof(next) ==>
                  p == next.(action := "manual-review", reasonCode := PollProofError(next)))
            && (!AtOrAboveClaim(row, claim) && (next.action == "poll" ==> PollProof(next)) ==>
                  && p.reasonCode == (if error.Some? && error.value.code.Some? then error.value.code
                                      else Some("RECOVERY_RECEIPT_CHANGED"))
                  && p.phase == (if error.Some? && error.value.phase.Named? then error.value.phase
                                 else if claim.phase.Named? then claim.phase else next.phase))
            && (AtOrAboveClaim(row, claim) && HeldByError(row, claim, error, next) && next.action != "manual-review" ==>
                  && p.reasonCode == error.value.code
                  && p.phase == if error.value.phase.Named? then error.value.phase
                                else if claim.phase.Named? then claim.phase else next.phase)
  {
    ClaimIsAMonotoneFloor(row, claim, error, projectReceipt);
    if row.receipt.Some? {
      ReceiptComparisonIsExact(row.receipt.value, claim.receipt.value);
      VersionIsNatural(row.receipt.value);
    }
  }

  /** Without a claimed receipt there is no floor: without an error the row is shown as it projects. */
  lemma {:induction false} NoClaimNoFloor(row: Row, claim: Claim, projectReceipt: Row -> Projection)
    requires claim.receipt == None || claim.receipt == Some(Null) || claim.version == None
    requires projectReceipt(row).action == "poll" ==> PollProof(projectReceipt(row))
    ensures ProjectRecoveryAuthority(row, claim, None, projectReceipt) == projectReceipt(row)
  {
  }
}
