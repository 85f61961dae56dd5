/**
 * The guarded money refresh. Reads start with a fresh reconciliation token and finish in any
 * order, between wallet switches and the revision bumps those make, and between owner actions that
 * write a revision of their own.
 */
module MoneyFetch {
  import opened Basics

  /** A read in flight or finished; token is what it wrote into the revision when it started. */
  datatype Read = Read(owner: Option<string>, token: nat, open: bool)

  datatype Commit = Commit(token: nat, owner: Option<string>, connected: Option<string>)

  /** revision is moneyRevisionRef.current, connected is the current owner ref. */
  datatype State = State(revision: Option<nat>, connected: Option<string>, fetches: seq<Read>, commits: seq<Commit>)

  const START: State := State(None, None, [], [])

  datatype Step =
    | StartRead(owner: Option<string>)
    | FinishRead(read: nat, succeeded: bool)
    | Connect(owner: Option<string>)
    | Bump
    | Assign(revision: nat)

  function NextReconciliationToken(prev: Option<nat>): nat {
    (if prev.Some? then prev.value else 0) + 1
  }

  predicate IsReconciliationCurrent(readToken: nat, currentToken: Option<nat>) {
    currentToken.None? || readToken >= currentToken.value
  }

  /** Boolean(fetchOwner). */
  predicate RealOwner(owner: Option<string>) {
    owner.Some? && owner.value != ""
  }

  predicate ShouldCommit(
      fetchOwner: Option<string>, connected: Option<string>, readToken: nat, currentToken: Option<nat>) {
    RealOwner(fetchOwner) && fetchOwner == connected && IsReconciliationCurrent(readToken, currentToken)
  }

  function Apply(s: State, step: Step): State {
    match step
    case StartRead(owner) =>
      var token := NextReconciliationToken(s.revision);
      s.(revision := Some(token), fetches := s.fetches + [Read(owner, token, true)])
    case FinishRead(i, succeeded) =>
      if i >= |s.fetches| || !s.fetches[i].open then s
      else
        var r := s.fetches[i];
        var s' := s.(fetches := s.fetches[i := r.(open := false)]);
        if succeeded && ShouldCommit(r.owner, s.connected, r.token, s.revision)
        then s'.(commits := s.commits + [Commit(r.token, r.owner, s.connected)])
        else s'
    case Connect(owner) => s.(connected := owner)
    case Bump => s.(revision := Some(NextReconciliationToken(s.revision)))
    case Assign(revision) => s.(revision := Some(revision))
  }

  /** The state that steps lead to from s. */
  function ExecFrom(s: State, steps: seq<Step>): State {
    if steps == [] then s else Apply(ExecFrom(s, steps[..|steps| - 1]), steps[|steps| - 1])
  }

  function Exec(steps: seq<Step>): State {
    ExecFrom(START, steps)
  }

  lemma {:induction false} RunOneMore(s: State, steps: seq<Step>, step: Step)
    ensures ExecFrom(s, steps + [step]) == Apply(ExecFrom(s, steps), step)
  {
    assert (steps + [step])[..|steps|] == steps;
  }

  function Latest(s: State): nat {
    if s.revision.Some? then s.revision.value else 0
  }

  // ---- What keeps the order of commits ----

  ghost predicate Increasing(commits: seq<Commit>) {
    forall k, l :: 0 <= k < l < |commits| ==> commits[k].token < commits[l].token
  }

  /** The token of the last commit, or 0. */
  function LastToken(s: State): nat {
    if s.commits == [] then 0 else s.commits[|s.commits| - 1].token
  }

  /** An open read that some connected owner would let commit. */
  predicate Pending(r: Read) {
    r.open && RealOwner(r.owner)
  }

  /** An owner action may write r here: no lower than the last committed token and than any pending read's. */
  predicate Harmless(s: State, r: nat) {
    && LastToken(s) <= r
    && forall i :: 0 <= i < |s.fetches| && Pending(s.fetches[i]) ==> s.fetches[i].token <= r
  }

  /** Every revision an owner action writes in this run is harmless where it is written. */
  predicate HarmlessRun(s: State, steps: seq<Step>) {
    steps == [] ||
    (var before, step := steps[..|steps| - 1], steps[|steps| - 1];
     HarmlessRun(s, before) && (step.Assign? ==> Harmless(ExecFrom(s, before), step.revision)))
  }

  /** No owner action in this run writes a revision below the current one. */
  predicate NeverLowers(s: State, steps: seq<Step>) {
    steps == [] ||
    (var before, step := steps[..|steps| - 1], steps[|steps| - 1];
     NeverLowers(s, before) && (step.Assign? ==> Latest(ExecFrom(s, before)) <= step.revision))
  }

  /** The invariant: commits are in order, and no pending read can break it before the revision is lowered. */
  ghost predicate InOrder(s: State) {
    && Increasing(s.commits) && (forall k :: 0 <= k < |s.commits| ==> s.commits[k].token <= LastToken(s))
    && Harmless(s, Latest(s))
    && (forall i :: 0 <= i < |s.fetches| && Pending(s.fetches[i]) ==> 1 <= s.fetches[i].token != LastToken(s))
    && (forall i, j :: 0 <= i < j < |s.fetches| && Pending(s.fetches[i]) && Pending(s.fetches[j])
          ==> s.fetches[i].token != s.fetches[j].token)
  }

  lemma {:induction false} FinishKeepsOrder(s: State, i: nat, succeeded: bool)
    requires InOrder(s) && i < |s.fetches|
    ensures InOrder(Apply(s, FinishRead(i, succeeded)))
  {
    var s' := Apply(s, FinishRead(i, succeeded));
    if s'.commits != s.commits {
      assert Pending(s.fetches[i]) && s.fetches[i].token == Latest(s) == LastToken(s');
    }
  }

  lemma {:induction false} StartKeepsOrder(s: State, owner: Option<string>)
    requires InOrder(s)
    ensures InOrder(Apply(s, StartRead(owner)))
  {
  }

  lemma {:induction false} RaisingKeepsOrder(s: State, revision: nat)
    requires InOrder(s) && Harmless(s, revision)
    ensures InOrder(s.(revision := Some(revision)))
  {
  }

  lemma {:induction false} StepKeepsOrder(s: State, step: Step)
    requires InOrder(s) && (step.Assign? ==> Harmless(s, step.revision))
    ensures InOrder(Apply(s, step))
  {
    match step
    case StartRead(owner) => StartKeepsOrder(s, owner);
    case FinishRead(i, succeeded) =>
      if i < |s.fetches| {
        FinishKeepsOrder(s, i, succeeded);
      }
    case Connect(_) =>
    case Bump => RaisingKeepsOrder(s, NextReconciliationToken(s.revision));
    case Assign(revision) => RaisingKeepsOrder(s, revision);
  }

  lemma {:induction false} HarmlessRunKeepsOrder(s: State, steps: seq<Step>)
    requires InOrder(s) && HarmlessRun(s, steps)
    ensures InOrder(ExecFrom(s, steps))
  {
    if steps != [] {
      HarmlessRunKeepsOrder(s, steps[..|steps| - 1]);
      StepKeepsOrder(ExecFrom(s, steps[..|steps| - 1]), steps[|steps| - 1]);
    }
  }

  /** From a state in order a run that never lowers the revision only writes harmless ones. */
  lemma {:induction false} NeverLoweringIsHarmless(s: State, steps: seq<Step>)
    requires InOrder(s) && NeverLowers(s, steps)
    ensures HarmlessRun(s, steps)
  {
    if steps != [] {
      NeverLoweringIsHarmless(s, steps[..|steps| - 1]);
      HarmlessRunKeepsOrder(s, steps[..|steps| - 1]);
    }
  }

  // ---- Main results: the order of commits ----

  /** As long as owner actions write harmless revisions, the tokens of committed reads strictly increase. */
  lemma {:induction false} CommittedTokensIncrease(steps: seq<Step>, k: nat, l: nat)
    requires HarmlessRun(START, steps) && k < l < |Exec(steps).commits|
    ensures Exec(steps).commits[k].token < Exec(steps).commits[l].token
  {
    HarmlessRunKeepsOrder(START, steps);
  }

  /** Commits stay in order in every later run that lowers the revision no further. */
  ghost predicate KeepsOrder(s: State) {
    forall later :: NeverLowers(s, later) ==> Increasing(ExecFrom(s, later).commits)
  }

  /** A fresh read of a connected owner starts and commits. */
  lemma {:induction false} FreshCommit(s: State, owner: Option<string>, steps: seq<Step>) returns (later: seq<Step>)
    requires RealOwner(owner) && NeverLowers(s, steps)
    ensures NeverLowers(s, later)
    ensures var now := ExecFrom(s, steps);
            ExecFrom(s, later).commits == now.commits + [Commit(Latest(now) + 1, owner, owner)]
  {
    var n := |ExecFrom(s, steps).fetches|;
    later := steps;
    RunOneMore(s, later, Connect(owner));
    assert (later + [Connect(owner)])[..|later|] == later;
    later := later + [Connect(owner)];
    RunOneMore(s, later, StartRead(owner));
    assert (later + [StartRead(owner)])[..|later|] == later;
    later := later + [StartRead(owner)];
    RunOneMore(s, later, FinishRead(n, true));
    assert (later + [FinishRead(n, true)])[..|later|] == later;
    later := later + [FinishRead(n, true)];
  }

  /** A pending read above the revision commits, and the next fresh read repeats or undercuts its token. */
  lemma {:induction false} PendingReadOvertakes(s: State, i: nat) returns (later: seq<Step>)
    requires i < |s.fetches| && Pending(s.fetches[i]) && Latest(s) < s.fetches[i].token
    ensures NeverLowers(s, later) && !Increasing(ExecFrom(s, later).commits)
  {
    var r := s.fetches[i];
    RunOneMore(s, [], Connect(r.owner));
    var connected := [] + [Connect(r.owner)];
    RunOneMore(s, connected, FinishRead(i, true));
    var first := connected + [FinishRead(i, true)];
    assert first[..1] == connected && connected[..0] == [];
    later := FreshCommit(s, r.owner, first);
    var commits := ExecFrom(s, later).commits;
    assert commits[|commits| - 2].token == r.token >= commits[|commits| - 1].token;
  }

  /**
   * The exact condition, which an owner action could check before it writes: a revision keeps commits
   * in order in every later run that lowers no further if and only if it is harmless.
   */
  lemma {:induction false} WriteKeepsOrderExactly(steps: seq<Step>, r: nat)
    requires HarmlessRun(START, steps)
    ensures KeepsOrder(Apply(Exec(steps), Assign(r))) <==> Harmless(Exec(steps), r)
  {
    HarmlessRunKeepsOrder(START, steps);
    var s := Exec(steps);
    var s' := Apply(s, Assign(r));
    if Harmless(s, r) {
      StepKeepsOrder(s, Assign(r));
      forall later | NeverLowers(s', later) ensures Increasing(ExecFrom(s', later).commits) {
        NeverLoweringIsHarmless(s', later);
        HarmlessRunKeepsOrder(s', later);
      }
    } else if r < LastToken(s) {
      var later := FreshCommit(s', Some("owner"), []);
      var commits := ExecFrom(s', later).commits;
      assert commits[|commits| - 2].token >= commits[|commits| - 1].token;
      assert !Increasing(commits);
    } else {
      var i :| 0 <= i < |s.fetches| && Pending(s.fetches[i]) && s.fetches[i].token > r;
      var later := PendingReadOvertakes(s', i);
    }
  }

  // ---- A revision written back too late repeats a token ----

  /** No read of the run starts while another is open, so none is ever aborted. */
  predicate OneAtATime(steps: seq<Step>) {
    steps == [] ||
    (var before, step := Exec(steps[..|steps| - 1]), steps[|steps| - 1];
     && OneAtATime(steps[..|steps| - 1])
     && (step.StartRead? ==> forall i :: 0 <= i < |before.fetches| ==> !before.fetches[i].open))
  }

  /** Step k writes the token that follows the revision of an earlier moment, after n steps. */
  predicate WritesLate(steps: seq<Step>, n: nat, k: nat) {
    n <= k < |steps| && steps[k] == Assign(NextReconciliationToken(Exec(steps[..n]).revision))
  }

  lemma {:induction false} ReadAlone(steps: seq<Step>, owner: string) returns (more: seq<Step>)
    requires owner != "" && Exec(steps).connected == Some(owner) && OneAtATime(steps)
    requires forall i :: 0 <= i < |Exec(steps).fetches| ==> !Exec(steps).fetches[i].open
    ensures more == steps + [StartRead(Some(owner)), FinishRead(|Exec(steps).fetches|, true)]
    ensures OneAtATime(more)
    ensures var s, s' := Exec(steps), Exec(more);
            var token := Latest(s) + 1;
            && s'.revision == Some(token) && s'.connected == s.connected
            && s'.fetches == s.fetches + [Read(Some(owner), token, false)]
            && s'.commits == s.commits + [Commit(token, Some(owner), Some(owner))]
  {
    var start, finish := StartRead(Some(owner)), FinishRead(|Exec(steps).fetches|, true);
    var started := steps + [start];
    RunOneMore(START, steps, start);
    RunOneMore(START, started, finish);
    assert started[..|steps|] == steps && (started + [finish])[..|started|] == started;
    more := started + [finish];
    assert more == steps + [start, finish];
  }

  /**
   * An action starts at revision 1; two refreshes commit 2 and 3 while it is under way; it writes 2,
   * and the next refresh commits 3 again. No two reads overlap, so no abort would prevent it.
   */
  lemma {:induction false} LateWriteRepeatsAToken(owner: string) returns (steps: seq<Step>, n: nat, k: nat)
    requires owner != ""
    ensures OneAtATime(steps) && WritesLate(steps, n, k)
    ensures var commits := Exec(steps).commits;
            |commits| == 4 && commits[2].token == commits[3].token == 3
  {
    var o := Some(owner);
    RunOneMore(START, [], Connect(o));
    steps := [] + [Connect(o)];
    assert steps[..0] == [];
    steps := ReadAlone(steps, owner);
    n := |steps|;
    var atAction := steps;
    steps := ReadAlone(steps, owner);
    steps := ReadAlone(steps, owner);
    k := |steps|;
    assert steps[..n] == atAction;
    RunOneMore(START, steps, Assign(2));
    assert (steps + [Assign(2)])[..k] == steps;
    steps := steps + [Assign(2)];
    steps := ReadAlone(steps, owner);
    assert steps[..n] == atAction;
  }

  // ---- Main results: each single commit ----

  /** In every run each commit belongs to the owner connected at that instant. */
  lemma {:induction false} CommitsAreForTheConnectedOwner(steps: seq<Step>, k: nat)
    requires k < |Exec(steps).commits|
    ensures Exec(steps).commits[k].owner.Some? && Exec(steps).commits[k].owner == Exec(steps).commits[k].connected
  {
    if k < |Exec(steps[..|steps| - 1]).commits| {
      CommitsAreForTheConnectedOwner(steps[..|steps| - 1], k);
    }
  }

  lemma {:induction false} ReadKeepsItsToken(steps: seq<Step>, n: nat, i: nat)
    requires n <= |steps| && i < |Exec(steps[..n]).fetches|
    ensures i < |Exec(steps).fetches|
    ensures Exec(steps).fetches[i].token == Exec(steps[..n]).fetches[i].token
    ensures Exec(steps).fetches[i].owner == Exec(steps[..n]).fetches[i].owner
  {
    if n == |steps| {
      assert steps[..n] == steps;
    } else {
      assert steps[..|steps| - 1][..n] == steps[..n];
      ReadKeepsItsToken(steps[..|steps| - 1], n, i);
    }
  }

  /**
   * In every run, whatever actions write: a read that step n started commits when it succeeds,
   * exactly if its owner is the connected one and the revision is not above what its start left.
   */
  lemma {:induction false} CommitsExactly(steps: seq<Step>, n: nat, owner: Option<string>)
    requires n < |steps| && steps[n] == StartRead(owner)
    requires var i := |Exec(steps[..n]).fetches|;
             i < |Exec(steps).fetches| && Exec(steps).fetches[i].open
    ensures var i := |Exec(steps[..n]).fetches|;
            var s := Exec(steps);
            Apply(s, FinishRead(i, true)).commits != s.commits
            <==> owner.Some? && owner.value != "" && owner == s.connected
                 && Latest(s) <= Latest(Exec(steps[..n + 1]))
  {
    var i := |Exec(steps[..n]).fetches|;
    assert steps[..n + 1][..n] == steps[..n];
    ReadKeepsItsToken(steps, n + 1, i);
    var s := Exec(steps);
    if Apply(s, FinishRead(i, true)).commits == s.commits {
      assert !ShouldCommit(owner, s.connected, s.fetches[i].token, s.revision);
    } else {
      assert ShouldCommit(owner, s.connected, s.fetches[i].token, s.revision);
    }
  }

  /** Step j started a read, bumped the revision, or wrote a higher one. */
  predicate Raises(steps: seq<Step>, j: nat)
    requires j < |steps|
  {
    steps[j].StartRead? || steps[j].Bump? || (steps[j].Assign? && steps[j].revision > Latest(Exec(steps[..j])))
  }

  /** Step j wrote a lower revision. */
  predicate Lowers(steps: seq<Step>, j: nat)
    requires j < |steps|
  {
    steps[j].Assign? && steps[j].revision < Latest(Exec(steps[..j]))
  }

  /** Some step after the first n raised the revision. */
  predicate Superseded(steps: seq<Step>, n: nat)
    requires n <= |steps|
  {
    exists j :: n <= j < |steps| && Raises(steps, j)
  }

  /** Some step after the first n lowered the revision. */
  predicate LoweredSince(steps: seq<Step>, n: nat)
    requires n <= |steps|
  {
    exists j :: n <= j < |steps| && Lowers(steps, j)
  }

  lemma {:induction false} SinceOneMore(steps: seq<Step>, n: nat)
    requires steps != [] && n < |steps|
    ensures Superseded(steps, n) <==> Superseded(steps[..|steps| - 1], n) || Raises(steps, |steps| - 1)
    ensures LoweredSince(steps, n) <==> LoweredSince(steps[..|steps| - 1], n) || Lowers(steps, |steps| - 1)
  {
    var before := steps[..|steps| - 1];
    forall j | n <= j < |before|
      ensures Raises(before, j) <==> Raises(steps, j)
      ensures Lowers(before, j) <==> Lowers(steps, j)
    {
      assert before[..j] == steps[..j];
    }
  }

  /** As long as no step lowers it, the revision does not fall, and rises exactly when some step raises it. */
  lemma {:induction false} RevisionOnlyGrows(steps: seq<Step>, n: nat)
    requires n <= |steps| && !LoweredSince(steps, n)
    ensures Latest(Exec(steps)) >= Latest(Exec(steps[..n]))
    ensures Latest(Exec(steps)) > Latest(Exec(steps[..n])) <==> Superseded(steps, n)
  {
    if n == |steps| {
      assert steps[..n] == steps;
    } else {
      var before := steps[..|steps| - 1];
      SinceOneMore(steps, n);
      RevisionOnlyGrows(before, n);
      assert before[..n] == steps[..n];
    }
  }

  /** So a read whose revision was not lowered since its start commits exactly if nothing has raised it either. */
  lemma {:induction false} CommitsExactlyWhenNotSuperseded(steps: seq<Step>, n: nat, owner: Option<string>)
    requires n < |steps| && steps[n] == StartRead(owner) && !LoweredSince(steps, n + 1)
    requires var i := |Exec(steps[..n]).fetches|;
             i < |Exec(steps).fetches| && Exec(steps).fetches[i].open
    ensures var i := |Exec(steps[..n]).fetches|;
            var s := Exec(steps);
            Apply(s, FinishRead(i, true)).commits != s.commits
            <==> RealOwner(owner) && owner == s.connected && !Superseded(steps, n + 1)
  {
    CommitsExactly(steps, n, owner);
    RevisionOnlyGrows(steps, n + 1);
  }
}
