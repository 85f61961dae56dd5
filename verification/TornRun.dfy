/**
 * A run that tears the reads of the active account: a wallet leaves the device and is then selected
 * between the reads of one thread, which reveals its address although it was never active.
 */
module TornRun {
  import opened Basics
  import opened ConsentFlow

  const RUN: Step := Run(0, 0, false)

  // ---- Runs of one thread in which an account is never active ----

  ghost predicate NeverActive(init: Storage, steps: seq<Step>, id: string) {
    forall j :: 0 <= j <= |steps| ==> !ActiveAt(init, steps[..j], id)
  }

  /** The run is one thread at this point, and the account with this id has never been active. */
  ghost predicate Stands(init: Storage, steps: seq<Step>, id: string, s: Storage, t: Thread) {
    Exec(init, steps) == State(s, [t]) && NeverActive(init, steps, id)
  }

  predicate NotActiveIn(s: Storage, id: string) {
    ActiveAccount(s).Some? ==> ActiveAccount(s).value.id != id
  }

  lemma {:induction false} StandsNext(init: Storage, steps: seq<Step>, step: Step, id: string, s: Storage, t: Thread)
    requires NeverActive(init, steps, id) && Apply(Exec(init, steps), step) == State(s, [t]) && NotActiveIn(s, id)
    ensures Stands(init, steps + [step], id, s, t)
  {
    var after := steps + [step];
    assert after[..|steps|] == steps;
    forall j | 0 <= j <= |after| ensures !ActiveAt(init, after[..j], id) {
      if j <= |steps| {
        assert after[..j] == steps[..j];
      } else {
        assert after[..j] == after;
      }
    }
  }

  lemma {:induction false} RunKeepsDevice(s: Storage, t: Thread)
    ensures ActiveAccount(RunThread(s, t, 0, 0, false).0) == ActiveAccount(s)
  {
  }

  /** The thread performs its next storage operation. */
  lemma {:induction false} RunsOn(init: Storage, steps: seq<Step>, id: string, s: Storage, t: Thread)
    requires Stands(init, steps, id, s, t)
    ensures var (s', t') := RunThread(s, t, 0, 0, false); Stands(init, steps + [RUN], id, s', t')
  {
    var (s', t') := RunThread(s, t, 0, 0, false);
    assert steps[..|steps|] == steps;
    RunKeepsDevice(s, t);
    StandsNext(init, steps, RUN, id, s', t');
  }

  /** The wallets or the selection change. */
  lemma {:induction false} DeviceChanges(init: Storage, steps: seq<Step>, step: Step, id: string, s: Storage, t: Thread)
    requires Stands(init, steps, id, s, t) && (step.SetWallets? || step.SetSelection?)
    requires NotActiveIn(Apply(State(s, [t]), step).storage, id)
    ensures Stands(init, steps + [step], id, Apply(State(s, [t]), step).storage, t)
  {
    StandsNext(init, steps, step, id, Apply(State(s, [t]), step).storage, t);
  }

  // ---- The device ----

  lemma {:induction false} IdsDiffer(a: string, b: string)
    requires a != b
    ensures NETWORK + ":" + a != NETWORK + ":" + b
  {
    assert (NETWORK + ":" + a)[|NETWORK| + 1..] == a && (NETWORK + ":" + b)[|NETWORK| + 1..] == b;
  }

  function SelectionOf(address: string): Selection {
    Selection(1, NETWORK, NETWORK + ":" + address, address, 'G', "classic-ed25519")
  }

  /** Both wallets are there and none is selected. */
  predicate Whole(s: Storage, a: string, b: string) {
    s.wallets == Wallets(Some(a), Some(b)) && s.selection == None
  }

  /** The classic wallet a is gone, and selected. */
  predicate Halved(s: Storage, a: string, b: string) {
    s.wallets == Wallets(None, Some(b)) && s.selection == Some(SelectionOf(a))
  }

  predicate TwoWallets(a: string, b: string) {
    a != "" && b != "" && a != b
  }

  lemma {:induction false} NeverTheLostOne(s: Storage, a: string, b: string)
    requires TwoWallets(a, b)
    ensures s.wallets == Wallets(Some(a), Some(b)) && s.selection == None ==> NotActiveIn(s, NETWORK + ":" + a)
    ensures s.wallets == Wallets(None, Some(b)) ==> NotActiveIn(s, NETWORK + ":" + a)
  {
    IdsDiffer(a, b);
  }

  lemma {:induction false} TheSelectedOne(a: string, b: string)
    requires TwoWallets(a, b)
    ensures Resolved(Wallets(Some(a), Some(b)), Some(SelectionOf(a))) == Some(ClassicAccount(a))
  {
    IdsDiffer(a, b);
  }

  /** Classic wallet a leaves the device and is then selected. */
  lemma {:induction false} LoseWallet(init: Storage, steps: seq<Step>, s: Storage, t: Thread, a: string, b: string)
      returns (more: seq<Step>, s': Storage)
    requires TwoWallets(a, b) && Whole(s, a, b) && Stands(init, steps, NETWORK + ":" + a, s, t)
    ensures s' == s.(wallets := s'.wallets, selection := s'.selection) && Halved(s', a, b)
    ensures Stands(init, more, NETWORK + ":" + a, s', t)
  {
    var id := NETWORK + ":" + a;
    var lose, select := SetWallets(Wallets(None, Some(b))), SetSelection(Some(SelectionOf(a)));
    var lost := s.(wallets := Wallets(None, Some(b)));
    s' := lost.(selection := Some(SelectionOf(a)));
    NeverTheLostOne(lost, a, b);
    NeverTheLostOne(s', a, b);
    DeviceChanges(init, steps, lose, id, s, t);
    DeviceChanges(init, steps + [lose], select, id, lost, t);
    more := steps + [lose] + [select];
  }

  /** It comes back, and nothing is selected. */
  lemma {:induction false} WalletReturns(init: Storage, steps: seq<Step>, s: Storage, t: Thread, a: string, b: string)
      returns (more: seq<Step>, s': Storage)
    requires TwoWallets(a, b) && Halved(s, a, b) && Stands(init, steps, NETWORK + ":" + a, s, t)
    ensures s' == s.(wallets := s'.wallets, selection := s'.selection) && Whole(s', a, b)
    ensures Stands(init, more, NETWORK + ":" + a, s', t)
  {
    var id := NETWORK + ":" + a;
    var forget, restore := SetSelection(None), SetWallets(Wallets(Some(a), Some(b)));
    var forgotten := s.(selection := None);
    s' := forgotten.(wallets := Wallets(Some(a), Some(b)));
    NeverTheLostOne(forgotten, a, b);
    NeverTheLostOne(s', a, b);
    DeviceChanges(init, steps, forget, id, s, t);
    DeviceChanges(init, steps + [forget], restore, id, forgotten, t);
    more := steps + [forget] + [restore];
  }

  // ---- One torn read ----

  /** While a thread is reading, a leaves and is selected: the thread resolves to it and runs on. */
  lemma {:induction false} TornRead(init: Storage, steps: seq<Step>, s: Storage, use: Purpose, a: string, b: string)
      returns (more: seq<Step>, s': Storage)
    requires TwoWallets(a, b) && Whole(s, a, b)
    requires Stands(init, steps, NETWORK + ":" + a, s, Resolving(NothingYet, use))
    ensures s' == s.(wallets := s'.wallets, selection := s'.selection) && Halved(s', a, b)
    ensures Stands(init, more, NETWORK + ":" + a, s', AfterResolving(use, Some(ClassicAccount(a)), 0))
  {
    var id := NETWORK + ":" + a;
    var both := Resolving(Both(Wallets(Some(a), Some(b))), use);
    RunsOn(init, steps, id, s, Resolving(NothingYet, use));
    RunsOn(init, steps + [RUN], id, s, Resolving(OnlyClassic(Some(a)), use));
    more, s' := LoseWallet(init, steps + [RUN] + [RUN], s, both, a, b);
    RunsOn(init, more, id, s', both);
    TheSelectedOne(a, b);
    more := more + [RUN];
  }

  // ---- The whole run ----

  /** A fresh device with both wallets, no selection, and one origin in the legacy allowlist. */
  function LegacyDevice(origin: string, a: string, b: string): Storage {
    Storage(Wallets(Some(a), Some(b)), None, map[], [origin], false, map[])
  }

  /** A page of the origin asks for the address, and the migration begins to resolve the account. */
  lemma {:induction false} LegacyRequest(r: Request, a: string, b: string) returns (steps: seq<Step>)
    requires TwoWallets(a, b) && "http" <= r.origin
    ensures var init := LegacyDevice(r.origin, a, b);
            Stands(init, steps, NETWORK + ":" + a, init, Resolving(NothingYet, ForMigration(r, [r.origin])))
  {
    var init := LegacyDevice(r.origin, a, b);
    var id := NETWORK + ":" + a;
    NeverTheLostOne(init, a, b);
    assert NeverActive(init, [], id);
    StandsNext(init, [], PageRequest(r), id, init, MigrationFlag(r));
    steps := [] + [PageRequest(r)];
    RunsOn(init, steps, id, init, MigrationFlag(r));
    RunsOn(init, steps + [RUN], id, init, MigrationOrigins(r));
    steps := steps + [RUN] + [RUN];
  }

  /** With the passkey alone on the device the migration counts one wallet. */
  lemma {:induction false} CountOne(
      init: Storage, steps: seq<Step>, id: string, s: Storage, r: Request, owner: Account, b: string)
    requires b != "" && s.wallets == Wallets(None, Some(b))
    requires Stands(init, steps, id, s, MigrationCount(NothingYet, r, [r.origin], Some(owner)))
    ensures Stands(init, steps + [RUN] + [RUN], id, s, MigrationConsents(r, [r.origin], owner))
  {
    RunsOn(init, steps, id, s, MigrationCount(NothingYet, r, [r.origin], Some(owner)));
    RunsOn(init, steps + [RUN], id, s, MigrationCount(OnlyClassic(None), r, [r.origin], Some(owner)));
    assert |ListAccounts(s.wallets)| == 1;
  }

  /** And it grants to the account it has resolved. */
  lemma {:induction false} WriteGrant(
      init: Storage, steps: seq<Step>, id: string, s: Storage, r: Request, owner: Account)
      returns (more: seq<Step>, s': Storage)
    requires Stands(init, steps, id, s, MigrationConsents(r, [r.origin], owner))
    ensures s' == s.(consents := Merge(s.consents, [r.origin], owner), migrated := true, allowlist := [])
    ensures Stands(init, more, id, s', Resolving(NothingYet, ForRequest(r)))
  {
    var merged := Merge(s.consents, [r.origin], owner);
    var written := s.(consents := merged, migrated := true);
    RunsOn(init, steps, id, s, MigrationConsents(r, [r.origin], owner));
    RunsOn(init, steps + [RUN], id, s, MigrationWrite(r, Some(merged), true));
    RunsOn(init, steps + [RUN] + [RUN], id, written, MigrationRemove(r));
    more, s' := steps + [RUN] + [RUN] + [RUN], written.(allowlist := []);
  }

  lemma {:induction false} MergeGrants(consents: Consents, origin: string, owner: Account, now: int)
    ensures HasConsent(Merge(consents, [origin], owner), origin, owner, now)
  {
  }

  /** The migration grants to an account that is not on the device when it counts one wallet. */
  lemma {:induction false} TornMigration(r: Request, a: string, b: string) returns (steps: seq<Step>, s: Storage)
    requires TwoWallets(a, b) && "http" <= r.origin
    ensures Stands(LegacyDevice(r.origin, a, b), steps, NETWORK + ":" + a, s, Resolving(NothingYet, ForRequest(r)))
    ensures Halved(s, a, b) && s.consents == Merge(map[], [r.origin], ClassicAccount(a))
  {
    var init := LegacyDevice(r.origin, a, b);
    var id := NETWORK + ":" + a;
    steps := LegacyRequest(r, a, b);
    steps, s := TornRead(init, steps, init, ForMigration(r, [r.origin]), a, b);
    CountOne(init, steps, id, s, r, ClassicAccount(a), b);
    steps, s := WriteGrant(init, steps + [RUN] + [RUN], id, s, r, ClassicAccount(a));
  }

  /**
   * The stronger reading is false of torn runs: for any two wallets and any page there is a run, on
   * a device without consents, that reveals an address whose account was active at no moment.
   */
  lemma {:induction false} TornRunRevealsInactiveAccount(origin: string, a: string, b: string)
      returns (steps: seq<Step>)
    requires TwoWallets(a, b) && "http" <= origin
    ensures var init := LegacyDevice(origin, a, b);
            && Fresh(init)
            && Exec(init, steps).threads == [Revealed(origin, a)]
            && !WasActive(init, steps, NETWORK + ":" + a)
  {
    var r := Request(origin, GetAddress, None);
    var init := LegacyDevice(origin, a, b);
    var owner := ClassicAccount(a);
    var id := NETWORK + ":" + a;
    var s: Storage;
    steps, s := TornMigration(r, a, b);
    steps, s := WalletReturns(init, steps, s, Resolving(NothingYet, ForRequest(r)), a, b);
    steps, s := TornRead(init, steps, s, ForRequest(r), a, b);
    MergeGrants(map[], origin, owner, 0);
    RunsOn(init, steps, id, s, ReadConsent(r, owner));
    steps := steps + [RUN];
  }
}
