/**
 * Who may learn an address without a prompt. Page requests and ceremony results run as threads
 * over chrome.storage, one read or write of one key per step; in between, wallets appear and
 * disappear, the selection changes, consents are revoked, and any thread may die. Resolving the
 * active account takes three reads, so it may see wallets and a selection that never coexisted.
 */
module ConsentFlow {
  import opened Basics

  const NETWORK: string := "stellar-testnet"
  const REQUEST_TTL_MS: int := 5 * 60 * 1000

  datatype Account = Account(id: string, address: string, kind: char, signer: string)

  /** The device's wallets: the oldest classic key and the passkey contract. */
  datatype Wallets = Wallets(classic: Option<string>, passkey: Option<string>)

  /** The record under vf_active_account_v1. */
  datatype Selection = Selection(version: int, network: string, id: string, address: string, kind: char, signer: string)

  datatype Consent = Consent(origin: string, accountId: string, accountAddress: string, expiresAt: Option<int>)
  type Consents = map<string, Consent>

  /** The stashed request; account is None when none was unambiguously active. */
  datatype Snapshot = Snapshot(origin: string, account: Option<Account>, wantAddress: Option<string>, expiresAt: int)

  datatype Storage = Storage(
    wallets: Wallets, selection: Option<Selection>, consents: Consents,
    allowlist: seq<string>, migrated: bool, session: map<nat, Snapshot>)

  // ---- Resolving the active account ----

  function ClassicAccount(address: string): Account {
    Account(NETWORK + ":" + address, address, 'G', "classic-ed25519")
  }

  function PasskeyAccount(address: string): Account {
    Account(NETWORK + ":" + address, address, 'C', "passkey-secp256r1")
  }

  /** An empty address counts as no wallet. */
  predicate Holds(address: Option<string>) {
    address.Some? && address.value != ""
  }

  function ListAccounts(w: Wallets): seq<Account> {
    (if Holds(w.classic) then [ClassicAccount(w.classic.value)] else []) +
    (if Holds(w.passkey) then [PasskeyAccount(w.passkey.value)] else [])
  }

  /** The map from id to account; a later account replaces an earlier one of the same id. */
  function ById(w: Wallets, id: string): Option<Account> {
    if Holds(w.passkey) && PasskeyAccount(w.passkey.value).id == id then Some(PasskeyAccount(w.passkey.value))
    else if Holds(w.classic) && ClassicAccount(w.classic.value).id == id then Some(ClassicAccount(w.classic.value))
    else None
  }

  predicate ValidSelection(p: Selection, w: Wallets) {
    && p.version == 1 && p.network == NETWORK
    && p.id != "" && p.address != "" && p.signer != ""
    && ById(w, p.id).Some?
    && ById(w, p.id).value.kind == p.kind
    && ById(w, p.id).value.signer == p.signer
    && ById(w, p.id).value.address == p.address
  }

  /** The account that these wallets and this selection amount to. */
  function Resolved(w: Wallets, selection: Option<Selection>): Option<Account> {
    if selection.Some? && ValidSelection(selection.value, w) then ById(w, selection.value.id)
    else if |ListAccounts(w)| == 1 then Some(ListAccounts(w)[0])
    else None
  }

  /** The account that is active at one instant. */
  function ActiveAccount(s: Storage): Option<Account> {
    Resolved(s.wallets, s.selection)
  }

  /** What has been read of the two wallet keys, which are asked for together and answered in either order. */
  datatype Lookup =
    | NothingYet
    | OnlyClassic(classic: Option<string>)
    | OnlyPasskey(passkey: Option<string>)
    | Both(wallets: Wallets)

  /** One more wallet key is read. */
  function ReadWallet(w: Wallets, got: Lookup, passkeyFirst: bool): Lookup {
    match got
    case NothingYet => if passkeyFirst then OnlyPasskey(w.passkey) else OnlyClassic(w.classic)
    case OnlyClassic(classic) => Both(Wallets(classic, w.passkey))
    case OnlyPasskey(passkey) => Both(Wallets(w.classic, passkey))
    case Both(_) => got
  }

  // ---- Consent records and snapshots ----

  function ConsentId(origin: string, accountId: string): string {
    origin + "::" + accountId
  }

  predicate IsFresh(c: Consent, now: int) {
    c.expiresAt.None? || now < c.expiresAt.value
  }

  predicate HasConsent(consents: Consents, origin: string, account: Account, now: int) {
    var key := ConsentId(origin, account.id);
    && key in consents
    && consents[key].origin == origin && consents[key].accountId == account.id
    && IsFresh(consents[key], now)
  }

  function GrantOf(origin: string, account: Account): Consent {
    Consent(origin, account.id, account.address, None)
  }

  predicate SnapshotValid(snap: Snapshot, active: Option<Account>, now: int) {
    && snap.origin != "" && snap.account.Some?
    && snap.account.value.id != "" && snap.account.value.address != ""
    && now <= snap.expiresAt
    && active.Some? && active.value.id == snap.account.value.id
    && (Holds(snap.wantAddress) ==> snap.wantAddress == Some(snap.account.value.address))
  }

  // ---- Threads ----

  datatype Method = IsConnected | GetAddress | SignTransaction | SignAuthEntry
  datatype Request = Request(origin: string, asks: Method, wantAddress: Option<string>)

  /** What an account is resolved for. */
  datatype Purpose =
    | ForMigration(r: Request, origins: seq<string>)
    | ForRequest(r: Request)
    | ForCeremony(rid: nat, snap: Snapshot)

  datatype Thread =
    // handleProviderMessage: the legacy migration, then the request
    | MigrationFlag(r: Request)
    | MigrationOrigins(r: Request)
    | MigrationCount(got: Lookup, r: Request, origins: seq<string>, account: Option<Account>)
    | MigrationConsents(r: Request, origins: seq<string>, owner: Account)
    | MigrationWrite(r: Request, merged: Option<Consents>, clear: bool)
    | MigrationRemove(r: Request)
    | ReadConsent(r: Request, reader: Account)
    | Stash(r: Request, asked: Option<Account>)
    // handleMessage: a ceremony result with a rid
    | ReadSnapshot(rid: nat, ok: bool)
    | RemoveSnapshot(rid: nat, ok: bool, found: Option<Snapshot>)
    | GrantRead(origin: string, grantee: Account)
    | GrantWrite(updated: Consents)
    // resolveActiveAccountLocal, on behalf of either handler
    | Resolving(got: Lookup, use: Purpose)
    // over: silently answered with an address, or in any other way
    | Revealed(to: string, address: string)
    | Over

  /** The consents of every legacy origin for one account, written over those already there. */
  function Merge(consents: Consents, origins: seq<string>, owner: Account): Consents {
    if origins == [] then consents
    else
      var origin := origins[|origins| - 1];
      Merge(consents, origins[..|origins| - 1], owner)[ConsentId(origin, owner.id) := GrantOf(origin, owner)]
  }

  /** The account has been resolved, and the thread runs on to its next storage operation. */
  function AfterResolving(use: Purpose, account: Option<Account>, now: int): Thread {
    match use
    case ForMigration(r, origins) => MigrationCount(NothingYet, r, origins, account)
    case ForRequest(r) =>
      if account.Some? && (r.asks.IsConnected? || r.asks.GetAddress?) then ReadConsent(r, account.value)
      else if r.asks.IsConnected? then Over
      else Stash(r, account)
    case ForCeremony(_, snap) =>
      if SnapshotValid(snap, account, now) then GrantRead(snap.origin, account.value) else Over
  }

  /** Thread me performs its next storage operation and runs on to the following one. */
  function RunThread(s: Storage, t: Thread, me: nat, now: int, passkeyFirst: bool): (Storage, Thread) {
    match t
    case MigrationFlag(r) => (s, if s.migrated then Resolving(NothingYet, ForRequest(r)) else MigrationOrigins(r))
    case MigrationOrigins(r) =>
      ( s,
        if s.allowlist == [] then MigrationWrite(r, None, false)
        else Resolving(NothingYet, ForMigration(r, s.allowlist)) )
    case MigrationCount(got, r, origins, account) =>
      var more := ReadWallet(s.wallets, got, passkeyFirst);
      ( s,
        if !more.Both? then MigrationCount(more, r, origins, account)
        else if account.Some? && |ListAccounts(more.wallets)| == 1 then MigrationConsents(r, origins, account.value)
        else MigrationWrite(r, None, true) )
    case MigrationConsents(r, origins, owner) =>
      (s, MigrationWrite(r, Some(Merge(s.consents, origins, owner)), true))
    case MigrationWrite(r, merged, clear) =>
      ( s.(consents := if merged.Some? then merged.value else s.consents, migrated := true),
        if clear then MigrationRemove(r) else Resolving(NothingYet, ForRequest(r)) )
    case MigrationRemove(r) => (s.(allowlist := []), Resolving(NothingYet, ForRequest(r)))
    case Resolving(got, use) =>
      ( s,
        if got.Both? then AfterResolving(use, Resolved(got.wallets, s.selection), now)
        else Resolving(ReadWallet(s.wallets, got, passkeyFirst), use) )
    case ReadConsent(r, reader) =>
      ( s,
        if HasConsent(s.consents, r.origin, reader, now) then Revealed(r.origin, reader.address)
        else if r.asks.IsConnected? then Over
        else Stash(r, Some(reader)) )
    case Stash(r, asked) =>
      var snap := Snapshot(r.origin, asked, r.wantAddress, now + REQUEST_TTL_MS);
      (if asked.Some? && !SnapshotValid(snap, asked, now) then s else s.(session := s.session[me := snap]), Over)
    case ReadSnapshot(rid, ok) =>
      (s, RemoveSnapshot(rid, ok, if rid in s.session then Some(s.session[rid]) else None))
    case RemoveSnapshot(rid, ok, found) =>
      ( s.(session := s.session - {rid}),
        if ok && found.Some? then Resolving(NothingYet, ForCeremony(rid, found.value)) else Over )
    case GrantRead(origin, grantee) =>
      (s, GrantWrite(s.consents[ConsentId(origin, grantee.id) := GrantOf(origin, grantee)]))
    case GrantWrite(updated) => (s.(consents := updated), Over)
    case _ => (s, t)
  }

  // ---- Runs ----

  datatype State = State(storage: Storage, threads: seq<Thread>)

  datatype Step =
    | PageRequest(r: Request)
    | CeremonyResult(forRid: nat, success: bool)
    | Run(thread: nat, now: int, passkeyFirst: bool)
    | Die(victim: nat)
    | SetWallets(wallets: Wallets)
    | SetSelection(selection: Option<Selection>)
    | Revoke(key: string)
    | DropSnapshot(stale: nat)

  function Apply(s: State, step: Step): State {
    match step
    case PageRequest(r) => if "http" <= r.origin then s.(threads := s.threads + [MigrationFlag(r)]) else s
    case CeremonyResult(rid, success) => s.(threads := s.threads + [ReadSnapshot(rid, success)])
    case Run(i, now, first) =>
      if i < |s.threads| then
        var (storage, t) := RunThread(s.storage, s.threads[i], i, now, first);
        State(storage, s.threads[i := t])
      else s
    case Die(i) => if i < |s.threads| && !s.threads[i].Revealed? then s.(threads := s.threads[i := Over]) else s
    case SetWallets(w) => s.(storage := s.storage.(wallets := w))
    case SetSelection(p) => s.(storage := s.storage.(selection := p))
    case Revoke(key) => s.(storage := s.storage.(consents := s.storage.consents - {key}))
    case DropSnapshot(rid) => s.(storage := s.storage.(session := s.storage.session - {rid}))
  }

  /** A fresh profile may carry wallets and a legacy allowlist, but no consents and no requests. */
  predicate Fresh(init: Storage) {
    init.consents == map[] && init.session == map[]
  }

  function Exec(init: Storage, steps: seq<Step>): State {
    if steps == [] then State(init, []) else Apply(Exec(init, steps[..|steps| - 1]), steps[|steps| - 1])
  }

  // ---- What justifies a reveal ----

  /**
   * This step reads the selection for a successful ceremony whose snapshot names the origin and the
   * account id, and resolves to the account with that id: selected now, or the sole one in the
   * wallets this thread read before.
   */
  predicate CeremonyJustifies(s: State, step: Step, origin: string, id: string) {
    && step.Run? && step.thread < |s.threads|
    && s.threads[step.thread].Resolving? && s.threads[step.thread].got.Both?
    && s.threads[step.thread].use.ForCeremony?
    && var t := s.threads[step.thread];
    && SnapshotValid(t.use.snap, Resolved(t.got.wallets, s.storage.selection), step.now)
    && t.use.snap.origin == origin && t.use.snap.account.value.id == id
  }

  /**
   * This step ends a listing of the legacy migration that counts exactly one wallet, and carries the
   * origin over to the account with this id, which the thread had resolved before.
   */
  predicate MigrationJustifies(s: State, step: Step, origin: string, id: string) {
    && step.Run? && step.thread < |s.threads| && s.threads[step.thread].MigrationCount?
    && var t := s.threads[step.thread];
    && origin in t.origins && t.account.Some? && t.account.value.id == id
    && var more := ReadWallet(s.storage.wallets, t.got, step.passkeyFirst);
    && more.Both? && |ListAccounts(more.wallets)| == 1
  }

  ghost predicate JustifiedAt(init: Storage, steps: seq<Step>, j: nat, origin: string, id: string)
    requires j < |steps|
  {
    var s := Exec(init, steps[..j]);
    CeremonyJustifies(s, steps[j], origin, id) || MigrationJustifies(s, steps[j], origin, id)
  }

  ghost predicate Justified(init: Storage, steps: seq<Step>, origin: string, id: string) {
    exists j :: 0 <= j < |steps| && JustifiedAt(init, steps, j, origin, id)
  }

  predicate ActiveAt(init: Storage, steps: seq<Step>, id: string) {
    var a := ActiveAccount(Exec(init, steps).storage);
    a.Some? && a.value.id == id
  }

  /** The account with this id was the active one at some moment of the run. */
  ghost predicate WasActive(init: Storage, steps: seq<Step>, id: string) {
    exists j :: 0 <= j <= |steps| && ActiveAt(init, steps[..j], id)
  }

  lemma {:induction false} LaterStillJustified(init: Storage, steps: seq<Step>, step: Step, origin: string, id: string)
    requires Justified(init, steps, origin, id)
    ensures Justified(init, steps + [step], origin, id)
  {
    var j :| 0 <= j < |steps| && JustifiedAt(init, steps, j, origin, id);
    assert (steps + [step])[..j] == steps[..j];
    assert JustifiedAt(init, steps + [step], j, origin, id);
  }

  lemma {:induction false} LaterStillActive(init: Storage, steps: seq<Step>, step: Step, id: string)
    requires WasActive(init, steps, id)
    ensures WasActive(init, steps + [step], id)
  {
    var j :| 0 <= j <= |steps| && ActiveAt(init, steps[..j], id);
    assert (steps + [step])[..j] == steps[..j];
  }

  // ---- The invariant ----

  ghost predicate RecordsOk(init: Storage, steps: seq<Step>, consents: Consents) {
    forall key :: key in consents ==> Justified(init, steps, consents[key].origin, consents[key].accountId)
  }

  predicate Canonical(a: Account) {
    a.id == NETWORK + ":" + a.address
  }

  ghost predicate ThreadOk(init: Storage, steps: seq<Step>, t: Thread) {
    match t
    case MigrationConsents(_, origins, owner) =>
      forall o :: o in origins ==> Justified(init, steps, o, owner.id)
    case MigrationWrite(_, merged, _) => merged.Some? ==> RecordsOk(init, steps, merged.value)
    case ReadConsent(_, reader) => Canonical(reader)
    case GrantRead(origin, grantee) => Justified(init, steps, origin, grantee.id)
    case GrantWrite(updated) => RecordsOk(init, steps, updated)
    case Revealed(to, address) => Justified(init, steps, to, NETWORK + ":" + address)
    case _ => true
  }

  ghost predicate Inv(init: Storage, steps: seq<Step>) {
    var s := Exec(init, steps);
    && RecordsOk(init, steps, s.storage.consents)
    && forall i :: 0 <= i < |s.threads| ==> ThreadOk(init, steps, s.threads[i])
  }

  lemma {:induction false} RecordsStayOk(init: Storage, steps: seq<Step>, step: Step, consents: Consents)
    requires RecordsOk(init, steps, consents)
    ensures RecordsOk(init, steps + [step], consents)
  {
    forall key | key in consents
      ensures Justified(init, steps + [step], consents[key].origin, consents[key].accountId)
    {
      LaterStillJustified(init, steps, step, consents[key].origin, consents[key].accountId);
    }
  }

  lemma {:induction false} ThreadStaysOk(init: Storage, steps: seq<Step>, step: Step, t: Thread)
    requires ThreadOk(init, steps, t)
    ensures ThreadOk(init, steps + [step], t)
  {
    match t
    case MigrationConsents(_, origins, owner) =>
      forall o | o in origins ensures Justified(init, steps + [step], o, owner.id) {
        LaterStillJustified(init, steps, step, o, owner.id);
      }
    case MigrationWrite(_, merged, _) =>
      if merged.Some? {
        RecordsStayOk(init, steps, step, merged.value);
      }
    case GrantRead(origin, grantee) => LaterStillJustified(init, steps, step, origin, grantee.id);
    case GrantWrite(updated) => RecordsStayOk(init, steps, step, updated);
    case Revealed(to, address) => LaterStillJustified(init, steps, step, to, NETWORK + ":" + address);
    case _ =>
  }

  lemma {:induction false} MergeOk(
      init: Storage, steps: seq<Step>, consents: Consents, origins: seq<string>, owner: Account)
    requires RecordsOk(init, steps, consents)
    requires forall o :: o in origins ==> Justified(init, steps, o, owner.id)
    ensures RecordsOk(init, steps, Merge(consents, origins, owner))
  {
    if origins != [] {
      MergeOk(init, steps, consents, origins[..|origins| - 1], owner);
    }
  }

  lemma {:induction false} RunKeepsRecords(init: Storage, steps: seq<Step>, i: nat, now: int, first: bool)
    requires Inv(init, steps) && i < |Exec(init, steps).threads|
    ensures var s := Exec(init, steps);
            RecordsOk(init, steps, RunThread(s.storage, s.threads[i], i, now, first).0.consents)
  {
    assert ThreadOk(init, steps, Exec(init, steps).threads[i]);
  }

  /** A listing that counts one wallet justifies every legacy origin for the account resolved before it. */
  lemma {:induction false} CountingJustifies(init: Storage, steps: seq<Step>, i: nat, now: int, first: bool)
    requires i < |Exec(init, steps).threads| && Exec(init, steps).threads[i].MigrationCount?
    requires var s := Exec(init, steps);
             var more := ReadWallet(s.storage.wallets, s.threads[i].got, first);
             s.threads[i].account.Some? && more.Both? && |ListAccounts(more.wallets)| == 1
    ensures var t := Exec(init, steps).threads[i];
            forall o :: o in t.origins ==> Justified(init, steps + [Run(i, now, first)], o, t.account.value.id)
  {
    var t := Exec(init, steps).threads[i];
    var after := steps + [Run(i, now, first)];
    assert after[..|steps|] == steps;
    forall o | o in t.origins ensures Justified(init, after, o, t.account.value.id) {
      assert JustifiedAt(init, after, |steps|, o, t.account.value.id);
    }
  }

  /** A ceremony whose snapshot is valid for the resolved account justifies its origin. */
  lemma {:induction false} CeremonyJustifiesGrant(init: Storage, steps: seq<Step>, i: nat, now: int, first: bool)
    requires i < |Exec(init, steps).threads| && Exec(init, steps).threads[i].Resolving?
    requires var t := Exec(init, steps).threads[i]; t.got.Both? && t.use.ForCeremony?
    ensures var s := Exec(init, steps);
            var account := Resolved(s.threads[i].got.wallets, s.storage.selection);
            var snap := s.threads[i].use.snap;
            SnapshotValid(snap, account, now)
            ==> Justified(init, steps + [Run(i, now, first)], snap.origin, account.value.id)
  {
    var s := Exec(init, steps);
    var snap := s.threads[i].use.snap;
    var after := steps + [Run(i, now, first)];
    assert after[..|steps|] == steps;
    if SnapshotValid(snap, Resolved(s.threads[i].got.wallets, s.storage.selection), now) {
      assert JustifiedAt(init, after, |steps|, snap.origin, snap.account.value.id);
    }
  }

  lemma {:induction false} ResolvedIsCanonical(w: Wallets, selection: Option<Selection>)
    ensures Resolved(w, selection).Some? ==> Canonical(Resolved(w, selection).value)
  {
  }

  lemma {:induction false} RunKeepsThread(init: Storage, steps: seq<Step>, i: nat, now: int, first: bool)
    requires Inv(init, steps) && i < |Exec(init, steps).threads|
    ensures var s := Exec(init, steps);
            ThreadOk(init, steps + [Run(i, now, first)], RunThread(s.storage, s.threads[i], i, now, first).1)
  {
    var s := Exec(init, steps);
    var step := Run(i, now, first);
    var t := s.threads[i];
    assert ThreadOk(init, steps, t);
    ThreadStaysOk(init, steps, step, t);
    RecordsStayOk(init, steps, step, s.storage.consents);
    match t
    case MigrationCount(got, _, origins, account) =>
      var more := ReadWallet(s.storage.wallets, got, first);
      if account.Some? && more.Both? && |ListAccounts(more.wallets)| == 1 {
        CountingJustifies(init, steps, i, now, first);
      }
    case MigrationConsents(_, origins, owner) => MergeOk(init, steps + [step], s.storage.consents, origins, owner);
    case Resolving(got, use) =>
      if got.Both? {
        ResolvedIsCanonical(got.wallets, s.storage.selection);
        if use.ForCeremony? {
          CeremonyJustifiesGrant(init, steps, i, now, first);
        }
      }
    case _ =>
  }

  /** One storage operation of a thread keeps both the records and the thread justified. */
  lemma {:induction false} RunKeepsOk(init: Storage, steps: seq<Step>, i: nat, now: int, first: bool)
    requires Inv(init, steps) && i < |Exec(init, steps).threads|
    ensures var s := Exec(init, steps);
            var (storage, t) := RunThread(s.storage, s.threads[i], i, now, first);
            && RecordsOk(init, steps + [Run(i, now, first)], storage.consents)
            && ThreadOk(init, steps + [Run(i, now, first)], t)
  {
    var s := Exec(init, steps);
    RunKeepsRecords(init, steps, i, now, first);
    RunKeepsThread(init, steps, i, now, first);
    RecordsStayOk(
      init, steps, Run(i, now, first), RunThread(s.storage, s.threads[i], i, now, first).0.consents);
  }

  lemma {:induction false} ApplyKeepsInv(init: Storage, steps: seq<Step>, step: Step)
    requires Inv(init, steps)
    ensures Inv(init, steps + [step])
  {
    var s := Exec(init, steps);
    assert (steps + [step])[..|steps|] == steps;
    var s' := Apply(s, step);
    RecordsStayOk(init, steps, step, s.storage.consents);
    if step.Run? && step.thread < |s.threads| {
      RunKeepsOk(init, steps, step.thread, step.now, step.passkeyFirst);
    }
    forall i | 0 <= i < |s'.threads| ensures ThreadOk(init, steps + [step], s'.threads[i]) {
      if i < |s.threads| {
        ThreadStaysOk(init, steps, step, s.threads[i]);
      }
    }
  }

  lemma {:induction false} ReachableInv(init: Storage, steps: seq<Step>)
    requires Fresh(init)
    ensures Inv(init, steps)
  {
    if steps != [] {
      ReachableInv(init, steps[..|steps| - 1]);
      ApplyKeepsInv(init, steps[..|steps| - 1], steps[|steps| - 1]);
      assert steps[..|steps| - 1] + [steps[|steps| - 1]] == steps;
    }
  }

  // ---- Main results ----

  /**
   * Over any whole run: an address reaches an origin silently only if an earlier step completed a
   * successful ceremony of that origin with the account of that address resolved, or carried the
   * origin over in the legacy migration with exactly one wallet counted.
   */
  lemma {:induction false} RevealsAreJustified(init: Storage, steps: seq<Step>, i: nat)
    requires Fresh(init) && i < |Exec(init, steps).threads| && Exec(init, steps).threads[i].Revealed?
    ensures var t := Exec(init, steps).threads[i];
            Justified(init, steps, t.to, NETWORK + ":" + t.address)
  {
    ReachableInv(init, steps);
    assert ThreadOk(init, steps, Exec(init, steps).threads[i]);
  }

  // ---- Every account resolved was on the device when its thread read its wallet ----

  predicate ReadAt(init: Storage, steps: seq<Step>, k: nat, i: nat, id: string)
    requires k < |steps|
  {
    steps[k].Run? && steps[k].thread == i && ById(Exec(init, steps[..k]).storage.wallets, id).Some?
  }

  /** An earlier step of thread i found a wallet with this id on the device. */
  ghost predicate ReadBy(init: Storage, steps: seq<Step>, i: nat, id: string) {
    exists k :: 0 <= k < |steps| && ReadAt(init, steps, k, i, id)
  }

  /** The accounts read so far. */
  function Known(got: Lookup): seq<Account> {
    match got
    case NothingYet => []
    case OnlyClassic(classic) => ListAccounts(Wallets(classic, None))
    case OnlyPasskey(passkey) => ListAccounts(Wallets(None, passkey))
    case Both(w) => ListAccounts(w)
  }

  /** What the thread has read, or has resolved for the migration, it read itself. */
  ghost predicate Grounded(init: Storage, steps: seq<Step>, i: nat, t: Thread) {
    && (t.Resolving? ==> forall a :: a in Known(t.got) ==> ReadBy(init, steps, i, a.id))
    && (t.MigrationCount? && t.account.Some? ==> ReadBy(init, steps, i, t.account.value.id))
  }

  ghost predicate AllGrounded(init: Storage, steps: seq<Step>) {
    var s := Exec(init, steps);
    forall i :: 0 <= i < |s.threads| ==> Grounded(init, steps, i, s.threads[i])
  }

  lemma {:induction false} LaterStillRead(init: Storage, steps: seq<Step>, step: Step, i: nat, id: string)
    requires ReadBy(init, steps, i, id)
    ensures ReadBy(init, steps + [step], i, id)
  {
    var k :| 0 <= k < |steps| && ReadAt(init, steps, k, i, id);
    assert (steps + [step])[..k] == steps[..k];
    assert ReadAt(init, steps + [step], k, i, id);
  }

  lemma {:induction false} StaysGrounded(init: Storage, steps: seq<Step>, step: Step, i: nat, t: Thread)
    requires Grounded(init, steps, i, t)
    ensures Grounded(init, steps + [step], i, t)
  {
    if t.Resolving? {
      forall a | a in Known(t.got) ensures ReadBy(init, steps + [step], i, a.id) {
        LaterStillRead(init, steps, step, i, a.id);
      }
    } else if t.MigrationCount? && t.account.Some? {
      LaterStillRead(init, steps, step, i, t.account.value.id);
    }
  }

  /** A resolved account is one of those read, and whatever is read is on the device. */
  lemma {:induction false} ResolvedIsKnown(w: Wallets, selection: Option<Selection>)
    ensures Resolved(w, selection).Some? ==> Resolved(w, selection).value in Known(Both(w))
  {
  }

  lemma {:induction false} ReadsAreListed(w: Wallets, got: Lookup, first: bool, a: Account)
    requires a in Known(ReadWallet(w, got, first))
    ensures a in Known(got) || ById(w, a.id).Some?
  {
  }

  /** What a thread knows after a step it knew before, or finds on the device at that step. */
  ghost predicate Learns(w: Wallets, t: Thread, t': Thread) {
    && (t'.Resolving? ==>
          forall a :: a in Known(t'.got) ==> (t.Resolving? && a in Known(t.got)) || ById(w, a.id).Some?)
    && (t'.MigrationCount? && t'.account.Some? ==>
          || (t.MigrationCount? && t.account == t'.account)
          || (t.Resolving? && t'.account.value in Known(t.got)))
  }

  lemma {:induction false} RunLearns(s: Storage, t: Thread, me: nat, now: int, first: bool)
    ensures Learns(s.wallets, t, RunThread(s, t, me, now, first).1)
  {
    if t.Resolving? && t.got.Both? {
      ResolvedIsKnown(t.got.wallets, s.selection);
    } else if t.Resolving? {
      forall a | a in Known(ReadWallet(s.wallets, t.got, first))
        ensures a in Known(t.got) || ById(s.wallets, a.id).Some?
      {
        ReadsAreListed(s.wallets, t.got, first, a);
      }
    }
  }

  lemma {:induction false} LearningStaysGrounded(
      init: Storage, steps: seq<Step>, step: Step, i: nat, t: Thread, t': Thread)
    requires Grounded(init, steps, i, t) && step.Run? && step.thread == i
    requires Learns(Exec(init, steps).storage.wallets, t, t')
    ensures Grounded(init, steps + [step], i, t')
  {
    var after := steps + [step];
    StaysGrounded(init, steps, step, i, t);
    assert after[..|steps|] == steps && after[|steps|] == step;
    if t'.Resolving? {
      forall a | a in Known(t'.got) ensures ReadBy(init, after, i, a.id) {
        if !(t.Resolving? && a in Known(t.got)) {
          assert ReadAt(init, after, |steps|, i, a.id);
        }
      }
    }
  }

  lemma {:induction false} ThreadsAreGrounded(init: Storage, steps: seq<Step>)
    ensures AllGrounded(init, steps)
  {
    if steps != [] {
      var before, step := steps[..|steps| - 1], steps[|steps| - 1];
      ThreadsAreGrounded(init, before);
      assert before + [step] == steps;
      var s, s' := Exec(init, before), Exec(init, steps);
      if step.Run? && step.thread < |s.threads| {
        var t := s.threads[step.thread];
        RunLearns(s.storage, t, step.thread, step.now, step.passkeyFirst);
        assert Grounded(init, before, step.thread, t);
        LearningStaysGrounded(init, before, step, step.thread, t, s'.threads[step.thread]);
      }
      forall i | 0 <= i < |s'.threads| ensures Grounded(init, steps, i, s'.threads[i]) {
        if i < |s.threads| {
          StaysGrounded(init, before, step, i, s.threads[i]);
        }
      }
    }
  }

  /**
   * The account that justifies a reveal was on the device when the very thread that justifies it read
   * its wallet: listed at one step, and selected or sole at a later one of the same thread.
   */
  lemma {:induction false} JustifyingAccountsWereListed(
      init: Storage, steps: seq<Step>, j: nat, origin: string, id: string)
    requires j < |steps| && JustifiedAt(init, steps, j, origin, id)
    ensures ReadBy(init, steps[..j], steps[j].thread, id)
  {
    ThreadsAreGrounded(init, steps[..j]);
    var s := Exec(init, steps[..j]);
    var t := s.threads[steps[j].thread];
    assert Grounded(init, steps[..j], steps[j].thread, t);
    if t.Resolving? {
      ResolvedIsKnown(t.got.wallets, s.storage.selection);
    }
  }

  // ---- Exactly when the account resolved is the active one ----

  /** A selected account is still on the device as it was read; a sole one is still the only one there. */
  predicate StillThere(w: Wallets, s: Storage, a: Account) {
    if s.selection.Some? && ValidSelection(s.selection.value, w) then ById(s.wallets, a.id) == Some(a)
    else ListAccounts(s.wallets) == [a]
  }

  /**
   * The exact condition: the account that a thread resolves from wallets w is active at the instant
   * it reads the selection if and only if it is still there.
   */
  lemma {:induction false} ResolvedIsActiveExactly(w: Wallets, s: Storage, a: Account)
    requires Resolved(w, s.selection) == Some(a)
    ensures ActiveAccount(s) == Some(a) <==> StillThere(w, s, a)
  {
  }

  /** So a ceremony justifies a reveal while its account is active if and only if that account is still there. */
  lemma {:induction false} CeremonyIsActiveExactly(s: State, step: Step, origin: string, id: string)
    requires CeremonyJustifies(s, step, origin, id)
    ensures var w := s.threads[step.thread].got.wallets;
            var a := Resolved(w, s.storage.selection);
            && a.Some? && a.value.id == id
            && (ActiveAccount(s.storage) == a <==> StillThere(w, s.storage, a.value))
  {
    var w := s.threads[step.thread].got.wallets;
    ResolvedIsActiveExactly(w, s.storage, Resolved(w, s.storage.selection).value);
  }

  /** What has been read agrees with the wallets on the device. */
  predicate Agrees(got: Lookup, w: Wallets) {
    match got
    case NothingYet => true
    case OnlyClassic(classic) => classic == w.classic
    case OnlyPasskey(passkey) => passkey == w.passkey
    case Both(read) => read == w
  }

  /** A thread has read some wallet key, and is not done with it. */
  predicate Reading(t: Thread) {
    (t.Resolving? || t.MigrationCount?) && !t.got.NothingYet?
  }

  /** The wallets never change while some thread is between its reads; the selection may. */
  predicate Untorn(init: Storage, steps: seq<Step>) {
    steps == [] ||
    (var before, step := steps[..|steps| - 1], steps[|steps| - 1];
     && Untorn(init, before)
     && (step.SetWallets? ==>
           forall i :: 0 <= i < |Exec(init, before).threads| ==> !Reading(Exec(init, before).threads[i])))
  }

  ghost predicate ReadsAgree(s: State) {
    forall i :: 0 <= i < |s.threads| && Reading(s.threads[i]) ==> Agrees(s.threads[i].got, s.storage.wallets)
  }

  lemma {:induction false} RunKeepsWallets(s: Storage, t: Thread, step: Step)
    requires step.Run? && (Reading(t) ==> Agrees(t.got, s.wallets))
    ensures var (s', t') := RunThread(s, t, step.thread, step.now, step.passkeyFirst);
            s'.wallets == s.wallets && (Reading(t') ==> Agrees(t'.got, s'.wallets))
  {
  }

  lemma {:induction false} UntornReadsAgree(init: Storage, steps: seq<Step>)
    requires Untorn(init, steps)
    ensures ReadsAgree(Exec(init, steps))
  {
    if steps != [] {
      var before, step := steps[..|steps| - 1], steps[|steps| - 1];
      UntornReadsAgree(init, before);
      if step.Run? && step.thread < |Exec(init, before).threads| {
        RunKeepsWallets(Exec(init, before).storage, Exec(init, before).threads[step.thread], step);
      }
    }
  }

  /** In an untorn run whatever account a thread has resolved for the migration was active. */
  ghost predicate ActiveWhenResolved(init: Storage, steps: seq<Step>) {
    var s := Exec(init, steps);
    forall i :: 0 <= i < |s.threads| && s.threads[i].MigrationCount? && s.threads[i].account.Some?
      ==> WasActive(init, steps, s.threads[i].account.value.id)
  }

  lemma {:induction false} CountingFollowsResolving(s: Storage, t: Thread, me: nat, now: int, first: bool)
    ensures var t' := RunThread(s, t, me, now, first).1;
            t'.MigrationCount? ==>
              || (t.MigrationCount? && t'.account == t.account)
              || (t.Resolving? && t.got.Both? && t'.account == Resolved(t.got.wallets, s.selection))
  {
  }

  lemma {:induction false} UntornAccountsWereActive(init: Storage, steps: seq<Step>)
    requires Untorn(init, steps)
    ensures ActiveWhenResolved(init, steps)
  {
    if steps != [] {
      var before, step := steps[..|steps| - 1], steps[|steps| - 1];
      UntornAccountsWereActive(init, before);
      UntornReadsAgree(init, before);
      assert before + [step] == steps;
      var s, s' := Exec(init, before), Exec(init, steps);
      forall i | 0 <= i < |s'.threads| && s'.threads[i].MigrationCount? && s'.threads[i].account.Some?
        ensures WasActive(init, steps, s'.threads[i].account.value.id)
      {
        var id := s'.threads[i].account.value.id;
        if step.Run? && step.thread == i {
          CountingFollowsResolving(s.storage, s.threads[i], i, step.now, step.passkeyFirst);
        }
        if s.threads[i].Resolving? {
          assert ActiveAt(init, steps[..|before|], id);
        } else {
          LaterStillActive(init, before, step, id);
        }
      }
    }
  }

  lemma {:induction false} PrefixOfPrefix(steps: seq<Step>, j: nat, k: nat)
    requires k <= j <= |steps|
    ensures steps[..j][..k] == steps[..k]
  {
  }

  lemma {:induction false} UntornPrefix(init: Storage, steps: seq<Step>, j: nat)
    requires Untorn(init, steps) && j <= |steps|
    ensures Untorn(init, steps[..j])
  {
    if j < |steps| {
      UntornPrefix(init, steps[..|steps| - 1], j);
      PrefixOfPrefix(steps, |steps| - 1, j);
    } else {
      assert steps[..j] == steps;
    }
  }

  /** In an untorn run a ceremony justifies while its account is active; a migration, while one wallet exists. */
  lemma {:induction false} UntornReveals(init: Storage, steps: seq<Step>, j: nat, origin: string, id: string)
    requires Untorn(init, steps) && j < |steps| && JustifiedAt(init, steps, j, origin, id)
    ensures var s := Exec(init, steps[..j]);
            && (CeremonyJustifies(s, steps[j], origin, id) ==> ActiveAt(init, steps[..j], id))
            && (MigrationJustifies(s, steps[j], origin, id) ==> |ListAccounts(s.storage.wallets)| == 1)
  {
    UntornPrefix(init, steps, j);
    UntornReadsAgree(init, steps[..j]);
  }

  /** In an untorn run the account of a revealed address was the active one at some moment. */
  lemma {:induction false} RevealedAccountsWereActive(init: Storage, steps: seq<Step>, i: nat)
    requires Fresh(init) && Untorn(init, steps)
    requires i < |Exec(init, steps).threads| && Exec(init, steps).threads[i].Revealed?
    ensures WasActive(init, steps, NETWORK + ":" + Exec(init, steps).threads[i].address)
  {
    RevealsAreJustified(init, steps, i);
    var t := Exec(init, steps).threads[i];
    var id := NETWORK + ":" + t.address;
    var j :| 0 <= j < |steps| && JustifiedAt(init, steps, j, t.to, id);
    UntornReveals(init, steps, j, t.to, id);
    if !CeremonyJustifies(Exec(init, steps[..j]), steps[j], t.to, id) {
      UntornPrefix(init, steps, j);
      UntornAccountsWereActive(init, steps[..j]);
      var k :| 0 <= k <= j && ActiveAt(init, steps[..j][..k], id);
      PrefixOfPrefix(steps, j, k);
    }
  }

  // ---- Where a validated snapshot comes from ----

  /** Step j stashed this snapshot: the page request of thread rid came from its origin, with its account. */
  predicate StashedAt(init: Storage, steps: seq<Step>, j: nat, rid: nat, snap: Snapshot)
    requires j < |steps|
  {
    var s := Exec(init, steps[..j]);
    && steps[j].Run? && steps[j].thread == rid < |s.threads|
    && s.threads[rid].Stash?
    && s.threads[rid].r.origin == snap.origin && s.threads[rid].asked == snap.account
  }

  ghost predicate Asked(init: Storage, steps: seq<Step>, rid: nat, snap: Snapshot) {
    exists j :: 0 <= j < |steps| && StashedAt(init, steps, j, rid, snap)
  }

  ghost predicate SessionOk(init: Storage, steps: seq<Step>, session: map<nat, Snapshot>) {
    forall rid :: rid in session ==> Asked(init, steps, rid, session[rid])
  }

  ghost predicate ThreadAsked(init: Storage, steps: seq<Step>, t: Thread) {
    && (t.RemoveSnapshot? && t.found.Some? ==> Asked(init, steps, t.rid, t.found.value))
    && (t.Resolving? && t.use.ForCeremony? ==> Asked(init, steps, t.use.rid, t.use.snap))
  }

  ghost predicate SnapshotsOk(init: Storage, steps: seq<Step>) {
    var s := Exec(init, steps);
    && SessionOk(init, steps, s.storage.session)
    && forall i :: 0 <= i < |s.threads| ==> ThreadAsked(init, steps, s.threads[i])
  }

  lemma {:induction false} LaterStillAsked(init: Storage, steps: seq<Step>, step: Step, rid: nat, snap: Snapshot)
    requires Asked(init, steps, rid, snap)
    ensures Asked(init, steps + [step], rid, snap)
  {
    var j :| 0 <= j < |steps| && StashedAt(init, steps, j, rid, snap);
    assert (steps + [step])[..j] == steps[..j];
    assert StashedAt(init, steps + [step], j, rid, snap);
  }

  lemma {:induction false} SessionStaysOk(init: Storage, steps: seq<Step>, step: Step, session: map<nat, Snapshot>)
    requires SessionOk(init, steps, session)
    ensures SessionOk(init, steps + [step], session)
  {
    forall rid | rid in session ensures Asked(init, steps + [step], rid, session[rid]) {
      LaterStillAsked(init, steps, step, rid, session[rid]);
    }
  }

  lemma {:induction false} ThreadStaysAsked(init: Storage, steps: seq<Step>, step: Step, t: Thread)
    requires ThreadAsked(init, steps, t)
    ensures ThreadAsked(init, steps + [step], t)
  {
    if t.RemoveSnapshot? && t.found.Some? {
      LaterStillAsked(init, steps, step, t.rid, t.found.value);
    } else if t.Resolving? && t.use.ForCeremony? {
      LaterStillAsked(init, steps, step, t.use.rid, t.use.snap);
    }
  }

  /** How one thread step moves snapshots: from a stashed request into the session, and from there to a ceremony. */
  predicate SnapshotMoves(session: map<nat, Snapshot>, t: Thread, me: nat, session': map<nat, Snapshot>, t': Thread) {
    && (forall rid :: rid in session' ==>
          || (rid in session && session'[rid] == session[rid])
          || (rid == me && t.Stash? && session'[rid].origin == t.r.origin && session'[rid].account == t.asked))
    && (t'.RemoveSnapshot? && t' != t && t'.found.Some? ==> t'.rid in session && t'.found.value == session[t'.rid])
    && (t'.Resolving? && t'.use.ForCeremony? ==>
          || (t.Resolving? && t.use == t'.use)
          || (t.RemoveSnapshot? && t.rid == t'.use.rid && t.found == Some(t'.use.snap)))
  }

  lemma {:induction false} RunMovesSnapshots(s: Storage, t: Thread, me: nat, now: int, first: bool)
    ensures var (s', t') := RunThread(s, t, me, now, first); SnapshotMoves(s.session, t, me, s'.session, t')
  {
  }

  lemma {:induction false} MoveKeepsAsked(
      init: Storage, steps: seq<Step>, i: nat, now: int, first: bool, session: map<nat, Snapshot>, t: Thread)
    requires SnapshotsOk(init, steps) && i < |Exec(init, steps).threads|
    requires SnapshotMoves(Exec(init, steps).storage.session, Exec(init, steps).threads[i], i, session, t)
    ensures SessionOk(init, steps + [Run(i, now, first)], session) && ThreadAsked(init, steps + [Run(i, now, first)], t)
  {
    var s := Exec(init, steps);
    var step := Run(i, now, first);
    assert ThreadAsked(init, steps, s.threads[i]);
    SessionStaysOk(init, steps, step, s.storage.session);
    ThreadStaysAsked(init, steps, step, s.threads[i]);
    assert (steps + [step])[..|steps|] == steps;
    forall rid | rid in session ensures Asked(init, steps + [step], rid, session[rid]) {
      if rid !in s.storage.session || session[rid] != s.storage.session[rid] {
        assert StashedAt(init, steps + [step], |steps|, rid, session[rid]);
      }
    }
  }

  lemma {:induction false} ApplyKeepsAsked(init: Storage, steps: seq<Step>, step: Step)
    requires SnapshotsOk(init, steps)
    ensures SnapshotsOk(init, steps + [step])
  {
    var s := Exec(init, steps);
    assert (steps + [step])[..|steps|] == steps;
    var s' := Apply(s, step);
    SessionStaysOk(init, steps, step, s.storage.session);
    if step.Run? && step.thread < |s.threads| {
      RunMovesSnapshots(s.storage, s.threads[step.thread], step.thread, step.now, step.passkeyFirst);
      MoveKeepsAsked(
        init, steps, step.thread, step.now, step.passkeyFirst, s'.storage.session, s'.threads[step.thread]);
    }
    forall i | 0 <= i < |s'.threads| ensures ThreadAsked(init, steps + [step], s'.threads[i]) {
      if i < |s.threads| {
        ThreadStaysAsked(init, steps, step, s.threads[i]);
      }
    }
  }

  lemma {:induction false} SnapshotsWereAsked(init: Storage, steps: seq<Step>)
    requires Fresh(init)
    ensures SnapshotsOk(init, steps)
  {
    if steps != [] {
      SnapshotsWereAsked(init, steps[..|steps| - 1]);
      ApplyKeepsAsked(init, steps[..|steps| - 1], steps[|steps| - 1]);
      assert steps[..|steps| - 1] + [steps[|steps| - 1]] == steps;
    }
  }

  /** Step j stashes a request that page `origin` made while the account with this id answered for it. */
  predicate AskedBy(init: Storage, steps: seq<Step>, j: nat, rid: nat, origin: string, id: string)
    requires j < |steps|
  {
    var s := Exec(init, steps[..j]);
    && steps[j].Run? && steps[j].thread == rid < |s.threads|
    && s.threads[rid].Stash? && s.threads[rid].r.origin == origin
    && s.threads[rid].asked.Some? && s.threads[rid].asked.value.id == id
  }

  /** The snapshot of a validated ceremony was stashed by an earlier request of that very origin for that account. */
  lemma {:induction false} CeremoniesAnswerRequests(
      init: Storage, steps: seq<Step>, step: Step, origin: string, id: string)
    requires Fresh(init) && CeremonyJustifies(Exec(init, steps), step, origin, id)
    ensures exists j, rid :: 0 <= j < |steps| && AskedBy(init, steps, j, rid, origin, id)
  {
    SnapshotsWereAsked(init, steps);
    var t := Exec(init, steps).threads[step.thread];
    assert ThreadAsked(init, steps, t);
    var j :| 0 <= j < |steps| && StashedAt(init, steps, j, t.use.rid, t.use.snap);
    assert AskedBy(init, steps, j, t.use.rid, origin, id);
  }
}
