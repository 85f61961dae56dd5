/**
 * What a page request and a ceremony result come to when nothing disturbs them, from any state: a
 * valid ceremony leaves its record, and the page it was for is then answered without a prompt.
 */
module ConsentLaws {
  import opened Basics
  import opened ConsentFlow

  // ---- A thread on its own ----

  /** Thread me performs its next k storage operations at time now, with nothing in between. */
  function Alone(s: Storage, t: Thread, me: nat, now: int, first: bool, k: nat): (Storage, Thread)
    decreases k
  {
    if k == 0 then (s, t)
    else
      var (s', t') := RunThread(s, t, me, now, first);
      Alone(s', t', me, now, first, k - 1)
  }

  /** The same in the state of all threads. */
  function RunAlone(s: State, me: nat, now: int, first: bool, k: nat): State
    decreases k
  {
    if k == 0 then s else RunAlone(Apply(s, Run(me, now, first)), me, now, first, k - 1)
  }

  lemma {:induction false} RunsAsAlone(s: State, me: nat, now: int, first: bool, k: nat)
    requires me < |s.threads|
    ensures var (storage, t) := Alone(s.storage, s.threads[me], me, now, first, k);
            RunAlone(s, me, now, first, k) == State(storage, s.threads[me := t])
    decreases k
  {
    if k == 0 {
      assert s.threads[me := s.threads[me]] == s.threads;
    } else {
      var s' := Apply(s, Run(me, now, first));
      RunsAsAlone(s', me, now, first, k - 1);
      var t := Alone(s'.storage, s'.threads[me], me, now, first, k - 1).1;
      assert s'.threads[me := t] == s.threads[me := t];
    }
  }

  lemma {:induction false} AloneAdds(s: Storage, t: Thread, me: nat, now: int, first: bool, j: nat, k: nat)
    ensures var (s', t') := Alone(s, t, me, now, first, j);
            Alone(s, t, me, now, first, j + k) == Alone(s', t', me, now, first, k)
    decreases j
  {
    if j > 0 {
      var (s', t') := RunThread(s, t, me, now, first);
      AloneAdds(s', t', me, now, first, j - 1, k);
    }
  }

  lemma {:induction false} FinishedStays(s: Storage, t: Thread, me: nat, now: int, first: bool, k: nat)
    requires t.Over? || t.Revealed?
    ensures Alone(s, t, me, now, first, k) == (s, t)
    decreases k
  {
    if k > 0 {
      FinishedStays(s, t, me, now, first, k - 1);
    }
  }

  /** Three reads resolve the active account. */
  lemma {:induction false} ResolvesAlone(s: Storage, use: Purpose, me: nat, now: int, first: bool)
    ensures Alone(s, Resolving(NothingYet, use), me, now, first, 3) == (s, AfterResolving(use, ActiveAccount(s), now))
  {
    var one := Resolving(if first then OnlyPasskey(s.wallets.passkey) else OnlyClassic(s.wallets.classic), use);
    var two := Resolving(Both(s.wallets), use);
    assert RunThread(s, Resolving(NothingYet, use), me, now, first) == (s, one);
    assert RunThread(s, one, me, now, first) == (s, two);
    assert RunThread(s, two, me, now, first) == (s, AfterResolving(use, ActiveAccount(s), now));
    assert Alone(s, two, me, now, first, 1) == (s, AfterResolving(use, ActiveAccount(s), now));
    assert Alone(s, one, me, now, first, 2) == (s, AfterResolving(use, ActiveAccount(s), now));
  }

  // ---- The active account ----

  /** The selection names this account, field for field. */
  predicate Names(selection: Option<Selection>, a: Account) {
    selection == Some(Selection(1, "stellar-testnet", a.id, a.address, a.kind, a.signer))
  }

  /**
   * An account is active exactly if it is on the device and selected; or if it is the only one there,
   * and no account there is selected.
   */
  lemma {:induction false} ActiveExactly(s: Storage, a: Account)
    ensures ActiveAccount(s) == Some(a) <==>
              || (Names(s.selection, a) && ById(s.wallets, a.id) == Some(a))
              || (ListAccounts(s.wallets) == [a]
                  && forall b: Account :: ById(s.wallets, b.id) == Some(b) ==> !Names(s.selection, b))
  {
    if s.selection.Some? && ValidSelection(s.selection.value, s.wallets) {
      var b := ById(s.wallets, s.selection.value.id).value;
      assert ById(s.wallets, b.id) == Some(b) && Names(s.selection, b);
    }
  }

  // ---- A ceremony result ----

  /**
   * The request carries an origin and an account, has not expired, names the active account, and asks
   * for no address other than that account's.
   */
  predicate StillHolds(snap: Snapshot, active: Option<Account>, now: int) {
    && snap.origin != ""
    && snap.account.Some? && snap.account.value.id != "" && snap.account.value.address != ""
    && now <= snap.expiresAt
    && active.Some? && active.value.id == snap.account.value.id
    && (snap.wantAddress == None || snap.wantAddress == Some("")
        || snap.wantAddress == Some(snap.account.value.address))
  }

  predicate CeremonyGrants(s: Storage, rid: nat, ok: bool, now: int) {
    ok && rid in s.session && StillHolds(s.session[rid], ActiveAccount(s), now)
  }

  /** The storage after the ceremony: its request is consumed, and its record is there if it grants. */
  function AfterCeremony(s: Storage, rid: nat, ok: bool, now: int): Storage {
    var consumed := s.(session := s.session - {rid});
    if CeremonyGrants(s, rid, ok, now) then
      var origin, account := s.session[rid].origin, ActiveAccount(s).value;
      var record := Consent(origin, account.id, account.address, None);
      consumed.(consents := s.consents[origin + "::" + account.id := record])
    else consumed
  }

  lemma {:induction false} GrantsAlone(s: Storage, origin: string, account: Account, me: nat, now: int, first: bool)
    ensures Alone(s, GrantRead(origin, account), me, now, first, 2) ==
            (s.(consents := s.consents[ConsentId(origin, account.id) := GrantOf(origin, account)]), Over)
  {
    var updated := s.consents[ConsentId(origin, account.id) := GrantOf(origin, account)];
    assert RunThread(s, GrantRead(origin, account), me, now, first) == (s, GrantWrite(updated));
    assert RunThread(s, GrantWrite(updated), me, now, first) == (s.(consents := updated), Over);
    assert Alone(s, GrantWrite(updated), me, now, first, 1) == (s.(consents := updated), Over);
  }

  lemma {:induction false} CeremonyAlone(s: Storage, rid: nat, ok: bool, me: nat, now: int, first: bool)
    ensures Alone(s, ReadSnapshot(rid, ok), me, now, first, 7) == (AfterCeremony(s, rid, ok, now), Over)
  {
    var found := if rid in s.session then Some(s.session[rid]) else None;
    var consumed := s.(session := s.session - {rid});
    assert RunThread(s, ReadSnapshot(rid, ok), me, now, first) == (s, RemoveSnapshot(rid, ok, found));
    if ok && found.Some? {
      var use := ForCeremony(rid, found.value);
      assert RunThread(s, RemoveSnapshot(rid, ok, found), me, now, first) == (consumed, Resolving(NothingYet, use));
      ResolvesAlone(consumed, use, me, now, first);
      AloneAdds(consumed, Resolving(NothingYet, use), me, now, first, 3, 2);
      assert ActiveAccount(consumed) == ActiveAccount(s);
      if StillHolds(found.value, ActiveAccount(s), now) {
        GrantsAlone(consumed, found.value.origin, ActiveAccount(s).value, me, now, first);
      } else {
        FinishedStays(consumed, Over, me, now, first, 2);
      }
    } else {
      assert RunThread(s, RemoveSnapshot(rid, ok, found), me, now, first) == (consumed, Over);
      FinishedStays(consumed, Over, me, now, first, 5);
    }
  }

  /** A ceremony result arrives and performs its next k storage operations; it never has more than seven. */
  function CeremonyRun(s: State, rid: nat, success: bool, now: int, first: bool, k: nat): State {
    RunAlone(Apply(s, CeremonyResult(rid, success)), |s.threads|, now, first, k)
  }

  /**
   * From any state an undisturbed ceremony consumes its request; it leaves the record of its origin and
   * of the active account, without expiry, exactly when it succeeded and its request still holds; and
   * it changes nothing else.
   */
  lemma {:induction false} CeremonyLeavesItsRecord(
      s: State, rid: nat, success: bool, now: int, first: bool, k: nat)
    requires k >= 7
    ensures CeremonyRun(s, rid, success, now, first, k)
         == State(AfterCeremony(s.storage, rid, success, now), s.threads + [Over])
  {
    var s0 := Apply(s, CeremonyResult(rid, success));
    var me := |s.threads|;
    RunsAsAlone(s0, me, now, first, k);
    CeremonyAlone(s.storage, rid, success, me, now, first);
    AloneAdds(s.storage, ReadSnapshot(rid, success), me, now, first, 7, k - 7);
    FinishedStays(AfterCeremony(s.storage, rid, success, now), Over, me, now, first, k - 7);
  }

  // ---- The legacy migration ----

  /** An id determines the origin that it ends after. */
  lemma {:induction false} ConsentIdsDiffer(o: string, p: string, id: string)
    requires o != p
    ensures o + "::" + id != p + "::" + id
  {
    var a, b := o + "::" + id, p + "::" + id;
    assert a[..|a| - |id| - 2] == o && b[..|b| - |id| - 2] == p;
  }

  /** Merging grants every origin, and leaves all other records as they were. */
  lemma {:induction false} MergeGrantsExactly(consents: Consents, origins: seq<string>, owner: Account, key: string)
    ensures var merged := Merge(consents, origins, owner);
            && (forall o :: o in origins ==>
                  && ConsentId(o, owner.id) in merged
                  && merged[ConsentId(o, owner.id)] == Consent(o, owner.id, owner.address, None))
            && ((forall o :: o in origins ==> key != ConsentId(o, owner.id)) ==>
                  (key in merged <==> key in consents) && (key in consents ==> merged[key] == consents[key]))
  {
    if origins != [] {
      var last := |origins| - 1;
      MergeGrantsExactly(consents, origins[..last], owner, key);
      forall o | o in origins && o != origins[last]
        ensures o in origins[..last] && ConsentId(o, owner.id) != ConsentId(origins[last], owner.id)
      {
        ConsentIdsDiffer(o, origins[last], owner.id);
      }
    }
  }

  /** The storage once the migration has run: with exactly one wallet every legacy origin is granted to it. */
  function Migrated(s: Storage): Storage {
    if s.migrated then s
    else if s.allowlist == [] then s.(migrated := true)
    else if |ListAccounts(s.wallets)| == 1 then
      s.(consents := Merge(s.consents, s.allowlist, ListAccounts(s.wallets)[0]), migrated := true, allowlist := [])
    else s.(migrated := true, allowlist := [])
  }

  /** The number of storage operations the migration takes. */
  function MigrationSteps(s: Storage): nat {
    if s.migrated then 1 else if s.allowlist == [] then 3 else if |ListAccounts(s.wallets)| == 1 then 10 else 9
  }

  lemma {:induction false} SoleIsActive(s: Storage)
    requires |ListAccounts(s.wallets)| == 1
    ensures ActiveAccount(s) == Some(ListAccounts(s.wallets)[0])
  {
  }

  lemma {:induction false} WritesAlone(
      s: Storage, r: Request, merged: Option<Consents>, me: nat, now: int, first: bool)
    ensures Alone(s, MigrationWrite(r, merged, true), me, now, first, 2) ==
            ( s.(consents := if merged.Some? then merged.value else s.consents, migrated := true, allowlist := []),
              Resolving(NothingYet, ForRequest(r)) )
  {
    var written := s.(consents := if merged.Some? then merged.value else s.consents, migrated := true);
    var next := Resolving(NothingYet, ForRequest(r));
    assert RunThread(s, MigrationWrite(r, merged, true), me, now, first) == (written, MigrationRemove(r));
    assert RunThread(written, MigrationRemove(r), me, now, first) == (written.(allowlist := []), next);
    assert Alone(written, MigrationRemove(r), me, now, first, 1) == (written.(allowlist := []), next);
  }

  lemma {:induction false} CountsAlone(
      s: Storage, r: Request, origins: seq<string>, account: Option<Account>, me: nat, now: int, first: bool)
    ensures Alone(s, MigrationCount(NothingYet, r, origins, account), me, now, first, 2) ==
            ( s,
              if account.Some? && |ListAccounts(s.wallets)| == 1 then MigrationConsents(r, origins, account.value)
              else MigrationWrite(r, None, true) )
  {
    var got := if first then OnlyPasskey(s.wallets.passkey) else OnlyClassic(s.wallets.classic);
    var one := MigrationCount(got, r, origins, account);
    assert RunThread(s, MigrationCount(NothingYet, r, origins, account), me, now, first) == (s, one);
    assert Alone(s, one, me, now, first, 1) == RunThread(s, one, me, now, first);
  }

  /** From the count on, with this account resolved. */
  lemma {:induction false} GrantsLegacyAlone(s: Storage, r: Request, me: nat, now: int, first: bool)
    requires !s.migrated && s.allowlist != []
    ensures var count := MigrationCount(NothingYet, r, s.allowlist, ActiveAccount(s));
            Alone(s, count, me, now, first, MigrationSteps(s) - 5)
            == (Migrated(s), Resolving(NothingYet, ForRequest(r)))
  {
    var account := ActiveAccount(s);
    var count := MigrationCount(NothingYet, r, s.allowlist, account);
    CountsAlone(s, r, s.allowlist, account, me, now, first);
    AloneAdds(s, count, me, now, first, 2, MigrationSteps(s) - 7);
    if |ListAccounts(s.wallets)| == 1 {
      SoleIsActive(s);
      var merged := Merge(s.consents, s.allowlist, account.value);
      assert RunThread(s, MigrationConsents(r, s.allowlist, account.value), me, now, first)
          == (s, MigrationWrite(r, Some(merged), true));
      WritesAlone(s, r, Some(merged), me, now, first);
    } else {
      WritesAlone(s, r, None, me, now, first);
    }
  }

  lemma {:induction false} MigratesAlone(s: Storage, r: Request, me: nat, now: int, first: bool)
    ensures Alone(s, MigrationFlag(r), me, now, first, MigrationSteps(s))
         == (Migrated(s), Resolving(NothingYet, ForRequest(r)))
  {
    var next := Resolving(NothingYet, ForRequest(r));
    if s.migrated {
      assert RunThread(s, MigrationFlag(r), me, now, first) == (s, next);
      assert Alone(s, next, me, now, first, 0) == (s, next);
    } else {
      assert RunThread(s, MigrationFlag(r), me, now, first) == (s, MigrationOrigins(r));
      if s.allowlist == [] {
        var write := MigrationWrite(r, None, false);
        assert RunThread(s, MigrationOrigins(r), me, now, first) == (s, write);
        assert RunThread(s, write, me, now, first) == (s.(migrated := true), next);
        assert Alone(s, write, me, now, first, 1) == (s.(migrated := true), next);
        assert Alone(s, MigrationOrigins(r), me, now, first, 2) == (s.(migrated := true), next);
      } else {
        var use := ForMigration(r, s.allowlist);
        assert RunThread(s, MigrationOrigins(r), me, now, first) == (s, Resolving(NothingYet, use));
        ResolvesAlone(s, use, me, now, first);
        AloneAdds(s, Resolving(NothingYet, use), me, now, first, 3, MigrationSteps(s) - 5);
        GrantsLegacyAlone(s, r, me, now, first);
        assert Alone(s, MigrationOrigins(r), me, now, first, MigrationSteps(s) - 1) == (Migrated(s), next);
      }
    }
  }

  // ---- A page request ----

  /** There is a record of this origin and account that has not expired. */
  predicate OnRecord(consents: Consents, origin: string, account: Account, now: int) {
    var key := origin + "::" + account.id;
    && key in consents && consents[key].origin == origin && consents[key].accountId == account.id
    && (consents[key].expiresAt == None || now < consents[key].expiresAt.value)
  }

  /** The request may be answered with the address and without a prompt. */
  predicate Silent(s: Storage, r: Request, now: int) {
    && (r.asks.IsConnected? || r.asks.GetAddress?)
    && ActiveAccount(s).Some? && OnRecord(s.consents, r.origin, ActiveAccount(s).value, now)
  }

  /** The request goes to a prompt: unless it asks for an address other than the active account's. */
  predicate Prompts(s: Storage, r: Request, now: int) {
    && !Silent(s, r, now) && !r.asks.IsConnected?
    && (ActiveAccount(s).None? || r.wantAddress == None || r.wantAddress == Some("")
        || r.wantAddress == Some(ActiveAccount(s).value.address))
  }

  function AfterRequest(s: Storage, r: Request, me: nat, now: int): Storage {
    if Prompts(s, r, now)
    then s.(session := s.session[me := Snapshot(r.origin, ActiveAccount(s), r.wantAddress, now + 300_000)])
    else s
  }

  lemma {:induction false} StashesAlone(s: Storage, r: Request, me: nat, now: int, first: bool)
    requires r.origin != "" && !Silent(s, r, now) && !r.asks.IsConnected?
    ensures RunThread(s, Stash(r, ActiveAccount(s)), me, now, first) == (AfterRequest(s, r, me, now), Over)
  {
  }

  /** From the resolution of the account on: at most five storage operations. */
  lemma {:induction false} AnswersAlone(s: Storage, r: Request, me: nat, now: int, first: bool)
    requires r.origin != ""
    ensures Alone(s, Resolving(NothingYet, ForRequest(r)), me, now, first, 5) ==
            ( AfterRequest(s, r, me, now),
              if Silent(s, r, now) then Revealed(r.origin, ActiveAccount(s).value.address) else Over )
  {
    var a := ActiveAccount(s);
    var t := AfterResolving(ForRequest(r), a, now);
    ResolvesAlone(s, ForRequest(r), me, now, first);
    AloneAdds(s, Resolving(NothingYet, ForRequest(r)), me, now, first, 3, 2);
    if t.ReadConsent? {
      var (s1, t1) := RunThread(s, t, me, now, first);
      if t1.Stash? {
        StashesAlone(s, r, me, now, first);
        assert Alone(s1, t1, me, now, first, 1) == (AfterRequest(s, r, me, now), Over);
      } else {
        FinishedStays(s1, t1, me, now, first, 1);
      }
    } else if t.Stash? {
      StashesAlone(s, r, me, now, first);
      FinishedStays(AfterRequest(s, r, me, now), Over, me, now, first, 1);
    } else {
      FinishedStays(s, t, me, now, first, 2);
    }
  }

  /** A page request arrives and performs its next k storage operations; it never has more than fifteen. */
  function RequestRun(s: State, r: Request, now: int, first: bool, k: nat): State {
    RunAlone(Apply(s, PageRequest(r)), |s.threads|, now, first, k)
  }

  lemma {:induction false} RequestAlone(s: Storage, r: Request, me: nat, now: int, first: bool, n: nat)
    requires r.origin != "" && n >= 15
    ensures var m := Migrated(s);
            Alone(s, MigrationFlag(r), me, now, first, n) ==
            ( AfterRequest(m, r, me, now),
              if Silent(m, r, now) then Revealed(r.origin, ActiveAccount(m).value.address) else Over )
  {
    var k := MigrationSteps(s);
    var m := Migrated(s);
    MigratesAlone(s, r, me, now, first);
    AloneAdds(s, MigrationFlag(r), me, now, first, k, n - k);
    AnswersAlone(m, r, me, now, first);
    var t := if Silent(m, r, now) then Revealed(r.origin, ActiveAccount(m).value.address) else Over;
    AloneAdds(m, Resolving(NothingYet, ForRequest(r)), me, now, first, 5, n - 5 - k);
    FinishedStays(AfterRequest(m, r, me, now), t, me, now, first, n - 5 - k);
  }

  /**
   * From any state an undisturbed request of a page migrates the legacy origins; it is answered with the
   * active account's address exactly when that account has an unexpired record for the page, and goes
   * to a prompt for that account otherwise, if it may ask for one.
   */
  lemma {:induction false} RequestIsAnswered(s: State, r: Request, now: int, first: bool, k: nat)
    requires "http" <= r.origin && k >= 15
    ensures var m := Migrated(s.storage);
            RequestRun(s, r, now, first, k) == State(
              AfterRequest(m, r, |s.threads|, now),
              s.threads + [if Silent(m, r, now) then Revealed(r.origin, ActiveAccount(m).value.address) else Over])
  {
    var s0 := Apply(s, PageRequest(r));
    RunsAsAlone(s0, |s.threads|, now, first, k);
    RequestAlone(s.storage, r, |s.threads|, now, first, k);
  }

  /** A page that is not on the web is refused at once. */
  lemma {:induction false} OtherOriginsAreRefused(s: State, r: Request)
    requires !("http" <= r.origin)
    ensures Apply(s, PageRequest(r)) == s
  {
  }

  lemma {:induction false} MigrationKeepsRecord(s: Storage, origin: string, now: int)
    requires ActiveAccount(s).Some? && OnRecord(s.consents, origin, ActiveAccount(s).value, now)
    ensures ActiveAccount(Migrated(s)) == ActiveAccount(s)
    ensures OnRecord(Migrated(s).consents, origin, ActiveAccount(s).value, now)
  {
    var account := ActiveAccount(s).value;
    if !s.migrated && s.allowlist != [] && |ListAccounts(s.wallets)| == 1 {
      SoleIsActive(s);
      MergeGrantsExactly(s.consents, s.allowlist, account, ConsentId(origin, account.id));
      if o :| o in s.allowlist && ConsentId(o, account.id) == ConsentId(origin, account.id) {
        if o != origin {
          ConsentIdsDiffer(o, origin, account.id);
        }
      }
    }
  }

  /**
   * Consent works: after an undisturbed ceremony that grants, the page it was for is told the account's
   * address without a prompt, whenever it asks for it.
   */
  lemma {:induction false} GrantedPagesAreAnswered(
      s: State, rid: nat, now: int, first: bool, r: Request, later: int, first': bool, k: nat)
    requires k >= 15 && CeremonyGrants(s.storage, rid, true, now)
    requires r.origin == s.storage.session[rid].origin && "http" <= r.origin
    requires r.asks.IsConnected? || r.asks.GetAddress?
    ensures var granted := CeremonyRun(s, rid, true, now, first, k);
            RequestRun(granted, r, later, first', k).threads
            == granted.threads + [Revealed(r.origin, ActiveAccount(s.storage).value.address)]
  {
    CeremonyLeavesItsRecord(s, rid, true, now, first, k);
    var granted := CeremonyRun(s, rid, true, now, first, k);
    assert ActiveAccount(granted.storage) == ActiveAccount(s.storage);
    MigrationKeepsRecord(granted.storage, r.origin, later);
    RequestIsAnswered(granted, r, later, first', k);
  }
}
