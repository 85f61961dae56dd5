/**
 * The gate on a transaction's source account: envelope signatures must come from distinct current
 * signers whose weights reach the medium threshold. Key validity, hints and ed25519 verification
 * are given as functions.
 */
module SignerWeight {
  import opened Basics

  datatype Signer = Signer(key: string, weight: int)

  /** What the ledger says about the account. */
  datatype Facts = Facts(account: string, masterWeight: int, mediumThreshold: int, signers: seq<Signer>)

  datatype Decorated = Decorated(hint: seq<bv8>, signature: seq<bv8>)

  datatype Crypto = Crypto(
    validKey: string -> bool,
    hintOf: string -> seq<bv8>,
    verifies: (string, seq<bv8>) -> bool)

  predicate IsByte(n: int) {
    0 <= n <= 255
  }

  // ---- The signer set ----

  /** The ledger facts describe this account, with valid distinct keys and one-byte weights. */
  predicate FactsOk(crypto: Crypto, facts: Facts, source: string) {
    && facts.account == source && IsByte(facts.masterWeight) && IsByte(facts.mediumThreshold)
    && (forall i :: 0 <= i < |facts.signers| ==>
          crypto.validKey(facts.signers[i].key) && facts.signers[i].key != source && IsByte(facts.signers[i].weight))
    && (forall i, j :: 0 <= i < j < |facts.signers| ==> facts.signers[i].key != facts.signers[j].key)
  }

  function AllSigners(facts: Facts, source: string): seq<Signer> {
    [Signer(source, facts.masterWeight)] + facts.signers
  }

  method NormalizedAuthorization(crypto: Crypto, facts: Facts, source: string) returns (signers: Option<seq<Signer>>)
    ensures signers.Some? <==> FactsOk(crypto, facts, source)
    ensures signers.Some? ==> signers.value == AllSigners(facts, source)
  {
    if facts.account != source || facts.masterWeight < 0 || facts.masterWeight > 255
       || facts.mediumThreshold < 0 || facts.mediumThreshold > 255
    {
      return None;
    }
    var list := [Signer(source, facts.masterWeight)];
    var seen := {source};
    for n := 0 to |facts.signers|
      invariant list == AllSigners(facts, source)[..n + 1]
      invariant seen == {source} + set i | 0 <= i < n :: facts.signers[i].key
      invariant forall i :: 0 <= i < n ==>
                  && crypto.validKey(facts.signers[i].key) && facts.signers[i].key != source
                  && IsByte(facts.signers[i].weight)
      invariant forall i, j :: 0 <= i < j < n ==> facts.signers[i].key != facts.signers[j].key
    {
      var signer := facts.signers[n];
      if !crypto.validKey(signer.key) || signer.key in seen || signer.weight < 0 || signer.weight > 255 {
        return None;
      }
      seen := seen + {signer.key};
      list := list + [signer];
    }
    return Some(list);
  }

  // ---- One signature ----

  predicate WellFormed(d: Decorated) {
    |d.hint| == 4 && |d.signature| == 64
  }

  /** Signer i is a candidate that matches the hint and verifies the signature. */
  predicate SignedBy(crypto: Crypto, signers: seq<Signer>, d: Decorated, i: nat)
    requires i < |signers|
  {
    signers[i].weight > 0 && crypto.hintOf(signers[i].key) == d.hint && crypto.verifies(signers[i].key, d.signature)
  }

  ghost predicate OnlySigner(crypto: Crypto, signers: seq<Signer>, d: Decorated, i: nat) {
    && i < |signers| && SignedBy(crypto, signers, d, i)
    && forall j :: 0 <= j < |signers| && SignedBy(crypto, signers, d, j) ==> j == i
  }

  ghost predicate HasOneSigner(crypto: Crypto, signers: seq<Signer>, d: Decorated) {
    exists i: nat :: OnlySigner(crypto, signers, d, i)
  }

  // ---- The verdict, stated without an order ----

  /** Signer i stands behind some signature of the envelope. */
  predicate Signs(crypto: Crypto, signers: seq<Signer>, sigs: seq<Decorated>, i: nat)
    requires i < |signers|
  {
    exists k :: 0 <= k < |sigs| && SignedBy(crypto, signers, sigs[k], i)
  }

  /** The total weight of the first n signers that stand behind some signature. */
  function SigningWeight(crypto: Crypto, signers: seq<Signer>, sigs: seq<Decorated>, n: nat): int
    requires n <= |signers|
  {
    if n == 0 then 0
    else
      SigningWeight(crypto, signers, sigs, n - 1) +
      (if Signs(crypto, signers, sigs, n - 1) then signers[n - 1].weight else 0)
  }

  /** Every signature is well formed and has exactly one signer, and no two share a signer. */
  ghost predicate Proper(crypto: Crypto, signers: seq<Signer>, sigs: seq<Decorated>) {
    && (forall k :: 0 <= k < |sigs| ==> WellFormed(sigs[k]) && HasOneSigner(crypto, signers, sigs[k]))
    && (forall k, l, i :: 0 <= k < l < |sigs| && 0 <= i < |signers| ==>
          !(SignedBy(crypto, signers, sigs[k], i) && SignedBy(crypto, signers, sigs[l], i)))
  }

  ghost predicate ProperlySigned(crypto: Crypto, signers: seq<Signer>, sigs: seq<Decorated>) {
    sigs != [] && Proper(crypto, signers, sigs)
  }

  ghost predicate Accepts(crypto: Crypto, signers: seq<Signer>, sigs: seq<Decorated>, threshold: int) {
    ProperlySigned(crypto, signers, sigs) && SigningWeight(crypto, signers, sigs, |signers|) >= threshold
  }

  // ---- The weight that one more signature adds ----

  lemma {:induction false} WeightOfNobody(crypto: Crypto, signers: seq<Signer>, n: nat)
    requires n <= |signers|
    ensures SigningWeight(crypto, signers, [], n) == 0
  {
    if n > 0 {
      WeightOfNobody(crypto, signers, n - 1);
    }
  }

  lemma {:induction false} SignsWithOneMore(
      crypto: Crypto, signers: seq<Signer>, sigs: seq<Decorated>, d: Decorated, i: nat, m: nat)
    requires m < |signers| && OnlySigner(crypto, signers, d, i)
    ensures Signs(crypto, signers, sigs + [d], m) <==> Signs(crypto, signers, sigs, m) || m == i
  {
    var more := sigs + [d];
    if Signs(crypto, signers, sigs, m) {
      var k :| 0 <= k < |sigs| && SignedBy(crypto, signers, sigs[k], m);
      assert SignedBy(crypto, signers, more[k], m);
    }
    if m == i {
      assert SignedBy(crypto, signers, more[|sigs|], m);
    }
  }

  lemma {:induction false} WeightOfOneMore(
      crypto: Crypto, signers: seq<Signer>, sigs: seq<Decorated>, d: Decorated, i: nat, n: nat)
    requires n <= |signers| && OnlySigner(crypto, signers, d, i) && !Signs(crypto, signers, sigs, i)
    ensures SigningWeight(crypto, signers, sigs + [d], n)
         == SigningWeight(crypto, signers, sigs, n) + (if i < n then signers[i].weight else 0)
  {
    if n > 0 {
      WeightOfOneMore(crypto, signers, sigs, d, i, n - 1);
      SignsWithOneMore(crypto, signers, sigs, d, i, n - 1);
    }
  }

  datatype Verdict = Relayer | Classic(weight: int, mediumThreshold: int) | Rejected

  /** What the filter found are exactly the signers of d, in order. */
  ghost predicate FoundSigners(crypto: Crypto, signers: seq<Signer>, d: Decorated, found: seq<nat>) {
    && (forall x :: x in found <==> 0 <= x < |signers| && SignedBy(crypto, signers, d, x))
    && (forall i, j :: 0 <= i < j < |found| ==> found[i] < found[j])
  }

  /** The candidates with a positive weight that match and verify one signature. */
  method Verified(crypto: Crypto, signers: seq<Signer>, d: Decorated) returns (found: seq<nat>)
    ensures FoundSigners(crypto, signers, d, found)
  {
    found := [];
    for n := 0 to |signers|
      invariant forall x :: x in found <==> 0 <= x < n && SignedBy(crypto, signers, d, x)
      invariant forall i, j :: 0 <= i < j < |found| ==> found[i] < found[j]
    {
      var s := signers[n];
      if s.weight > 0 && crypto.hintOf(s.key) == d.hint && crypto.verifies(s.key, d.signature) {
        forall i | 0 <= i < |found| ensures found[i] < n {
          assert found[i] in found;
        }
        found := found + [n];
      }
    }
  }

  /** Keys are distinct among the signers, so a key names its signer. */
  ghost predicate DistinctKeys(signers: seq<Signer>) {
    forall i, j :: 0 <= i < j < |signers| ==> signers[i].key != signers[j].key
  }

  /** The keys collected so far are those of the signers behind the signatures seen so far. */
  ghost predicate KeysMatch(crypto: Crypto, signers: seq<Signer>, sigs: seq<Decorated>, keys: set<string>) {
    forall i :: 0 <= i < |signers| ==> (signers[i].key in keys <==> Signs(crypto, signers, sigs, i))
  }

  /** Signature n has no single signer, or one that already stands behind an earlier signature. */
  lemma {:induction false} RefusedSignature(crypto: Crypto, signers: seq<Signer>, sigs: seq<Decorated>, n: nat)
    requires n < |sigs|
    requires !WellFormed(sigs[n]) || !HasOneSigner(crypto, signers, sigs[n]) ||
             exists i :: 0 <= i < |signers| && SignedBy(crypto, signers, sigs[n], i)
               && Signs(crypto, signers, sigs[..n], i)
    ensures !Proper(crypto, signers, sigs)
  {
    if i :| 0 <= i < |signers| && SignedBy(crypto, signers, sigs[n], i) && Signs(crypto, signers, sigs[..n], i) {
      var k :| 0 <= k < n && SignedBy(crypto, signers, sigs[..n][k], i);
      assert SignedBy(crypto, signers, sigs[k], i);
    }
  }

  lemma {:induction false} NotOneSigner(crypto: Crypto, signers: seq<Signer>, d: Decorated, found: seq<nat>)
    requires FoundSigners(crypto, signers, d, found) && |found| != 1
    ensures !HasOneSigner(crypto, signers, d)
  {
    forall i: nat ensures !OnlySigner(crypto, signers, d, i) {
      if |found| > 1 {
        assert found[0] in found && found[1] in found;
      } else {
        assert i !in found;
      }
    }
  }

  lemma {:induction false} OneSigner(crypto: Crypto, signers: seq<Signer>, d: Decorated, found: seq<nat>)
    requires FoundSigners(crypto, signers, d, found) && |found| == 1
    ensures OnlySigner(crypto, signers, d, found[0])
  {
    assert found[0] in found;
    forall j | 0 <= j < |signers| && SignedBy(crypto, signers, d, j) ensures j == found[0] {
      assert j in found;
    }
  }

  lemma {:induction false} ProperWithOneMore(
      crypto: Crypto, signers: seq<Signer>, sigs: seq<Decorated>, d: Decorated, i: nat)
    requires Proper(crypto, signers, sigs) && WellFormed(d) && OnlySigner(crypto, signers, d, i)
    requires !Signs(crypto, signers, sigs, i)
    ensures Proper(crypto, signers, sigs + [d])
  {
    var more := sigs + [d];
    forall k, l, m | 0 <= k < l < |more| && 0 <= m < |signers|
      ensures !(SignedBy(crypto, signers, more[k], m) && SignedBy(crypto, signers, more[l], m))
    {
      if l < |sigs| {
        assert !(SignedBy(crypto, signers, sigs[k], m) && SignedBy(crypto, signers, sigs[l], m));
      }
    }
  }

  lemma {:induction false} KeysMatchOneMore(
      crypto: Crypto, signers: seq<Signer>, sigs: seq<Decorated>, keys: set<string>, d: Decorated, i: nat)
    requires DistinctKeys(signers) && KeysMatch(crypto, signers, sigs, keys) && OnlySigner(crypto, signers, d, i)
    ensures KeysMatch(crypto, signers, sigs + [d], keys + {signers[i].key})
  {
    forall m | 0 <= m < |signers|
      ensures signers[m].key in keys + {signers[i].key} <==> Signs(crypto, signers, sigs + [d], m)
    {
      SignsWithOneMore(crypto, signers, sigs, d, i, m);
    }
  }

  /** The loop over the envelope's signatures; None when one of them is refused. */
  method SumWeights(crypto: Crypto, signers: seq<Signer>, sigs: seq<Decorated>) returns (total: Option<int>)
    requires DistinctKeys(signers)
    ensures total.Some? <==> Proper(crypto, signers, sigs)
    ensures total.Some? ==> total.value == SigningWeight(crypto, signers, sigs, |signers|)
  {
    var signedKeys: set<string> := {};
    var weight := 0;
    WeightOfNobody(crypto, signers, |signers|);
    for n := 0 to |sigs|
      invariant Proper(crypto, signers, sigs[..n])
      invariant KeysMatch(crypto, signers, sigs[..n], signedKeys)
      invariant weight == SigningWeight(crypto, signers, sigs[..n], |signers|)
    {
      var d := sigs[n];
      if |d.hint| != 4 || |d.signature| != 64 {
        RefusedSignature(crypto, signers, sigs, n);
        return None;
      }
      var verified := Verified(crypto, signers, d);
      if |verified| != 1 {
        NotOneSigner(crypto, signers, d, verified);
        RefusedSignature(crypto, signers, sigs, n);
        return None;
      }
      var i := verified[0];
      OneSigner(crypto, signers, d, verified);
      if signers[i].key in signedKeys {
        assert Signs(crypto, signers, sigs[..n], i);
        RefusedSignature(crypto, signers, sigs, n);
        return None;
      }
      assert sigs[..n + 1] == sigs[..n] + [d];
      WeightOfOneMore(crypto, signers, sigs[..n], d, i, |signers|);
      ProperWithOneMore(crypto, signers, sigs[..n], d, i);
      KeysMatchOneMore(crypto, signers, sigs[..n], signedKeys, d, i);
      signedKeys := signedKeys + {signers[i].key};
      weight := weight + signers[i].weight;
    }
    assert sigs[..|sigs|] == sigs;
    return Some(weight);
  }

  /**
   * assertTransactionSourceAuthorization; facts is None when they could not be read. A source other
   * than the relayer is accepted exactly when its envelope is properly signed with enough weight,
   * and the weight reported is that of the set of its signers.
   */
  method AssertTransactionSourceAuthorization(
      crypto: Crypto, source: string, expectedRelayer: string, sourceOverrides: bool,
      facts: Option<Facts>, sigs: seq<Decorated>) returns (v: Verdict)
    ensures v == Relayer <==> crypto.validKey(source) && !sourceOverrides && source == expectedRelayer
    ensures v.Classic? <==>
              && crypto.validKey(source) && !sourceOverrides && source != expectedRelayer
              && facts.Some? && FactsOk(crypto, facts.value, source)
              && Accepts(crypto, AllSigners(facts.value, source), sigs, facts.value.mediumThreshold)
    ensures v.Classic? ==>
              && v.mediumThreshold == facts.value.mediumThreshold
              && v.weight == SigningWeight(crypto, AllSigners(facts.value, source), sigs, |facts.value.signers| + 1)
  {
    if !crypto.validKey(source) || sourceOverrides {
      return Rejected;
    }
    if source == expectedRelayer {
      return Relayer;
    }
    if facts.None? {
      return Rejected;
    }
    var normalized := NormalizedAuthorization(crypto, facts.value, source);
    if normalized.None? || sigs == [] {
      return Rejected;
    }
    var signers := normalized.value;
    var weight := SumWeights(crypto, signers, sigs);
    if weight.None? || weight.value < facts.value.mediumThreshold {
      return Rejected;
    }
    return Classic(weight.value, facts.value.mediumThreshold);
  }

  // ---- The order of the signatures does not matter ----

  lemma {:induction false} SameSignersSameWeight(
      crypto: Crypto, signers: seq<Signer>, a: seq<Decorated>, b: seq<Decorated>, n: nat)
    requires n <= |signers| && (forall d :: d in a <==> d in b)
    ensures SigningWeight(crypto, signers, a, n) == SigningWeight(crypto, signers, b, n)
  {
    if n > 0 {
      SameSignersSameWeight(crypto, signers, a, b, n - 1);
      if Signs(crypto, signers, a, n - 1) {
        var k :| 0 <= k < |a| && SignedBy(crypto, signers, a[k], n - 1);
        assert a[k] in b;
      }
      if Signs(crypto, signers, b, n - 1) {
        var k :| 0 <= k < |b| && SignedBy(crypto, signers, b[k], n - 1);
        assert b[k] in a;
      }
    }
  }

  lemma {:induction false} CountsTwo(a: seq<Decorated>, k: nat, l: nat)
    requires k < l < |a| && a[k] == a[l]
    ensures multiset(a)[a[k]] >= 2
  {
    assert a == a[..l] + a[l..];
    assert a[k] in a[..l] && a[l] in a[l..];
  }

  lemma {:induction false} FindTwo(b: seq<Decorated>, x: Decorated) returns (k: nat, l: nat)
    requires multiset(b)[x] >= 2
    ensures k < l < |b| && b[k] == b[l] == x
  {
    var last := |b| - 1;
    assert b == b[..last] + [b[last]];
    if b[last] == x {
      assert x in b[..last];
      k :| 0 <= k < last && b[..last][k] == x;
      l := last;
    } else {
      k, l := FindTwo(b[..last], x);
    }
  }

  /** Two different positions of a hold two elements; then so do two different positions of any reordering. */
  lemma {:induction false} TwoPlaces(a: seq<Decorated>, b: seq<Decorated>, k: nat, l: nat) returns (k': nat, l': nat)
    requires multiset(a) == multiset(b) && k < l < |a|
    ensures k' < |b| && l' < |b| && k' != l' && b[k'] == a[k] && b[l'] == a[l]
  {
    if a[k] == a[l] {
      CountsTwo(a, k, l);
      k', l' := FindTwo(b, a[k]);
    } else {
      assert a[k] in multiset(a) && a[l] in multiset(a);
      assert a[k] in b && a[l] in b;
      k' :| 0 <= k' < |b| && b[k'] == a[k];
      l' :| 0 <= l' < |b| && b[l'] == a[l];
    }
  }

  lemma {:induction false} ReorderingKeepsProper(
      crypto: Crypto, signers: seq<Signer>, a: seq<Decorated>, b: seq<Decorated>)
    requires multiset(a) == multiset(b) && Proper(crypto, signers, a)
    ensures Proper(crypto, signers, b) && |a| == |b|
  {
    assert |a| == |multiset(a)| == |b|;
    forall k | 0 <= k < |b| ensures WellFormed(b[k]) && HasOneSigner(crypto, signers, b[k]) {
      assert b[k] in multiset(b);
      assert b[k] in a;
    }
    forall k, l, i | 0 <= k < l < |b| && 0 <= i < |signers|
      ensures !(SignedBy(crypto, signers, b[k], i) && SignedBy(crypto, signers, b[l], i))
    {
      var k', l' := TwoPlaces(b, a, k, l);
      if k' < l' {
        assert !(SignedBy(crypto, signers, a[k'], i) && SignedBy(crypto, signers, a[l'], i));
      } else {
        assert !(SignedBy(crypto, signers, a[l'], i) && SignedBy(crypto, signers, a[k'], i));
      }
    }
  }

  /** The verdict and the weight are the same for every order of the same signatures. */
  lemma {:induction false} OrderDoesNotMatter(
      crypto: Crypto, signers: seq<Signer>, a: seq<Decorated>, b: seq<Decorated>, threshold: int)
    requires multiset(a) == multiset(b)
    ensures Accepts(crypto, signers, a, threshold) <==> Accepts(crypto, signers, b, threshold)
    ensures SigningWeight(crypto, signers, a, |signers|) == SigningWeight(crypto, signers, b, |signers|)
  {
    forall d ensures d in a <==> d in b {
      assert d in a <==> d in multiset(a);
      assert d in b <==> d in multiset(b);
    }
    SameSignersSameWeight(crypto, signers, a, b, |signers|);
    if Proper(crypto, signers, a) { ReorderingKeepsProper(crypto, signers, a, b); }
    if Proper(crypto, signers, b) { ReorderingKeepsProper(crypto, signers, b, a); }
  }
}
