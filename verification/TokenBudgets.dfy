/** Per-token sums: the caps a grant adds up to, and the budgets a reviewed plan asks for. */
module TokenBudgets {
  import Decimal

  datatype Amount = Amount(token: string, units: int)

  /** A reviewed agent's cap: its units are decimal text. */
  datatype PlanCap = PlanCap(token: string, units: string, decimals: nat)

  // ---- Reference definitions ----

  /** All units of one token. */
  function Total(xs: seq<Amount>, token: string): int {
    if xs == [] then 0
    else Total(xs[..|xs| - 1], token) + (if xs[|xs| - 1].token == token then xs[|xs| - 1].units else 0)
  }

  /** The tokens in order of first occurrence, the key order of a JavaScript Map. */
  function Tokens(xs: seq<Amount>): seq<string> {
    if xs == [] then []
    else
      var before := Tokens(xs[..|xs| - 1]);
      var t := xs[|xs| - 1].token;
      if t in before then before else before + [t]
  }

  lemma {:induction false} TokensAreDistinct(xs: seq<Amount>)
    ensures forall i, j :: 0 <= i < j < |Tokens(xs)| ==> Tokens(xs)[i] != Tokens(xs)[j]
  {
    if xs != [] {
      TokensAreDistinct(xs[..|xs| - 1]);
    }
  }

  lemma {:induction false} TotalOfAbsent(xs: seq<Amount>, token: string)
    requires token !in Tokens(xs)
    ensures Total(xs, token) == 0
  {
    if xs != [] {
      TotalOfAbsent(xs[..|xs| - 1], token);
    }
  }

  /** What one more entry does to the tokens and to the totals. */
  lemma {:induction false} OneMore(xs: seq<Amount>, n: nat, t: string)
    requires n < |xs|
    ensures Tokens(xs[..n + 1]) ==
            Tokens(xs[..n]) + (if xs[n].token in Tokens(xs[..n]) then [] else [xs[n].token])
    ensures Total(xs[..n + 1], t) == Total(xs[..n], t) + (if xs[n].token == t then xs[n].units else 0)
    ensures t !in Tokens(xs[..n]) ==> Total(xs[..n], t) == 0
  {
    assert xs[..n + 1][..n] == xs[..n];
    if t !in Tokens(xs[..n]) {
      TotalOfAbsent(xs[..n], t);
    }
  }

  /** Each token once, with all of its units. */
  predicate SumsOf(sums: seq<Amount>, xs: seq<Amount>) {
    && |sums| == |Tokens(xs)|
    && forall i :: 0 <= i < |sums| ==> sums[i] == Amount(Tokens(xs)[i], Total(xs, Tokens(xs)[i]))
  }

  // ---- sumByToken ----

  /** The Map after the first n entries: its keys are the tokens so far, each with its total. */
  ghost predicate Summed(byToken: map<string, int>, order: seq<string>, xs: seq<Amount>, n: nat)
    requires n <= |xs|
  {
    && order == Tokens(xs[..n])
    && (forall t :: t in byToken <==> t in order)
    && (forall t :: t in byToken ==> byToken[t] == Total(xs[..n], t))
  }

  lemma {:induction false} SummedStep(byToken: map<string, int>, order: seq<string>, xs: seq<Amount>, n: nat)
    requires n < |xs| && Summed(byToken, order, xs, n)
    ensures var e := xs[n];
            Summed(byToken[e.token := (if e.token in byToken then byToken[e.token] else 0) + e.units],
                   if e.token in byToken then order else order + [e.token], xs, n + 1)
  {
    var e := xs[n];
    var after := byToken[e.token := (if e.token in byToken then byToken[e.token] else 0) + e.units];
    OneMore(xs, n, e.token);
    forall t | t in after ensures after[t] == Total(xs[..n + 1], t) {
      OneMore(xs, n, t);
    }
  }

  method SumByToken(entries: seq<Amount>) returns (sums: seq<Amount>)
    ensures SumsOf(sums, entries)
  {
    var order: seq<string> := [];
    var byToken: map<string, int> := map[];
    for n := 0 to |entries|
      invariant Summed(byToken, order, entries, n)
    {
      var e := entries[n];
      SummedStep(byToken, order, entries, n);
      if e.token !in byToken {
        order := order + [e.token];
      }
      byToken := byToken[e.token := (if e.token in byToken then byToken[e.token] else 0) + e.units];
    }
    assert entries[..|entries|] == entries;
    sums := [];
    for n := 0 to |order|
      invariant |sums| == n
      invariant forall i :: 0 <= i < n ==> sums[i] == Amount(order[i], Total(entries, order[i]))
    {
      sums := sums + [Amount(order[n], byToken[order[n]])];
    }
  }

  lemma {:induction false} TotalOfSums(sums: seq<Amount>, xs: seq<Amount>, ts: seq<string>, token: string)
    requires |sums| == |ts| && (forall i, j :: 0 <= i < j < |ts| ==> ts[i] != ts[j])
    requires forall i :: 0 <= i < |sums| ==> sums[i] == Amount(ts[i], Total(xs, ts[i]))
    ensures Total(sums, token) == if token in ts then Total(xs, token) else 0
  {
    if sums != [] {
      var last := |sums| - 1;
      TotalOfSums(sums[..last], xs, ts[..last], token);
      assert ts == ts[..last] + [ts[last]];
    }
  }

  /** Summing conserves the units of every token, and repeats no token. */
  lemma {:induction false} SumsConserveUnits(sums: seq<Amount>, xs: seq<Amount>, token: string)
    requires SumsOf(sums, xs)
    ensures Total(sums, token) == Total(xs, token)
    ensures forall i, j :: 0 <= i < j < |sums| ==> sums[i].token != sums[j].token
  {
    TokensAreDistinct(xs);
    TotalOfSums(sums, xs, Tokens(xs), token);
    if token !in Tokens(xs) {
      TotalOfAbsent(xs, token);
    }
  }

  // ---- The headroom of a decoded grant ----

  /** budgets.map(b => b.units - (sum of that token's caps, or 0)). */
  method AllowanceHeadroom(budgets: seq<Amount>, caps: seq<Amount>) returns (headroom: seq<Amount>)
    ensures |headroom| == |budgets|
    ensures forall i :: 0 <= i < |budgets| ==>
              headroom[i] == Amount(budgets[i].token, budgets[i].units - Total(caps, budgets[i].token))
  {
    var sums := SumByToken(caps);
    var capSum: map<string, int> := map[];
    for n := 0 to |sums|
      invariant forall t :: t in capSum <==> t in Tokens(caps)[..n]
      invariant forall t :: t in capSum ==> capSum[t] == Total(caps, t)
    {
      capSum := capSum[sums[n].token := sums[n].units];
    }
    assert Tokens(caps)[..|sums|] == Tokens(caps);
    headroom := [];
    for n := 0 to |budgets|
      invariant |headroom| == n
      invariant forall i :: 0 <= i < n ==>
                  headroom[i] == Amount(budgets[i].token, budgets[i].units - Total(caps, budgets[i].token))
    {
      var b := budgets[n];
      if b.token !in capSum {
        TotalOfAbsent(caps, b.token);
      }
      headroom := headroom + [Amount(b.token, b.units - (if b.token in capSum then capSum[b.token] else 0))];
    }
  }

  // ---- planReviewedBudgets ----

  predicate PlanOk(plan: seq<PlanCap>) {
    forall i :: 0 <= i < |plan| ==> Decimal.Digits(plan[i].units)
  }

  /** The caps as amounts. */
  function Amounts(plan: seq<PlanCap>): (r: seq<Amount>)
    requires PlanOk(plan)
    ensures |r| == |plan|
    ensures forall i :: 0 <= i < |plan| ==> r[i] == Amount(plan[i].token, Decimal.Parse(plan[i].units))
  {
    if plan == [] then []
    else Amounts(plan[..|plan| - 1]) + [Amount(plan[|plan| - 1].token, Decimal.Parse(plan[|plan| - 1].units))]
  }

  lemma {:induction false} TotalIsNatural(plan: seq<PlanCap>, token: string)
    requires PlanOk(plan)
    ensures Total(Amounts(plan), token) >= 0
  {
    if plan != [] {
      TotalIsNatural(plan[..|plan| - 1], token);
      assert Amounts(plan)[..|plan| - 1] == Amounts(plan[..|plan| - 1]);
    }
  }

  /** The decimals of the last cap of a token (0 when there is none). */
  function LastDecimals(plan: seq<PlanCap>, token: string): nat {
    if plan == [] then 0
    else if plan[|plan| - 1].token == token then plan[|plan| - 1].decimals
    else LastDecimals(plan[..|plan| - 1], token)
  }

  /** A budget shows the decimals of the last cap of its token. */
  predicate KeepsDecimals(b: PlanCap, plan: seq<PlanCap>) {
    b.decimals == LastDecimals(plan, b.token)
  }

  /** One budget per token of the plan, in order of first occurrence, its units the total of that token's caps. */
  predicate Reviewed(budgets: seq<PlanCap>, plan: seq<PlanCap>)
    requires PlanOk(plan)
  {
    && PlanOk(budgets)
    && SumsOf(Amounts(budgets), Amounts(plan))
    && forall i :: 0 <= i < |budgets| ==> KeepsDecimals(budgets[i], plan)
  }

  predicate IsBudget(b: PlanCap, t: string, plan: seq<PlanCap>, n: nat)
    requires PlanOk(plan) && n <= |plan|
  {
    && b.token == t && Decimal.Digits(b.units)
    && Decimal.Parse(b.units) == Total(Amounts(plan)[..n], t)
    && b.decimals == LastDecimals(plan[..n], t)
  }

  /** The Map after the first n caps. */
  ghost predicate Planned(byToken: map<string, PlanCap>, order: seq<string>, plan: seq<PlanCap>, n: nat)
    requires PlanOk(plan) && n <= |plan|
  {
    && order == Tokens(Amounts(plan)[..n])
    && (forall t :: t in byToken <==> t in order)
    && (forall t :: t in byToken ==> IsBudget(byToken[t], t, plan, n))
  }

  /** The units the Map already holds for a token. */
  function Held(byToken: map<string, PlanCap>, token: string): nat
    requires token in byToken ==> Decimal.Digits(byToken[token].units)
  {
    if token in byToken then Decimal.Parse(byToken[token].units) else 0
  }

  /** The budget of a token when one more cap arrives: of that token, or of another. */
  lemma {:induction false} BudgetStep(b: PlanCap, plan: seq<PlanCap>, n: nat, t: string, held: nat)
    requires PlanOk(plan) && n < |plan|
    requires held == Total(Amounts(plan)[..n], t)
    ensures t == plan[n].token && b == PlanCap(t, Decimal.Print(held + Decimal.Parse(plan[n].units)), plan[n].decimals)
            ==> IsBudget(b, t, plan, n + 1)
    ensures t != plan[n].token && IsBudget(b, t, plan, n) ==> IsBudget(b, t, plan, n + 1)
  {
    OneMore(Amounts(plan), n, t);
    assert Amounts(plan)[n] == Amount(plan[n].token, Decimal.Parse(plan[n].units));
    assert plan[..n + 1][..n] == plan[..n] && plan[..n + 1][n] == plan[n];
    assert LastDecimals(plan[..n + 1], t)
        == if t == plan[n].token then plan[n].decimals else LastDecimals(plan[..n], t);
    Decimal.ParsePrint(held + Decimal.Parse(plan[n].units));
  }

  lemma {:induction false} PlannedStep(byToken: map<string, PlanCap>, order: seq<string>, plan: seq<PlanCap>, n: nat,
                                       b: PlanCap)
    requires PlanOk(plan) && n < |plan| && Planned(byToken, order, plan, n)
    requires plan[n].token in byToken ==> Decimal.Digits(byToken[plan[n].token].units)
    requires b == PlanCap(plan[n].token, Decimal.Print(Held(byToken, plan[n].token) + Decimal.Parse(plan[n].units)),
                          plan[n].decimals)
    ensures Planned(byToken[b.token := b], if b.token in byToken then order else order + [b.token], plan, n + 1)
  {
    var after := byToken[b.token := b];
    OneMore(Amounts(plan), n, b.token);
    forall t | t in after ensures IsBudget(after[t], t, plan, n + 1) {
      BudgetStep(after[t], plan, n, t, Total(Amounts(plan)[..n], t));
    }
  }

  lemma {:induction false} AllPlanned(byToken: map<string, PlanCap>, order: seq<string>, plan: seq<PlanCap>,
                                      budgets: seq<PlanCap>)
    requires PlanOk(plan) && Planned(byToken, order, plan, |plan|) && |budgets| == |order|
    requires forall i :: 0 <= i < |order| ==> order[i] in byToken && budgets[i] == byToken[order[i]]
    ensures Reviewed(budgets, plan)
  {
    assert Amounts(plan)[..|plan|] == Amounts(plan) && plan[..|plan|] == plan;
  }

  /** The loop of planReviewedBudgets, with the units of every budget printed back to text. */
  method PlanReviewedBudgets(plan: seq<PlanCap>) returns (budgets: seq<PlanCap>)
    requires PlanOk(plan)
    ensures Reviewed(budgets, plan)
  {
    var order: seq<string> := [];
    var byToken: map<string, PlanCap> := map[];
    for n := 0 to |plan|
      invariant Planned(byToken, order, plan, n)
    {
      var cap := plan[n];
      var units := Held(byToken, cap.token);
      var grown := PlanCap(cap.token, Decimal.Print(units + Decimal.Parse(cap.units)), cap.decimals);
      PlannedStep(byToken, order, plan, n, grown);
      if cap.token !in byToken {
        order := order + [cap.token];
      }
      byToken := byToken[cap.token := grown];
    }
    budgets := [];
    for n := 0 to |order|
      invariant |budgets| == n
      invariant forall i :: 0 <= i < n ==> order[i] in byToken && budgets[i] == byToken[order[i]]
    {
      budgets := budgets + [byToken[order[n]]];
    }
    AllPlanned(byToken, order, plan, budgets);
  }

  /** A grant whose budgets were planned from its own caps has no headroom left, and funds every token of the caps. */
  lemma {:induction false} PlannedBudgetsLeaveNoHeadroom(plan: seq<PlanCap>, budgets: seq<PlanCap>, t: string)
    requires PlanOk(plan) && Reviewed(budgets, plan)
    ensures forall i :: 0 <= i < |budgets| ==>
              var b := Amounts(budgets)[i]; b.units - Total(Amounts(plan), b.token) == 0
    ensures Total(Amounts(budgets), t) == Total(Amounts(plan), t)
  {
    SumsConserveUnits(Amounts(budgets), Amounts(plan), t);
  }

  /** Planning the budgets and decoding the grant they make, end to end. */
  method PlanThenDecode(plan: seq<PlanCap>) returns (headroom: seq<Amount>)
    requires PlanOk(plan)
    ensures |headroom| == |Tokens(Amounts(plan))|
    ensures forall i :: 0 <= i < |headroom| ==> headroom[i] == Amount(Tokens(Amounts(plan))[i], 0)
  {
    var budgets := PlanReviewedBudgets(plan);
    headroom := AllowanceHeadroom(Amounts(budgets), Amounts(plan));
  }
}
