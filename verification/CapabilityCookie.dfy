/** The proxy's capability cookies: selecting one from a Cookie header, and vetting a Set-Cookie. */
module CapabilityCookie {
  import opened Basics
  import Decimal

  const MAX_CAPABILITY_AGE_SECONDS: nat := 2_592_000

  // ---- String operations ----

  /** The characters String.prototype.trim removes. */
  predicate IsSpace(c: char) {
    var n := c as int;
    || 9 <= n <= 13 || n == 32 || n == 0xA0 || n == 0x1680 || 0x2000 <= n <= 0x200A
    || n == 0x2028 || n == 0x2029 || n == 0x202F || n == 0x205F || n == 0x3000 || n == 0xFEFF
  }

  function TrimStart(s: string): string {
    if s != "" && IsSpace(s[0]) then TrimStart(s[1..]) else s
  }

  function TrimEnd(s: string): string {
    if s != "" && IsSpace(s[|s| - 1]) then TrimEnd(s[..|s| - 1]) else s
  }

  function Trim(s: string): string {
    TrimEnd(TrimStart(s))
  }

  /** s.split(';') */
  function Split(s: string): (parts: seq<string>)
    ensures parts != []
  {
    if s == "" then [""]
    else
      var rest := Split(s[1..]);
      if s[0] == ';' then [""] + rest else [[s[0]] + rest[0]] + rest[1..]
  }

  /** s.indexOf('='), or -1. */
  function IndexOfEq(s: string): (i: int)
    ensures -1 <= i < |s|
    ensures i >= 0 ==> s[i] == '=' && '=' !in s[..i]
    ensures i == -1 ==> '=' !in s
  {
    if s == "" then -1
    else if s[0] == '=' then 0
    else
      var i := IndexOfEq(s[1..]);
      assert s == [s[0]] + s[1..];
      if i < 0 then -1
      else
        assert s[..i + 1] == [s[0]] + s[1..][..i];
        i + 1
  }

  predicate CanonicalCapability(v: string) {
    |v| == 64 && forall i :: 0 <= i < |v| ==> LowerHex(v[i])
  }

  function CapabilityCookieName(kind: string, id: string): string {
    "__Host-vf-" + kind + "-" + id
  }

  // ---- Parsing a Cookie header ----

  /** The value of a part that carries exactly this name. */
  function ValueOf(part: string, name: string): Option<string> {
    var trimmed := Trim(part);
    var eq := IndexOfEq(trimmed);
    if eq > 0 && trimmed[..eq] == name then Some(trimmed[eq + 1..]) else None
  }

  function Matches(parts: seq<string>, name: string): seq<string> {
    if parts == [] then []
    else
      var last := ValueOf(parts[|parts| - 1], name);
      Matches(parts[..|parts| - 1], name) + (if last.Some? then [last.value] else [])
  }

  function Selected(header: string, name: string): Option<string> {
    var matches := Matches(Split(header), name);
    if |matches| == 1 && CanonicalCapability(matches[0]) then Some(matches[0]) else None
  }

  method ParseCapabilityCookies(header: string, exactName: string) returns (value: Option<string>)
    ensures value == Selected(header, exactName)
  {
    var parts := Split(header);
    var matches: seq<string> := [];
    for n := 0 to |parts|
      invariant matches == Matches(parts[..n], exactName)
    {
      assert parts[..n + 1][..n] == parts[..n];
      var trimmed := Trim(parts[n]);
      var eq := IndexOfEq(trimmed);
      if eq <= 0 {
        continue;
      }
      if trimmed[..eq] == exactName {
        matches := matches + [trimmed[eq + 1..]];
      }
    }
    assert parts[..|parts|] == parts;
    if |matches| != 1 {
      return None;
    }
    return if CanonicalCapability(matches[0]) then Some(matches[0]) else None;
  }

  // ---- Printing ----

  datatype Pair = Pair(name: string, value: string)

  predicate PlainChars(s: string) {
    forall i :: 0 <= i < |s| ==> s[i] != ';' && !IsSpace(s[i])
  }

  /** cookie-pair of section 4.2.1 of RFC 6265: a token, '=', and a value free of separators and spaces. */
  predicate PairOk(p: Pair) {
    p.name != "" && '=' !in p.name && PlainChars(p.name) && PlainChars(p.value)
  }

  function PrintPair(p: Pair): string {
    p.name + "=" + p.value
  }

  /** Pieces separated by "; ". */
  function Joined(pieces: seq<string>): string {
    if pieces == [] then ""
    else pieces[0] + (if |pieces| == 1 then "" else "; " + Joined(pieces[1..]))
  }

  function PrintedPairs(ps: seq<Pair>): seq<string> {
    if ps == [] then [] else [PrintPair(ps[0])] + PrintedPairs(ps[1..])
  }

  /** A piece survives splitting and trimming as it is. */
  predicate PieceOk(s: string) {
    s != "" && ';' !in s && !IsSpace(s[0]) && !IsSpace(s[|s| - 1])
  }

  function TrimAll(parts: seq<string>): (r: seq<string>)
    ensures |r| == |parts|
    ensures forall i :: 0 <= i < |parts| ==> r[i] == Trim(parts[i])
  {
    if parts == [] then [] else [Trim(parts[0])] + TrimAll(parts[1..])
  }

  lemma {:induction false} SplitWhole(s: string)
    requires ';' !in s
    ensures Split(s) == [s]
  {
    if s != "" {
      SplitWhole(s[1..]);
      assert s == [s[0]] + s[1..];
    }
  }

  lemma {:induction false} SplitFirst(s: string, rest: string)
    requires ';' !in s
    ensures Split(s + ";" + rest) == [s] + Split(rest)
  {
    var all := s + ";" + rest;
    if s == "" {
      assert all[1..] == rest;
    } else {
      SplitFirst(s[1..], rest);
      assert all[1..] == s[1..] + ";" + rest;
      assert s == [s[0]] + s[1..];
    }
  }

  /** Splitting after a leading space only moves the space into the first part. */
  lemma {:induction false} SplitSpace(s: string)
    ensures Split(" " + s) == [" " + Split(s)[0]] + Split(s)[1..]
  {
    assert (" " + s)[1..] == s;
  }

  lemma {:induction false} TrimOk(s: string)
    requires PieceOk(s)
    ensures Trim(s) == s && Trim(" " + s) == s
  {
    assert (" " + s)[1..] == s;
  }

  lemma {:induction false} LeadingSpaceTrims(s: string)
    ensures Trim(" " + s) == Trim(s)
  {
    assert (" " + s)[1..] == s;
  }

  lemma {:induction false} TrimAllOfSplit(first: string, rest: string)
    requires PieceOk(first)
    ensures TrimAll(Split(first + ";" + (" " + rest))) == [first] + TrimAll(Split(rest))
  {
    TrimOk(first);
    SplitFirst(first, " " + rest);
    SplitSpace(rest);
    LeadingSpaceTrims(Split(rest)[0]);
    var tail := Split(rest);
    assert TrimAll([first] + ([" " + tail[0]] + tail[1..])) == [first] + TrimAll(tail);
  }

  lemma {:induction false} JoinedUnfolds(pieces: seq<string>)
    requires |pieces| > 1
    ensures Joined(pieces) == pieces[0] + ";" + (" " + Joined(pieces[1..]))
  {
    var rest := Joined(pieces[1..]);
    assert "; " + rest == ";" + (" " + rest);
  }

  /** Splitting and trimming a joined line gives back its pieces. */
  lemma {:induction false} SplitJoined(pieces: seq<string>)
    requires pieces != [] && forall i :: 0 <= i < |pieces| ==> PieceOk(pieces[i])
    ensures TrimAll(Split(Joined(pieces))) == pieces
  {
    if |pieces| == 1 {
      assert Joined(pieces) == pieces[0] + "" == pieces[0];
      SplitWhole(pieces[0]);
      TrimOk(pieces[0]);
    } else {
      var rest := Joined(pieces[1..]);
      SplitJoined(pieces[1..]);
      JoinedUnfolds(pieces);
      TrimAllOfSplit(pieces[0], rest);
    }
  }

  lemma {:induction false} FirstEqAt(s: string, n: nat)
    requires n < |s| && s[n] == '=' && '=' !in s[..n]
    ensures IndexOfEq(s) == n
  {
    if n > 0 {
      assert s[..n] == [s[0]] + s[1..][..n - 1];
      FirstEqAt(s[1..], n - 1);
    }
  }

  lemma {:induction false} PairIsPiece(p: Pair)
    requires PairOk(p)
    ensures PieceOk(PrintPair(p))
    ensures IndexOfEq(PrintPair(p)) == |p.name|
  {
    var s := PrintPair(p);
    assert s[..|p.name|] == p.name;
    FirstEqAt(s, |p.name|);
    forall k | 0 <= k < |s| ensures s[k] != ';' && !IsSpace(s[k]) {
      if k > |p.name| {
        assert s[k] == p.value[k - |p.name| - 1];
      } else if k < |p.name| {
        assert s[k] == p.name[k];
      }
    }
  }

  /** The values of the pairs that carry the name, in order. */
  function ValuesNamed(ps: seq<Pair>, name: string): seq<string> {
    if ps == [] then []
    else ValuesNamed(ps[..|ps| - 1], name) + (if ps[|ps| - 1].name == name then [ps[|ps| - 1].value] else [])
  }

  lemma {:induction false} PrintedAt(ps: seq<Pair>, i: nat)
    requires i < |ps|
    ensures |PrintedPairs(ps)| == |ps| && PrintedPairs(ps)[i] == PrintPair(ps[i])
  {
    if i > 0 {
      PrintedAt(ps[1..], i - 1);
    } else if |ps| > 1 {
      PrintedAt(ps[1..], 0);
    }
  }

  lemma {:induction false} ValueOfPair(part: string, p: Pair, name: string)
    requires PairOk(p) && Trim(part) == PrintPair(p)
    ensures ValueOf(part, name) == if p.name == name then Some(p.value) else None
  {
    PairIsPiece(p);
    var s := PrintPair(p);
    assert s[..|p.name|] == p.name && s[|p.name| + 1..] == p.value;
  }

  lemma {:induction false} MatchesOfPairs(parts: seq<string>, ps: seq<Pair>, name: string)
    requires |parts| == |ps|
    requires forall i :: 0 <= i < |ps| ==> PairOk(ps[i]) && Trim(parts[i]) == PrintPair(ps[i])
    ensures Matches(parts, name) == ValuesNamed(ps, name)
  {
    if ps != [] {
      var last := |ps| - 1;
      MatchesOfPairs(parts[..last], ps[..last], name);
      ValueOfPair(parts[last], ps[last], name);
    }
  }

  /** From a header built of well-formed pairs the values under the name are read back, all and in order. */
  lemma {:induction false} HeaderMatches(ps: seq<Pair>, name: string)
    requires forall i :: 0 <= i < |ps| ==> PairOk(ps[i])
    ensures Matches(Split(Joined(PrintedPairs(ps))), name) == ValuesNamed(ps, name)
  {
    if ps == [] {
      assert Split("") == [""];
      assert Trim("") == "" && IndexOfEq("") == -1;
      assert [""][..0] == [];
    } else {
      var pieces := PrintedPairs(ps);
      PrintedAt(ps, 0);
      forall i | 0 <= i < |ps| ensures pieces[i] == PrintPair(ps[i]) && PieceOk(pieces[i]) {
        PrintedAt(ps, i);
        PairIsPiece(ps[i]);
      }
      SplitJoined(pieces);
      var parts := Split(Joined(pieces));
      assert |parts| == |TrimAll(parts)| == |pieces|;
      forall i | 0 <= i < |ps| ensures Trim(parts[i]) == PrintPair(ps[i]) {
        assert TrimAll(parts)[i] == pieces[i];
      }
      MatchesOfPairs(parts, ps, name);
    }
  }

  /** Pair i is the only one that carries the name. */
  predicate OnlyNamed(ps: seq<Pair>, name: string, i: nat) {
    i < |ps| && ps[i].name == name && forall j :: 0 <= j < |ps| && ps[j].name == name ==> j == i
  }

  lemma {:induction false} NoValueNamed(ps: seq<Pair>, name: string)
    ensures ValuesNamed(ps, name) == [] <==> forall j :: 0 <= j < |ps| ==> ps[j].name != name
  {
    if ps != [] {
      var last := |ps| - 1;
      NoValueNamed(ps[..last], name);
      if ps[last].name != name && ValuesNamed(ps[..last], name) != [] {
        var j :| 0 <= j < last && ps[..last][j].name == name;
        assert ps[j].name == name;
      }
    }
  }

  lemma {:induction false} OneValueNamed(ps: seq<Pair>, name: string) returns (i: nat)
    requires |ValuesNamed(ps, name)| == 1
    ensures OnlyNamed(ps, name, i)
  {
    var last := |ps| - 1;
    if ps[last].name == name {
      NoValueNamed(ps[..last], name);
      forall j | 0 <= j < last ensures ps[j].name != name {
        assert ps[..last][j] == ps[j];
      }
      i := last;
    } else {
      i := OneValueNamed(ps[..last], name);
      forall j | 0 <= j < last && ps[j].name == name ensures j == i {
        assert ps[..last][j] == ps[j];
      }
    }
  }

  lemma {:induction false} OnlyNamedIsTheValue(ps: seq<Pair>, name: string, i: nat)
    requires OnlyNamed(ps, name, i)
    ensures ValuesNamed(ps, name) == [ps[i].value]
  {
    var last := |ps| - 1;
    if i == last {
      NoValueNamed(ps[..last], name);
    } else {
      OnlyNamedIsTheValue(ps[..last], name, i);
    }
  }

  /**
   * Round trip: from any header built of well-formed pairs, a value is selected exactly when one
   * pair has the name, and it is that pair's value, and the value is a canonical capability.
   */
  lemma {:induction false} HeaderRoundTrip(ps: seq<Pair>, name: string, value: string)
    requires forall i :: 0 <= i < |ps| ==> PairOk(ps[i])
    ensures Selected(Joined(PrintedPairs(ps)), name) == Some(value)
       <==> && |value| == 64 && (forall k :: 0 <= k < 64 ==> '0' <= value[k] <= '9' || 'a' <= value[k] <= 'f')
            && exists i: nat :: OnlyNamed(ps, name, i) && ps[i].value == value
  {
    HeaderMatches(ps, name);
    if |ValuesNamed(ps, name)| == 1 {
      var i := OneValueNamed(ps, name);
      OnlyNamedIsTheValue(ps, name, i);
    }
    forall i: nat | OnlyNamed(ps, name, i) ensures ValuesNamed(ps, name) == [ps[i].value] {
      OnlyNamedIsTheValue(ps, name, i);
    }
  }

  // ---- Vetting an upstream Set-Cookie ----

  const FIXED: seq<string> := ["Secure", "HttpOnly", "SameSite=Strict", "Path=/"]
  const MAX_AGE: string := "Max-Age="

  predicate NoRepeats(s: seq<string>) {
    forall i, j :: 0 <= i < j < |s| ==> s[i] != s[j]
  }

  /** The first attribute that is none of the fixed ones. */
  function Other(attrs: seq<string>, fixed: seq<string>): Option<string> {
    if attrs == [] then None
    else if attrs[0] !in fixed then Some(attrs[0])
    else Other(attrs[1..], fixed)
  }

  /** One attribute more than the fixed ones, all different, with every fixed one among them. */
  predicate FixedAndOne(attrs: seq<string>, fixed: seq<string>) {
    && |attrs| == |fixed| + 1 && NoRepeats(attrs)
    && forall i :: 0 <= i < |fixed| ==> fixed[i] in attrs
  }

  /** The number in Max-Age=<digits>. */
  function AgeOf(attr: string): Option<nat> {
    if MAX_AGE <= attr && Decimal.Digits(attr[|MAX_AGE|..]) then Some(Decimal.Parse(attr[|MAX_AGE|..])) else None
  }

  predicate IssueOk(revoke: bool, expected: Option<string>, value: string, age: nat) {
    if revoke then value == "" && age == 0
    else
      && CanonicalCapability(value) && (expected.None? || value == expected.value)
      && 1 <= age <= MAX_CAPABILITY_AGE_SECONDS
  }

  /** What the whole check asks of the attributes and the value, once the name is right. */
  predicate AttributesOk(attrs: seq<string>, revoke: bool, expected: Option<string>, value: string) {
    && FixedAndOne(attrs, FIXED)
    && var maxAge := Other(attrs, FIXED);
    && maxAge.Some? && AgeOf(maxAge.value).Some?
    && IssueOk(revoke, expected, value, AgeOf(maxAge.value).value)
  }

  /** The check on the trimmed parts of a Set-Cookie: name and value first, attributes after it. */
  predicate PartsOk(nameValue: string, attrs: seq<string>, name: string, revoke: bool, expected: Option<string>) {
    var eq := IndexOfEq(nameValue);
    eq > 0 && nameValue[..eq] == name && AttributesOk(attrs, revoke, expected, nameValue[eq + 1..])
  }

  /** validateUpstreamSetCookie, on a header that is a string. */
  predicate ValidateUpstreamSetCookie(
      setCookie: string, kind: string, id: string, revoke: bool, expected: Option<string>) {
    var parts := TrimAll(Split(setCookie));
    PartsOk(parts[0], parts[1..], CapabilityCookieName(kind, id), revoke, expected)
  }

  /** The fixed attributes and this one, each once, in any order. */
  ghost predicate ExactAttributes(attrs: seq<string>, fixed: seq<string>, m: string) {
    m !in fixed && multiset(attrs) == multiset(fixed) + multiset{m}
  }

  lemma {:induction false} OtherIsInAttrs(attrs: seq<string>, fixed: seq<string>)
    ensures Other(attrs, fixed).Some? ==> Other(attrs, fixed).value in attrs && Other(attrs, fixed).value !in fixed
    ensures Other(attrs, fixed).None? ==> forall a :: a in attrs ==> a in fixed
  {
    if attrs != [] {
      OtherIsInAttrs(attrs[1..], fixed);
      assert attrs == [attrs[0]] + attrs[1..];
    }
  }

  lemma {:induction false} NoRepeatsCount(s: seq<string>, x: string)
    requires NoRepeats(s)
    ensures multiset(s)[x] == if x in s then 1 else 0
  {
    if s != [] {
      var last := |s| - 1;
      NoRepeatsCount(s[..last], x);
      assert s == s[..last] + [s[last]];
    }
  }

  lemma {:induction false} CountImpliesNoRepeats(s: seq<string>)
    requires forall x :: multiset(s)[x] <= 1
    ensures NoRepeats(s)
  {
    if s != [] {
      var last := |s| - 1;
      assert s == s[..last] + [s[last]];
      forall x ensures multiset(s[..last])[x] <= 1 {
        assert multiset(s)[x] <= 1;
      }
      CountImpliesNoRepeats(s[..last]);
      assert multiset(s)[s[last]] <= 1;
      assert s[last] !in multiset(s[..last]);
    }
  }

  lemma {:induction false} FixedAndOneIsExact(attrs: seq<string>, fixed: seq<string>, m: string)
    requires NoRepeats(fixed) && FixedAndOne(attrs, fixed) && m in attrs && m !in fixed
    ensures ExactAttributes(attrs, fixed, m)
  {
    var want := multiset(fixed) + multiset{m};
    forall x ensures want[x] <= multiset(attrs)[x] {
      NoRepeatsCount(attrs, x);
      NoRepeatsCount(fixed, x);
    }
    assert |want| == |fixed| + 1 == |attrs| == |multiset(attrs)|;
    assert want <= multiset(attrs);
    assert |multiset(attrs) - want| == 0;
    assert multiset(attrs) == want + (multiset(attrs) - want);
  }

  lemma {:induction false} ExactAttributesHas(attrs: seq<string>, fixed: seq<string>, m: string, x: string)
    requires ExactAttributes(attrs, fixed, m)
    ensures x in attrs <==> x in fixed || x == m
  {
    assert x in attrs <==> x in multiset(attrs);
    assert x in fixed <==> x in multiset(fixed);
  }

  lemma {:induction false} ExactIsFixedAndOne(attrs: seq<string>, fixed: seq<string>, m: string)
    requires NoRepeats(fixed) && ExactAttributes(attrs, fixed, m)
    ensures FixedAndOne(attrs, fixed) && Other(attrs, fixed) == Some(m)
  {
    assert |attrs| == |multiset(attrs)| == |fixed| + 1;
    forall x ensures multiset(attrs)[x] <= 1 {
      NoRepeatsCount(fixed, x);
    }
    CountImpliesNoRepeats(attrs);
    forall i | 0 <= i < |fixed| ensures fixed[i] in attrs {
      ExactAttributesHas(attrs, fixed, m, fixed[i]);
    }
    OtherIsInAttrs(attrs, fixed);
    ExactAttributesHas(attrs, fixed, m, m);
    if Other(attrs, fixed).Some? {
      ExactAttributesHas(attrs, fixed, m, Other(attrs, fixed).value);
    }
  }

  lemma {:induction false} FixedHasNoRepeats()
    ensures NoRepeats(FIXED)
  {
    assert |FIXED[0]| == 6 && |FIXED[1]| == 8 && |FIXED[2]| == 15 && |FIXED[3]| == 6;
    assert FIXED[0][0] != FIXED[3][0];
  }

  ghost predicate GoodAge(attrs: seq<string>, revoke: bool, expected: Option<string>, value: string, m: string) {
    && ExactAttributes(attrs, ["Secure", "HttpOnly", "SameSite=Strict", "Path=/"], m)
    && AgeOf(m).Some?
    && if revoke then value == "" && AgeOf(m).value == 0
       else
         && CanonicalCapability(value) && (expected == None || expected == Some(value))
         && 1 <= AgeOf(m).value <= 2_592_000
  }

  lemma {:induction false} AttributesAreExact(attrs: seq<string>, revoke: bool, expected: Option<string>, value: string)
    ensures AttributesOk(attrs, revoke, expected, value) <==> exists m :: GoodAge(attrs, revoke, expected, value, m)
  {
    FixedHasNoRepeats();
    OtherIsInAttrs(attrs, FIXED);
    if AttributesOk(attrs, revoke, expected, value) {
      var m := Other(attrs, FIXED).value;
      FixedAndOneIsExact(attrs, FIXED, m);
      assert GoodAge(attrs, revoke, expected, value, m);
    }
    if m :| GoodAge(attrs, revoke, expected, value, m) {
      ExactIsFixedAndOne(attrs, FIXED, m);
    }
  }

  /** The Set-Cookie line of a pair and its attributes. */
  function PrintCookie(p: Pair, attrs: seq<string>): string {
    Joined([PrintPair(p)] + attrs)
  }

  predicate PiecesOk(attrs: seq<string>) {
    forall i :: 0 <= i < |attrs| ==> PieceOk(attrs[i])
  }

  lemma {:induction false} PrintedCookieParts(p: Pair, attrs: seq<string>)
    requires PairOk(p) && PiecesOk(attrs)
    ensures TrimAll(Split(PrintCookie(p, attrs))) == [PrintPair(p)] + attrs
  {
    PairIsPiece(p);
    SplitJoined([PrintPair(p)] + attrs);
  }

  lemma {:induction false} PairPartsOk(
      p: Pair, attrs: seq<string>, name: string, revoke: bool, expected: Option<string>)
    requires PairOk(p)
    ensures PartsOk(PrintPair(p), attrs, name, revoke, expected)
       <==> p.name == name && AttributesOk(attrs, revoke, expected, p.value)
  {
    PairIsPiece(p);
    var s := PrintPair(p);
    assert s[..|p.name|] == p.name && s[|p.name| + 1..] == p.value;
  }

  /**
   * A printed cookie is accepted exactly when it has the capability's name, and its attributes are,
   * in any order, the fixed four and one Max-Age that suits the issue or the clearing of its value.
   */
  lemma {:induction false} SetCookieIsExact(
      p: Pair, attrs: seq<string>, kind: string, id: string, revoke: bool, expected: Option<string>)
    requires PairOk(p) && PiecesOk(attrs)
    ensures ValidateUpstreamSetCookie(PrintCookie(p, attrs), kind, id, revoke, expected)
       <==> p.name == CapabilityCookieName(kind, id) && exists m :: GoodAge(attrs, revoke, expected, p.value, m)
  {
    PrintedCookieParts(p, attrs);
    assert ([PrintPair(p)] + attrs)[1..] == attrs;
    PairPartsOk(p, attrs, CapabilityCookieName(kind, id), revoke, expected);
    AttributesAreExact(attrs, revoke, expected, p.value);
  }

  lemma {:induction false} GoodAgeReordered(
      a: seq<string>, b: seq<string>, revoke: bool, expected: Option<string>, value: string)
    requires multiset(a) == multiset(b) && exists m :: GoodAge(a, revoke, expected, value, m)
    ensures exists m :: GoodAge(b, revoke, expected, value, m)
  {
    var m :| GoodAge(a, revoke, expected, value, m);
    assert GoodAge(b, revoke, expected, value, m);
  }

  /** Reordering the attributes of a printed cookie never turns an accepted cookie down. */
  lemma {:induction false} AttributeOrderDoesNotMatter(
      p: Pair, a: seq<string>, b: seq<string>, kind: string, id: string, revoke: bool, expected: Option<string>)
    requires PairOk(p) && PiecesOk(a) && multiset(a) == multiset(b)
    requires ValidateUpstreamSetCookie(PrintCookie(p, a), kind, id, revoke, expected)
    ensures ValidateUpstreamSetCookie(PrintCookie(p, b), kind, id, revoke, expected)
  {
    forall i | 0 <= i < |b| ensures PieceOk(b[i]) {
      assert b[i] in multiset(a);
    }
    SetCookieIsExact(p, a, kind, id, revoke, expected);
    GoodAgeReordered(a, b, revoke, expected, p.value);
    SetCookieIsExact(p, b, kind, id, revoke, expected);
  }

  predicate NamePart(s: string) {
    PlainChars(s) && '=' !in s
  }

  lemma {:induction false} CookiePairOk(kind: string, id: string, value: string)
    requires PlainChars(value) && NamePart(kind) && NamePart(id)
    ensures PairOk(Pair(CapabilityCookieName(kind, id), value))
  {
    var start := "__Host-vf-";
    var name := CapabilityCookieName(kind, id);
    forall i | 0 <= i < |name| ensures name[i] != ';' && !IsSpace(name[i]) && name[i] != '=' {
      if i > |start| + |kind| {
        assert name[i] == id[i - |start| - |kind| - 1];
      } else if |start| <= i < |start| + |kind| {
        assert name[i] == kind[i - |start|];
      }
    }
  }

  lemma {:induction false} AgeAttribute(age: nat)
    ensures var m := MAX_AGE + Decimal.Print(age); PieceOk(m) && AgeOf(m) == Some(age) && m !in FIXED
  {
    var m := MAX_AGE + Decimal.Print(age);
    Decimal.ParsePrint(age);
    assert m[|MAX_AGE|..] == Decimal.Print(age);
    forall i | 0 <= i < |m| ensures m[i] != ';' && !IsSpace(m[i]) {
      if i >= |MAX_AGE| {
        assert m[i] == Decimal.Print(age)[i - |MAX_AGE|];
      }
    }
    assert m[0] == 'M';
  }

  lemma {:induction false} FixedPiece(i: nat)
    requires i < |FIXED|
    ensures PieceOk(FIXED[i])
  {
  }

  lemma {:induction false} AgedCookieAccepted(
      kind: string, id: string, value: string, age: nat, attrs: seq<string>, revoke: bool, expected: Option<string>)
    requires NamePart(kind) && NamePart(id) && PlainChars(value) && IssueOk(revoke, expected, value, age)
    requires multiset(attrs) == multiset(FIXED + [MAX_AGE + Decimal.Print(age)])
    ensures var p := Pair(CapabilityCookieName(kind, id), value);
            ValidateUpstreamSetCookie(PrintCookie(p, attrs), kind, id, revoke, expected)
  {
    var p := Pair(CapabilityCookieName(kind, id), value);
    var m := MAX_AGE + Decimal.Print(age);
    var listed := FIXED + [m];
    CookiePairOk(kind, id, value);
    AgeAttribute(age);
    assert GoodAge(listed, revoke, expected, value, m);
    forall i | 0 <= i < |listed| ensures PieceOk(listed[i]) {
      if i < |FIXED| { FixedPiece(i); }
    }
    SetCookieIsExact(p, listed, kind, id, revoke, expected);
    AttributeOrderDoesNotMatter(p, listed, attrs, kind, id, revoke, expected);
  }

  /** An issue cookie is accepted under every attribute order: a canonical capability with any age up to the cap. */
  lemma {:induction false} IssueCookieAccepted(kind: string, id: string, value: string, age: nat, attrs: seq<string>)
    requires CanonicalCapability(value) && 1 <= age <= MAX_CAPABILITY_AGE_SECONDS
    requires NamePart(kind) && NamePart(id)
    requires multiset(attrs) == multiset(FIXED + [MAX_AGE + Decimal.Print(age)])
    ensures ValidateUpstreamSetCookie(
              PrintCookie(Pair(CapabilityCookieName(kind, id), value), attrs), kind, id, false, Some(value))
  {
    forall i | 0 <= i < |value| ensures value[i] != ';' && !IsSpace(value[i]) {
      assert LowerHex(value[i]);
    }
    AgedCookieAccepted(kind, id, value, age, attrs, false, Some(value));
  }

  /** A clearing cookie, empty and with Max-Age=0, is accepted under every attribute order. */
  lemma {:induction false} ClearCookieAccepted(kind: string, id: string, attrs: seq<string>)
    requires NamePart(kind) && NamePart(id)
    requires multiset(attrs) == multiset(FIXED + [MAX_AGE + "0"])
    ensures ValidateUpstreamSetCookie(
              PrintCookie(Pair(CapabilityCookieName(kind, id), ""), attrs), kind, id, true, None)
  {
    assert Decimal.Print(0) == "0";
    AgedCookieAccepted(kind, id, "", 0, attrs, true, None);
  }
}
