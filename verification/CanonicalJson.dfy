/**
 * Receipt comparison by canonical JSON text: sort object members, print, compare. Strings are
 * sequences of UTF-16 code units, and a number is the token its value prints as.
 */
module CanonicalJson {

  type Unit = n: nat | n < 0x1_0000
  type Text = seq<Unit>

  datatype Json =
    | Null
    | Bool(b: bool)
    | Num(token: Text)
    | Str(text: Text)
    | Arr(items: seq<Json>)
    | Obj(members: seq<Member>)

  datatype Member = Member(key: Text, value: Json)

  const QUOTE: Unit := 34
  const COMMA: Unit := 44
  const COLON: Unit := 58
  const BACKSLASH: Unit := 92
  const OPEN_BRACKET: Unit := 91
  const CLOSE_BRACKET: Unit := 93
  const OPEN_BRACE: Unit := 123
  const CLOSE_BRACE: Unit := 125

  // ---- Well-formed values ----

  /** Digits and - + . e, the units of a printed number. */
  predicate NumberUnit(u: Unit) {
    48 <= u <= 57 || u == 45 || u == 43 || u == 46 || u == 101
  }

  /** A printed number starts with a digit or a minus sign. */
  predicate NumberToken(t: Text) {
    && t != [] && (48 <= t[0] <= 57 || t[0] == 45)
    && forall i :: 0 <= i < |t| ==> NumberUnit(t[i])
  }

  predicate DistinctKeys(ms: seq<Member>) {
    forall i, j :: 0 <= i < j < |ms| ==> ms[i].key != ms[j].key
  }

  predicate Valid(v: Json) {
    match v
    case Num(token) => NumberToken(token)
    case Arr(items) => forall i :: 0 <= i < |items| ==> Valid(items[i])
    case Obj(ms) => DistinctKeys(ms) && forall i :: 0 <= i < |ms| ==> Valid(ms[i].value)
    case _ => true
  }

  // ---- JSON.stringify ----

  /** Printed text as a list; every printer puts its text in front of what follows. */
  datatype Chars = End | Cons(head: Unit, tail: Chars)

  function HexDigit(d: nat): Unit
    requires d < 16
  {
    if d < 10 then 48 + d else 87 + d
  }

  /** Backslash, u and four lowercase hexadecimal digits. */
  function UnicodeEscape(u: Unit, rest: Chars): Chars {
    Cons(BACKSLASH, Cons(117,
      Cons(HexDigit(u / 4096),
        Cons(HexDigit(u / 256 % 16), Cons(HexDigit(u / 16 % 16), Cons(HexDigit(u % 16), rest))))))
  }

  predicate HighSurrogate(u: Unit) { 0xD800 <= u <= 0xDBFF }
  predicate LowSurrogate(u: Unit) { 0xDC00 <= u <= 0xDFFF }

  /** The letter after a backslash in the two-unit escapes, or 0. */
  function ShortEscape(u: Unit): Unit {
    if u == QUOTE || u == BACKSLASH then u
    else if u == 8 then 98
    else if u == 9 then 116
    else if u == 10 then 110
    else if u == 12 then 102
    else if u == 13 then 114
    else 0
  }

  /** One code unit that is not part of a surrogate pair. */
  function EscapeUnit(u: Unit, rest: Chars): Chars {
    if ShortEscape(u) != 0 then Cons(BACKSLASH, Cons(ShortEscape(u), rest))
    else if u < 32 || HighSurrogate(u) || LowSurrogate(u) then UnicodeEscape(u, rest)
    else Cons(u, rest)
  }

  predicate StartsWithPair(s: Text) {
    |s| >= 2 && HighSurrogate(s[0]) && LowSurrogate(s[1])
  }

  function Escape(s: Text, rest: Chars): Chars {
    if s == [] then rest
    else if StartsWithPair(s) then Cons(s[0], Cons(s[1], Escape(s[2..], rest)))
    else EscapeUnit(s[0], Escape(s[1..], rest))
  }

  function Quote(s: Text, rest: Chars): Chars {
    Cons(QUOTE, Escape(s, Cons(QUOTE, rest)))
  }

  function PrintToken(t: Text, rest: Chars): Chars {
    if t == [] then rest else Cons(t[0], PrintToken(t[1..], rest))
  }

  function Print(v: Json, rest: Chars): Chars
    decreases v, 0
  {
    match v
    case Null => PrintToken([110, 117, 108, 108], rest)
    case Bool(b) => PrintToken(if b then [116, 114, 117, 101] else [102, 97, 108, 115, 101], rest)
    case Num(token) => PrintToken(token, rest)
    case Str(text) => Quote(text, rest)
    case Arr(items) => Cons(OPEN_BRACKET, PrintItems(items, Cons(CLOSE_BRACKET, rest)))
    case Obj(ms) => Cons(OPEN_BRACE, PrintMembers(ms, Cons(CLOSE_BRACE, rest)))
  }

  function PrintItems(items: seq<Json>, rest: Chars): Chars
    decreases items, 1
  {
    if items == [] then rest
    else Print(items[0], if |items| == 1 then rest else Cons(COMMA, PrintItems(items[1..], rest)))
  }

  function PrintMembers(ms: seq<Member>, rest: Chars): Chars
    decreases ms, 1
  {
    if ms == [] then rest
    else
      Quote(ms[0].key, Cons(COLON,
        Print(ms[0].value, if |ms| == 1 then rest else Cons(COMMA, PrintMembers(ms[1..], rest)))))
  }

  // ---- The printer is unambiguous ----

  lemma {:induction false} HexExpansion(u: Unit)
    ensures u == u / 4096 * 4096 + u / 256 % 16 * 256 + u / 16 % 16 * 16 + u % 16
  {
    var a, b, c := u / 16, u / 256, u / 4096;
    assert b == a / 16 && c == b / 16;
    assert u == 16 * a + u % 16;
    assert a == 16 * b + a % 16;
    assert b == 16 * c + b % 16;
  }

  lemma {:induction false} HexDigitsDetermine(u: Unit, w: Unit)
    requires u / 4096 == w / 4096 && u / 256 % 16 == w / 256 % 16 && u / 16 % 16 == w / 16 % 16 && u % 16 == w % 16
    ensures u == w
  {
    HexExpansion(u);
    HexExpansion(w);
  }

  /** Escaped units form a prefix-free code. */
  lemma {:induction false} EscapeUnitIsPrefixFree(u: Unit, w: Unit, r: Chars, q: Chars)
    requires EscapeUnit(u, r) == EscapeUnit(w, q)
    ensures u == w && r == q
  {
    if ShortEscape(u) == 0 && ShortEscape(w) == 0 && EscapeUnit(u, r).head == BACKSLASH {
      HexDigitsDetermine(u, w);
    }
  }

  /** No escaped unit starts with a quote or with a bare high surrogate. */
  lemma {:induction false} EscapeUnitShape(u: Unit, r: Chars)
    ensures EscapeUnit(u, r).Cons? && EscapeUnit(u, r).head != QUOTE && !HighSurrogate(EscapeUnit(u, r).head)
  {
  }

  /** The closing quote is found, so a quoted string can be read back from the front. */
  lemma {:induction false} EscapeIsUnambiguous(s: Text, t: Text, r: Chars, q: Chars)
    requires Escape(s, Cons(QUOTE, r)) == Escape(t, Cons(QUOTE, q))
    ensures s == t && r == q
    decreases |s|
  {
    var r', q' := Cons(QUOTE, r), Cons(QUOTE, q);
    if s != [] { EscapeUnitShape(s[0], Escape(s[1..], r')); }
    if t != [] { EscapeUnitShape(t[0], Escape(t[1..], q')); }
    if s != [] && t != [] {
      if StartsWithPair(s) {
        EscapeIsUnambiguous(s[2..], t[2..], r, q);
        assert s == [s[0], s[1]] + s[2..] && t == [t[0], t[1]] + t[2..];
      } else {
        EscapeUnitIsPrefixFree(s[0], t[0], Escape(s[1..], r'), Escape(t[1..], q'));
        EscapeIsUnambiguous(s[1..], t[1..], r, q);
        assert s == [s[0]] + s[1..] && t == [t[0]] + t[1..];
      }
    }
  }

  /** What may follow a value: the end, a comma or a closing bracket. */
  predicate Delimits(r: Chars) {
    r.End? || r.head == COMMA || r.head == CLOSE_BRACKET || r.head == CLOSE_BRACE
  }

  lemma {:induction false} TokenEnds(a: Text, b: Text, r: Chars, q: Chars)
    requires forall i :: 0 <= i < |a| ==> NumberUnit(a[i])
    requires forall i :: 0 <= i < |b| ==> NumberUnit(b[i])
    requires Delimits(r) && Delimits(q) && PrintToken(a, r) == PrintToken(b, q)
    ensures a == b && r == q
  {
    if a != [] && b != [] {
      TokenEnds(a[1..], b[1..], r, q);
      assert a == [a[0]] + a[1..] && b == [b[0]] + b[1..];
    }
  }

  /** The first unit of a printed value tells its kind. */
  lemma {:induction false} FirstUnit(v: Json, r: Chars)
    requires Valid(v)
    ensures Print(v, r).Cons?
    ensures var u := Print(v, r).head;
            match v
            case Null => u == 110
            case Bool(b) => u == if b then 116 else 102
            case Num(_) => 48 <= u <= 57 || u == 45
            case Str(_) => u == QUOTE
            case Arr(_) => u == OPEN_BRACKET
            case Obj(_) => u == OPEN_BRACE
  {
  }

  lemma {:induction false} SameTokenEnds(t: Text, r: Chars, q: Chars)
    ensures PrintToken(t, r) == PrintToken(t, q) ==> r == q
  {
    if t != [] {
      SameTokenEnds(t[1..], r, q);
    }
  }

  lemma {:induction false} WordEnds(r: Chars, q: Chars)
    ensures PrintToken([110, 117, 108, 108], r) == PrintToken([110, 117, 108, 108], q) ==> r == q
    ensures PrintToken([116, 114, 117, 101], r) == PrintToken([116, 114, 117, 101], q) ==> r == q
    ensures PrintToken([102, 97, 108, 115, 101], r) == PrintToken([102, 97, 108, 115, 101], q) ==> r == q
  {
    SameTokenEnds([110, 117, 108, 108], r, q);
    SameTokenEnds([116, 114, 117, 101], r, q);
    SameTokenEnds([102, 97, 108, 115, 101], r, q);
  }

  /** Two values printed in front of delimiters agree only if they are the same value. */
  lemma {:induction false} PrintIsUnambiguous(v: Json, w: Json, r: Chars, q: Chars)
    requires Valid(v) && Valid(w) && Delimits(r) && Delimits(q)
    requires Print(v, r) == Print(w, q)
    ensures v == w && r == q
    decreases v, 0
  {
    FirstUnit(v, r);
    FirstUnit(w, q);
    match v
    case Num(token) => TokenEnds(token, w.token, r, q);
    case Str(text) => EscapeIsUnambiguous(text, w.text, r, q);
    case Arr(items) => ItemsAreUnambiguous(items, w.items, r, q);
    case Obj(ms) => MembersAreUnambiguous(ms, w.members, r, q);
    case _ => WordEnds(r, q);
  }

  lemma {:induction false} ItemsAreUnambiguous(xs: seq<Json>, ys: seq<Json>, r: Chars, q: Chars)
    requires forall i :: 0 <= i < |xs| ==> Valid(xs[i])
    requires forall i :: 0 <= i < |ys| ==> Valid(ys[i])
    requires PrintItems(xs, Cons(CLOSE_BRACKET, r)) == PrintItems(ys, Cons(CLOSE_BRACKET, q))
    ensures xs == ys && r == q
    decreases xs, 1
  {
    var r', q' := Cons(CLOSE_BRACKET, r), Cons(CLOSE_BRACKET, q);
    var x' := if |xs| <= 1 then r' else Cons(COMMA, PrintItems(xs[1..], r'));
    var y' := if |ys| <= 1 then q' else Cons(COMMA, PrintItems(ys[1..], q'));
    if xs != [] { FirstUnit(xs[0], x'); }
    if ys != [] { FirstUnit(ys[0], y'); }
    if xs != [] && ys != [] {
      PrintIsUnambiguous(xs[0], ys[0], x', y');
      if |xs| > 1 {
        ItemsAreUnambiguous(xs[1..], ys[1..], r, q);
      }
      assert xs == [xs[0]] + xs[1..] && ys == [ys[0]] + ys[1..];
    }
  }

  lemma {:induction false} MembersAreUnambiguous(xs: seq<Member>, ys: seq<Member>, r: Chars, q: Chars)
    requires forall i :: 0 <= i < |xs| ==> Valid(xs[i].value)
    requires forall i :: 0 <= i < |ys| ==> Valid(ys[i].value)
    requires PrintMembers(xs, Cons(CLOSE_BRACE, r)) == PrintMembers(ys, Cons(CLOSE_BRACE, q))
    ensures xs == ys && r == q
    decreases xs, 1
  {
    var r', q' := Cons(CLOSE_BRACE, r), Cons(CLOSE_BRACE, q);
    if xs != [] && ys != [] {
      var x' := if |xs| <= 1 then r' else Cons(COMMA, PrintMembers(xs[1..], r'));
      var y' := if |ys| <= 1 then q' else Cons(COMMA, PrintMembers(ys[1..], q'));
      EscapeIsUnambiguous(xs[0].key, ys[0].key,
                          Cons(COLON, Print(xs[0].value, x')), Cons(COLON, Print(ys[0].value, y')));
      PrintIsUnambiguous(xs[0].value, ys[0].value, x', y');
      if |xs| > 1 {
        MembersAreUnambiguous(xs[1..], ys[1..], r, q);
      }
      assert xs == [xs[0]] + xs[1..] && ys == [ys[0]] + ys[1..];
    }
  }

  /** JSON text determines the value: the printer is injective. */
  lemma {:induction false} PrintIsInjective(v: Json, w: Json)
    requires Valid(v) && Valid(w) && Print(v, End) == Print(w, End)
    ensures v == w
  {
    PrintIsUnambiguous(v, w, End, End);
  }

  // ---- The canonical member order ----

  /** Array.prototype.sort on strings: by code unit, a proper prefix first. */
  predicate LexLess(a: Text, b: Text) {
    b != [] && (a == [] || a[0] < b[0] || (a[0] == b[0] && LexLess(a[1..], b[1..])))
  }

  /** An array index in canonical decimal form: an object lists such keys first, by value. */
  predicate IndexKey(k: Text) {
    && k != [] && (forall i :: 0 <= i < |k| ==> 48 <= k[i] <= 57)
    && (k[0] == 48 ==> |k| == 1)
    && (|k| < 10 || (|k| == 10 && LexLess(k, [52, 50, 57, 52, 57, 54, 55, 50, 57, 53])))
  }

  /** The order in which the rebuilt object lists its keys. */
  predicate KeyLess(a: Text, b: Text) {
    if IndexKey(a) && IndexKey(b) then |a| < |b| || (|a| == |b| && LexLess(a, b))
    else if IndexKey(a) || IndexKey(b) then IndexKey(a)
    else LexLess(a, b)
  }

  lemma {:induction false} LexIsTotal(a: Text, b: Text)
    ensures a != b ==> LexLess(a, b) || LexLess(b, a)
  {
    if a != [] && b != [] && a[0] == b[0] {
      LexIsTotal(a[1..], b[1..]);
      assert a == [a[0]] + a[1..] && b == [b[0]] + b[1..];
    }
  }

  lemma {:induction false} LexIsTransitive(a: Text, b: Text, c: Text)
    requires LexLess(a, b) && LexLess(b, c)
    ensures LexLess(a, c)
  {
    if a != [] && a[0] == b[0] == c[0] {
      LexIsTransitive(a[1..], b[1..], c[1..]);
    }
  }

  lemma {:induction false} LexIsIrreflexive(a: Text)
    ensures !LexLess(a, a)
  {
    if a != [] {
      LexIsIrreflexive(a[1..]);
    }
  }

  lemma {:induction false} KeyOrderIsTotal(a: Text, b: Text)
    requires a != b
    ensures KeyLess(a, b) || KeyLess(b, a)
  {
    LexIsTotal(a, b);
  }

  lemma {:induction false} KeyOrderIsTransitive(a: Text, b: Text, c: Text)
    requires KeyLess(a, b) && KeyLess(b, c)
    ensures KeyLess(a, c)
  {
    if LexLess(a, b) && LexLess(b, c) {
      LexIsTransitive(a, b, c);
    }
  }

  lemma {:induction false} KeyOrderIsIrreflexive(a: Text)
    ensures !KeyLess(a, a)
  {
    LexIsIrreflexive(a);
  }

  predicate Sorted(ms: seq<Member>) {
    forall i, j :: 0 <= i < j < |ms| ==> KeyLess(ms[i].key, ms[j].key)
  }

  function Insert(m: Member, ms: seq<Member>): seq<Member> {
    if ms == [] || KeyLess(m.key, ms[0].key) then [m] + ms else [ms[0]] + Insert(m, ms[1..])
  }

  function SortMembers(ms: seq<Member>): seq<Member> {
    if ms == [] then [] else Insert(ms[0], SortMembers(ms[1..]))
  }

  /** canonicalRecoveryValue: every object rebuilt with its members in canonical order. */
  function Canon(v: Json): Json
    decreases v, 0
  {
    match v
    case Arr(items) => Arr(CanonItems(items))
    case Obj(ms) => Obj(SortMembers(CanonMembers(ms)))
    case _ => v
  }

  function CanonItems(items: seq<Json>): (r: seq<Json>)
    ensures |r| == |items|
    decreases items, 1
  {
    if items == [] then [] else [Canon(items[0])] + CanonItems(items[1..])
  }

  function CanonMembers(ms: seq<Member>): (r: seq<Member>)
    ensures |r| == |ms|
    decreases ms, 1
  {
    if ms == [] then [] else [Member(ms[0].key, Canon(ms[0].value))] + CanonMembers(ms[1..])
  }

  lemma {:induction false} CanonItemsAt(items: seq<Json>, i: nat)
    requires i < |items|
    ensures CanonItems(items)[i] == Canon(items[i])
  {
    if i > 0 {
      CanonItemsAt(items[1..], i - 1);
    }
  }

  lemma {:induction false} CanonMembersAt(ms: seq<Member>, i: nat)
    requires i < |ms|
    ensures CanonMembers(ms)[i] == Member(ms[i].key, Canon(ms[i].value))
  {
    if i > 0 {
      CanonMembersAt(ms[1..], i - 1);
    }
  }

  // ---- Sorting members with distinct keys ----

  lemma {:induction false} InsertHas(m: Member, ms: seq<Member>, x: Member)
    ensures x in Insert(m, ms) <==> x == m || x in ms
  {
    if ms != [] && !KeyLess(m.key, ms[0].key) {
      InsertHas(m, ms[1..], x);
      assert ms == [ms[0]] + ms[1..];
    }
  }

  lemma {:induction false} SortHas(ms: seq<Member>, x: Member)
    ensures x in SortMembers(ms) <==> x in ms
  {
    if ms != [] {
      InsertHas(ms[0], SortMembers(ms[1..]), x);
      SortHas(ms[1..], x);
      assert ms == [ms[0]] + ms[1..];
    }
  }

  lemma {:induction false} InsertSorts(m: Member, ms: seq<Member>)
    requires Sorted(ms) && forall i :: 0 <= i < |ms| ==> ms[i].key != m.key
    ensures Sorted(Insert(m, ms))
  {
    if ms == [] {
    } else if KeyLess(m.key, ms[0].key) {
      forall i | 0 < i < |ms| ensures KeyLess(m.key, ms[i].key) {
        KeyOrderIsTransitive(m.key, ms[0].key, ms[i].key);
      }
    } else {
      KeyOrderIsTotal(m.key, ms[0].key);
      InsertSorts(m, ms[1..]);
      var rest := Insert(m, ms[1..]);
      forall i | 0 <= i < |rest| ensures KeyLess(ms[0].key, rest[i].key) {
        InsertHas(m, ms[1..], rest[i]);
      }
    }
  }

  lemma {:induction false} SortSorts(ms: seq<Member>)
    requires DistinctKeys(ms)
    ensures Sorted(SortMembers(ms))
  {
    if ms != [] {
      SortSorts(ms[1..]);
      var rest := SortMembers(ms[1..]);
      forall i | 0 <= i < |rest| ensures rest[i].key != ms[0].key {
        SortHas(ms[1..], rest[i]);
      }
      InsertSorts(ms[0], rest);
    }
  }

  lemma {:induction false} SortedHeadIsLeast(ms: seq<Member>, x: Member)
    requires Sorted(ms) && x in ms && x != ms[0]
    ensures KeyLess(ms[0].key, x.key)
  {
  }

  lemma {:induction false} HeadIsNotInTail(ms: seq<Member>)
    requires Sorted(ms) && ms != []
    ensures ms[0] !in ms[1..]
  {
    KeyOrderIsIrreflexive(ms[0].key);
  }

  /** A strictly sorted sequence is determined by its elements. */
  lemma {:induction false} SortedIsUnique(a: seq<Member>, b: seq<Member>)
    requires Sorted(a) && Sorted(b) && (forall x :: x in a <==> x in b)
    ensures a == b
  {
    if a == [] {
      assert forall i :: 0 <= i < |b| ==> b[i] in b;
    } else {
      assert a[0] in b;
      assert b[0] in a;
      if a[0] != b[0] {
        SortedHeadIsLeast(a, b[0]);
        SortedHeadIsLeast(b, a[0]);
        KeyOrderIsTransitive(a[0].key, b[0].key, a[0].key);
        KeyOrderIsIrreflexive(a[0].key);
      }
      forall x ensures x in a[1..] <==> x in b[1..] {
        HeadIsNotInTail(a);
        HeadIsNotInTail(b);
        assert a == [a[0]] + a[1..] && b == [b[0]] + b[1..];
        assert x in a <==> x in b;
      }
      SortedIsUnique(a[1..], b[1..]);
      assert a == [a[0]] + a[1..] && b == [b[0]] + b[1..];
    }
  }

  // ---- Equality up to member order ----

  function Keys(ms: seq<Member>): set<Text> {
    set i | 0 <= i < |ms| :: ms[i].key
  }

  /** Equal as JSON values, where the members of an object carry no order. */
  ghost predicate Same(v: Json, w: Json)
    decreases v
  {
    match v
    case Arr(items) =>
      w.Arr? && |items| == |w.items| && forall i :: 0 <= i < |items| ==> Same(items[i], w.items[i])
    case Obj(ms) =>
      && w.Obj?
      && Keys(ms) == Keys(w.members)
      && forall i, j :: 0 <= i < |ms| && 0 <= j < |w.members| && ms[i].key == w.members[j].key
           ==> Same(ms[i].value, w.members[j].value)
    case _ => v == w
  }

  lemma {:induction false} IndexOfKey(ms: seq<Member>, key: Text) returns (j: nat)
    requires key in Keys(ms)
    ensures j < |ms| && ms[j].key == key
  {
    j :| 0 <= j < |ms| && ms[j].key == key;
  }

  lemma {:induction false} CanonKeepsKeysDistinct(ms: seq<Member>)
    requires DistinctKeys(ms)
    ensures DistinctKeys(CanonMembers(ms))
  {
    forall i | 0 <= i < |ms| ensures CanonMembers(ms)[i].key == ms[i].key {
      CanonMembersAt(ms, i);
    }
  }

  lemma {:induction false} SortDecidesElements(ms: seq<Member>, ns: seq<Member>)
    requires DistinctKeys(ms) && DistinctKeys(ns)
    ensures SortMembers(CanonMembers(ms)) == SortMembers(CanonMembers(ns))
       <==> forall x :: x in CanonMembers(ms) <==> x in CanonMembers(ns)
  {
    var a, b := CanonMembers(ms), CanonMembers(ns);
    CanonKeepsKeysDistinct(ms);
    CanonKeepsKeysDistinct(ns);
    SortSorts(a);
    SortSorts(b);
    forall x ensures x in SortMembers(a) <==> x in a { SortHas(a, x); }
    forall x ensures x in SortMembers(b) <==> x in b { SortHas(b, x); }
    if forall x :: x in a <==> x in b {
      SortedIsUnique(SortMembers(a), SortMembers(b));
    }
  }

  lemma {:induction false} SameImpliesSameCanon(v: Json, w: Json)
    requires Valid(v) && Valid(w) && Same(v, w)
    ensures Canon(v) == Canon(w)
    decreases v
  {
    match v
    case Arr(items) =>
      forall i | 0 <= i < |items| ensures CanonItems(items)[i] == CanonItems(w.items)[i] {
        CanonItemsAt(items, i);
        CanonItemsAt(w.items, i);
        SameImpliesSameCanon(items[i], w.items[i]);
      }
    case Obj(ms) =>
      var ns := w.members;
      forall i | 0 <= i < |ms| ensures CanonMembers(ms)[i] in CanonMembers(ns) {
        var j := IndexOfKey(ns, ms[i].key);
        SameImpliesSameCanon(ms[i].value, ns[j].value);
        CanonMembersAt(ms, i);
        CanonMembersAt(ns, j);
      }
      forall j | 0 <= j < |ns| ensures CanonMembers(ns)[j] in CanonMembers(ms) {
        var i := IndexOfKey(ms, ns[j].key);
        SameImpliesSameCanon(ms[i].value, ns[j].value);
        CanonMembersAt(ms, i);
        CanonMembersAt(ns, j);
      }
      SortDecidesElements(ms, ns);
    case _ =>
  }

  /** The member of ns whose canonical form is that of ms[i]. */
  lemma {:induction false} MemberOf(ms: seq<Member>, ns: seq<Member>, i: nat) returns (j: nat)
    requires i < |ms| && forall x :: x in CanonMembers(ms) <==> x in CanonMembers(ns)
    ensures j < |ns| && ms[i].key == ns[j].key && Canon(ms[i].value) == Canon(ns[j].value)
  {
    assert CanonMembers(ms)[i] in CanonMembers(ns);
    j :| 0 <= j < |ns| && CanonMembers(ns)[j] == CanonMembers(ms)[i];
    CanonMembersAt(ms, i);
    CanonMembersAt(ns, j);
  }

  lemma {:induction false} KeysCover(ms: seq<Member>, ns: seq<Member>)
    requires forall x :: x in CanonMembers(ms) <==> x in CanonMembers(ns)
    ensures Keys(ms) <= Keys(ns)
  {
    forall i | 0 <= i < |ms| ensures ms[i].key in Keys(ns) {
      var j := MemberOf(ms, ns, i);
    }
  }

  lemma {:induction false} SameCanonImpliesSame(v: Json, w: Json)
    requires Valid(v) && Valid(w) && Canon(v) == Canon(w)
    ensures Same(v, w)
    decreases v
  {
    match v
    case Arr(items) =>
      forall i | 0 <= i < |items| ensures Same(items[i], w.items[i]) {
        CanonItemsAt(items, i);
        CanonItemsAt(w.items, i);
        SameCanonImpliesSame(items[i], w.items[i]);
      }
    case Obj(ms) =>
      var ns := w.members;
      SortDecidesElements(ms, ns);
      KeysCover(ms, ns);
      KeysCover(ns, ms);
      forall i, j | 0 <= i < |ms| && 0 <= j < |ns| && ms[i].key == ns[j].key ensures Same(ms[i].value, ns[j].value) {
        var k := MemberOf(ms, ns, i);
        assert k == j;
        SameCanonImpliesSame(ms[i].value, ns[j].value);
      }
    case _ =>
  }

  lemma {:induction false} CanonIsValid(v: Json)
    requires Valid(v)
    ensures Valid(Canon(v))
    decreases v
  {
    match v
    case Arr(items) =>
      forall i | 0 <= i < |items| ensures Valid(CanonItems(items)[i]) {
        CanonItemsAt(items, i);
        CanonIsValid(items[i]);
      }
    case Obj(ms) =>
      forall i | 0 <= i < |ms| ensures Valid(CanonMembers(ms)[i].value) {
        CanonMembersAt(ms, i);
        CanonIsValid(ms[i].value);
      }
      CanonKeepsKeysDistinct(ms);
      SortSorts(CanonMembers(ms));
      var sorted := SortMembers(CanonMembers(ms));
      forall i | 0 <= i < |sorted| ensures Valid(sorted[i].value) {
        SortHas(CanonMembers(ms), sorted[i]);
      }
      forall i, j | 0 <= i < j < |sorted| ensures sorted[i].key != sorted[j].key {
        KeyOrderIsIrreflexive(sorted[i].key);
      }
    case _ =>
  }

  // ---- The comparison ----

  /** sameRecoveryReceipt. */
  predicate SameRecoveryReceipt(left: Json, right: Json) {
    Print(Canon(left), End) == Print(Canon(right), End)
  }

  /** The comparison holds exactly when the two JSON values are equal up to object member order. */
  lemma {:induction false} ReceiptComparisonIsExact(left: Json, right: Json)
    requires Valid(left) && Valid(right)
    ensures SameRecoveryReceipt(left, right) <==> Same(left, right)
  {
    CanonIsValid(left);
    CanonIsValid(right);
    if SameRecoveryReceipt(left, right) {
      PrintIsInjective(Canon(left), Canon(right));
      SameCanonImpliesSame(left, right);
    }
    if Same(left, right) {
      SameImpliesSameCanon(left, right);
    }
  }
}
