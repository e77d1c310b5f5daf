/**
 The canonical bytes an owner signs (resolver/internal/pki/owner.go).
 */
module RecordMessage {
  import opened Bytes
  import opened Sorting
  import opened Records

  function Magic(): (t: Text)
    ensures |t| == 14
  {
    Ascii("ddns-record-v2")
  }

  /** A string behind its 16-bit length; a length of 64 KiB or more is silently truncated. */
  function Str(s: Text): (t: Text)
    ensures |t| == |s| + 2
  {
    BigEndian(|s|, 2) + s
  }

  function EncodePairs(ps: seq<Pair>): Text {
    if ps == [] then [] else Str(ps[0].name) + Str(ps[0].value) + EncodePairs(ps[1..])
  }

  function Numbers(r: Record, n: nat): (t: Text)
    ensures |t| == 14
  {
    BigEndian(r.ttl, 4) + BigEndian(r.generation, 8) + BigEndian(n, 2)
  }

  function Head(name: Text, r: Record, n: nat): Text {
    Magic() + Str(name) + Str(r.recordType) + Str(r.selector) + Numbers(r, n)
  }

  function Message(name: Text, r: Record, ps: seq<Pair>): Text {
    Head(name, r, |ps|) + EncodePairs(ps)
  }

  /** `ps` is one of the orders sort.Slice may leave the fields of `r` in. */
  predicate IsOrdering(r: Record, ps: seq<Pair>) {
    && |r.fieldNames| <= |r.fieldValues|
    && Sorted(ps)
    && multiset(ps) == multiset(Pairs(r))
  }

  /** `m` is a possible result of RecordMessage(name, r). */
  ghost predicate IsMessage(name: Text, r: Record, m: Text) {
    exists ps :: IsOrdering(r, ps) && m == Message(name, r, ps)
  }

  /** What RecordMessage returns when sort.Slice behaves as `sort`. */
  function MessageOf(sort: seq<Pair> -> seq<Pair>, name: Text, r: Record): Text
    requires |r.fieldNames| <= |r.fieldValues|
  {
    Message(name, r, sort(Pairs(r)))
  }

  /** Appends a length-prefixed string to the buffer. */
  method WriteStr(buf: Text, s: Text) returns (out: Text)
    ensures out == buf + Str(s)
  {
    var l := BigEndian(|s|, 2);
    out := buf + l;
    out := out + s;
  }

  /** The field pairs in the order sort.Slice leaves them in. */
  method SortedPairs(sort: seq<Pair> -> seq<Pair>, r: Record) returns (pairs: seq<Pair>)
    requires Sorts(sort) && |r.fieldNames| <= |r.fieldValues|
    ensures pairs == sort(Pairs(r)) && IsOrdering(r, pairs)
  {
    pairs := [];
    for i := 0 to |r.fieldNames|
      invariant |pairs| == i && pairs == Pairs(r)[..i]
    {
      pairs := pairs + [Pair(r.fieldNames[i], r.fieldValues[i])];
    }
    assert pairs == Pairs(r);
    pairs := sort(pairs);
  }

  method RecordMessage(sort: seq<Pair> -> seq<Pair>, name: Text, r: Record) returns (buf: Text)
    requires Sorts(sort) && |r.fieldNames| <= |r.fieldValues|
    ensures buf == MessageOf(sort, name, r) && IsMessage(name, r, buf)
  {
    buf := WriteStr(Magic(), name);
    buf := WriteStr(buf, r.recordType);
    buf := WriteStr(buf, r.selector);
    ghost var prefix := buf;
    buf := buf + BigEndian(r.ttl, 4);
    buf := buf + BigEndian(r.generation, 8);
    var pairs := SortedPairs(sort, r);
    buf := buf + BigEndian(|pairs|, 2);
    assert buf == prefix + Numbers(r, |pairs|) by {
      Assoc(prefix, BigEndian(r.ttl, 4), BigEndian(r.generation, 8));
      Assoc(prefix, BigEndian(r.ttl, 4) + BigEndian(r.generation, 8), BigEndian(|pairs|, 2));
    }
    ghost var head := buf;
    for i := 0 to |pairs|
      invariant buf == head + EncodePairs(pairs[..i])
    {
      EncodePairsAppend(pairs[..i], pairs[i]);
      assert pairs[..i + 1] == pairs[..i] + [pairs[i]];
      Assoc(head, EncodePairs(pairs[..i]), Str(pairs[i].name));
      Assoc(head, EncodePairs(pairs[..i]) + Str(pairs[i].name), Str(pairs[i].value));
      buf := WriteStr(buf, pairs[i].name);
      buf := WriteStr(buf, pairs[i].value);
    }
    assert pairs[..|pairs|] == pairs;
    assert buf == Message(name, r, pairs);
  }

  lemma {:induction false} EncodePairsAppend(ps: seq<Pair>, p: Pair)
    ensures EncodePairs(ps + [p]) == EncodePairs(ps) + Str(p.name) + Str(p.value)
  {
    if ps == [] {
      assert ps + [p] == [p];
    } else {
      EncodePairsAppend(ps[1..], p);
      assert (ps + [p])[1..] == ps[1..] + [p];
      var a, b := Str(ps[0].name) + Str(ps[0].value), EncodePairs(ps[1..]);
      Assoc(a, b, Str(p.name));
      Assoc(a, b + Str(p.name), Str(p.value));
    }
  }

  // ------------------------------------------------------------ injectivity

  predicate SizedPairs(ps: seq<Pair>) {
    forall i :: 0 <= i < |ps| ==> |ps[i].name| < U16 && |ps[i].value| < U16
  }

  /** Every length fits its 16-bit prefix. */
  predicate Sized(name: Text, r: Record) {
    && |name| < U16 && |r.recordType| < U16 && |r.selector| < U16
    && |r.fieldNames| < U16
    && |r.fieldNames| <= |r.fieldValues|
    && SizedPairs(Pairs(r))
  }

  /** The same record body, field order aside. */
  predicate SameBody(r: Record, r': Record)
    requires |r.fieldNames| <= |r.fieldValues| && |r'.fieldNames| <= |r'.fieldValues|
  {
    && r.recordType == r'.recordType
    && r.selector == r'.selector
    && r.ttl == r'.ttl
    && r.generation == r'.generation
    && multiset(Pairs(r)) == multiset(Pairs(r'))
  }

  lemma StrInjective(s: Text, x: Text, t: Text, y: Text)
    requires |s| < U16 && |t| < U16
    requires Str(s) + x == Str(t) + y
    ensures s == t && x == y
  {
    Pow256Values();
    Assoc(BigEndian(|s|, 2), s, x);
    Assoc(BigEndian(|t|, 2), t, y);
    SplitEqual(BigEndian(|s|, 2), s + x, BigEndian(|t|, 2), t + y);
    BigEndianInjective(|s|, |t|, 2);
    SplitEqual(s, x, t, y);
  }

  lemma {:induction false} EncodePairsInjective(ps: seq<Pair>, qs: seq<Pair>)
    requires |ps| == |qs| && SizedPairs(ps) && SizedPairs(qs)
    requires EncodePairs(ps) == EncodePairs(qs)
    ensures ps == qs
  {
    if ps != [] {
      var p, q := ps[0], qs[0];
      Assoc(Str(p.name), Str(p.value), EncodePairs(ps[1..]));
      Assoc(Str(q.name), Str(q.value), EncodePairs(qs[1..]));
      StrInjective(p.name, Str(p.value) + EncodePairs(ps[1..]), q.name, Str(q.value) + EncodePairs(qs[1..]));
      StrInjective(p.value, EncodePairs(ps[1..]), q.value, EncodePairs(qs[1..]));
      EncodePairsInjective(ps[1..], qs[1..]);
      assert ps == [p] + ps[1..] && qs == [q] + qs[1..];
    }
  }

  lemma NumbersInjective(r: Record, n: nat, r': Record, n': nat)
    requires n < U16 && n' < U16
    requires Numbers(r, n) == Numbers(r', n')
    ensures r.ttl == r'.ttl && r.generation == r'.generation && n == n'
  {
    Pow256Values();
    SplitEqual(BigEndian(r.ttl, 4) + BigEndian(r.generation, 8), BigEndian(n, 2),
               BigEndian(r'.ttl, 4) + BigEndian(r'.generation, 8), BigEndian(n', 2));
    SplitEqual(BigEndian(r.ttl, 4), BigEndian(r.generation, 8), BigEndian(r'.ttl, 4), BigEndian(r'.generation, 8));
    BigEndianInjective(r.ttl, r'.ttl, 4);
    BigEndianInjective(r.generation, r'.generation, 8);
    BigEndianInjective(n, n', 2);
  }

  /** The message read from its front: each string is followed by all that comes after it. */
  lemma MessageNested(name: Text, r: Record, ps: seq<Pair>)
    ensures Message(name, r, ps) ==
            Magic() + (Str(name) + (Str(r.recordType) + (Str(r.selector) + (Numbers(r, |ps|) + EncodePairs(ps)))))
  {
    var a, b, c, d, e, f := Magic(), Str(name), Str(r.recordType), Str(r.selector), Numbers(r, |ps|), EncodePairs(ps);
    Assoc(a + b + c + d, e, f);
    Assoc(a + b + c, d, e + f);
    Assoc(a + b, c, d + (e + f));
    Assoc(a, b, c + (d + (e + f)));
  }

  lemma OrderingSized(name: Text, r: Record, ps: seq<Pair>)
    requires IsOrdering(r, ps)
    ensures |ps| == |r.fieldNames|
    ensures Sized(name, r) ==> SizedPairs(ps)
  {
    PermutationLength(ps, Pairs(r));
    if Sized(name, r) {
      forall i | 0 <= i < |ps| ensures |ps[i].name| < U16 && |ps[i].value| < U16 {
        MultisetMember(ps[i], ps);
        MultisetMember(ps[i], Pairs(r));
      }
    }
  }

  lemma MessageParts(name: Text, r: Record, ps: seq<Pair>, name': Text, r': Record, ps': seq<Pair>)
    requires Sized(name, r) && Sized(name', r') && IsOrdering(r, ps) && IsOrdering(r', ps')
    requires Message(name, r, ps) == Message(name', r', ps')
    ensures name == name' && SameBody(r, r') && ps == ps'
  {
    OrderingSized(name, r, ps);
    OrderingSized(name', r', ps');
    MessageNested(name, r, ps);
    MessageNested(name', r', ps');
    var z, z' := Numbers(r, |ps|) + EncodePairs(ps), Numbers(r', |ps'|) + EncodePairs(ps');
    var y, y' := Str(r.selector) + z, Str(r'.selector) + z';
    var x, x' := Str(r.recordType) + y, Str(r'.recordType) + y';
    SplitEqual(Magic(), Str(name) + x, Magic(), Str(name') + x');
    StrInjective(name, x, name', x');
    StrInjective(r.recordType, y, r'.recordType, y');
    StrInjective(r.selector, z, r'.selector, z');
    SplitEqual(Numbers(r, |ps|), EncodePairs(ps), Numbers(r', |ps'|), EncodePairs(ps'));
    NumbersInjective(r, |ps|, r', |ps'|);
    EncodePairsInjective(ps, ps');
  }

  /** Equal bytes mean the same name, type, selector, ttl, generation and field pairs. */
  lemma MessageInjective(name: Text, r: Record, m: Text, name': Text, r': Record, m': Text)
    requires Sized(name, r) && Sized(name', r')
    requires IsMessage(name, r, m) && IsMessage(name', r', m') && m == m'
    ensures name == name' && SameBody(r, r')
  {
    var ps: seq<Pair> :| IsOrdering(r, ps) && m == Message(name, r, ps);
    var ps': seq<Pair> :| IsOrdering(r', ps') && m' == Message(name', r', ps');
    MessageParts(name, r, ps, name', r', ps');
  }

  /** Unless a field name carries two values, the message does not depend on the order the fields are listed in. */
  lemma MessageCanonical(name: Text, r: Record, m: Text, r': Record, m': Text)
    requires IsMessage(name, r, m) && IsMessage(name, r', m')
    requires |r.fieldNames| <= |r.fieldValues| && |r'.fieldNames| <= |r'.fieldValues|
    requires SameBody(r, r') && OneValueEach(Pairs(r))
    ensures m == m'
  {
    var ps: seq<Pair> :| IsOrdering(r, ps) && m == Message(name, r, ps);
    var ps': seq<Pair> :| IsOrdering(r', ps') && m' == Message(name, r', ps');
    OneValueEachPermute(Pairs(r), ps);
    SortedUnique(ps', ps);
  }

  lemma SameMessage(sort: seq<Pair> -> seq<Pair>, name: Text, r: Record, r': Record)
    requires Sorts(sort) && Sized(name, r) && Sized(name, r') && SameBody(r, r')
    ensures MessageOf(sort, name, r) == MessageOf(sort, name, r') <==> sort(Pairs(r)) == sort(Pairs(r'))
  {
    var ps, ps' := sort(Pairs(r)), sort(Pairs(r'));
    if MessageOf(sort, name, r) == MessageOf(sort, name, r') {
      MessageParts(name, r, ps, name, r', ps');
    }
  }

  /**
   Two listings of the same record have the same message, whatever sort.Slice does with equal names,
   exactly when they are the same listing or no field name carries two values.
   */
  lemma MessageCanonicalExactly(name: Text, r: Record, r': Record)
    requires Sized(name, r) && Sized(name, r') && SameBody(r, r')
    ensures (forall sort :: Sorts(sort) ==> MessageOf(sort, name, r) == MessageOf(sort, name, r')) <==>
      Pairs(r) == Pairs(r') || OneValueEach(Pairs(r))
  {
    forall sort | Sorts(sort)
      ensures MessageOf(sort, name, r) == MessageOf(sort, name, r') <==> sort(Pairs(r)) == sort(Pairs(r'))
    {
      SameMessage(sort, name, r, r');
    }
    SortedAlikeExactly(Pairs(r), Pairs(r'));
  }

  /** The record `r` with two fields. */
  function WithFields(r: Record, a: Pair, b: Pair): Record {
    r.(fieldNames := [a.name, b.name], fieldValues := [a.value, b.value])
  }

  /** A field name listed with two values: under a stable sort the two orders have different messages. */
  lemma ListingOrderShows(name: Text, r: Record, a: Pair, b: Pair)
    requires a.name == b.name && a.value != b.value
    requires Sized(name, WithFields(r, a, b))
    ensures Sorts(Sort) && SameBody(WithFields(r, a, b), WithFields(r, b, a))
    ensures MessageOf(Sort, name, WithFields(r, a, b)) != MessageOf(Sort, name, WithFields(r, b, a))
  {
    SortSorts();
    Swapped(name, r, a, b);
    StableOnTwo(a, b);
    StableOnTwo(b, a);
    SameMessage(Sort, name, WithFields(r, a, b), WithFields(r, b, a));
    assert [a, b][0] != [b, a][0];
  }

  lemma Swapped(name: Text, r: Record, a: Pair, b: Pair)
    requires Sized(name, WithFields(r, a, b))
    ensures Pairs(WithFields(r, a, b)) == [a, b] && Pairs(WithFields(r, b, a)) == [b, a]
    ensures Sized(name, WithFields(r, b, a)) && SameBody(WithFields(r, a, b), WithFields(r, b, a))
  {
    var ps := Pairs(WithFields(r, a, b));
    assert ps == [a, b];
    assert ps[0] == a && ps[1] == b;
    assert multiset([a, b]) == multiset([b, a]);
  }

  lemma StableOnTwo(a: Pair, b: Pair)
    requires a.name == b.name
    ensures Sort([a, b]) == [a, b]
  {
    LessTotal(a.name, b.name);
    assert Sort([b]) == [b];
    assert [a, b][1..] == [b];
  }

  // ------------------------------------------------------------- layout on the wire

  /** A string behind its length in two bytes, high byte first, modulo 64 KiB. */
  function Prefixed(t: Text): Text {
    [|t| / 256 % 256, |t| % 256] + t
  }

  function Fields(ps: seq<Pair>): Text {
    if ps == [] then [] else Prefixed(ps[0].name) + Prefixed(ps[0].value) + Fields(ps[1..])
  }

  function FourBytes(n: nat): Text {
    [n / 0x100_0000 % 256, n / 0x1_0000 % 256, n / 0x100 % 256, n % 256]
  }

  lemma BigEndianTwo(n: nat)
    ensures BigEndian(n, 2) == [n / 256 % 256, n % 256]
  {
    assert BigEndian(n / 256, 1) == [n / 256 % 256];
  }

  lemma BigEndianFour(n: nat)
    ensures BigEndian(n, 4) == FourBytes(n)
  {
    BigEndianTwo(n / 256 / 256);
    assert BigEndian(n / 256, 3) == BigEndian(n / 256 / 256, 2) + [n / 256 % 256];
  }

  lemma BigEndianEight(n: nat)
    ensures BigEndian(n, 8) == FourBytes(n / 0x1_0000_0000) + FourBytes(n)
  {
    var m := n / 256 / 256 / 256 / 256;
    assert m == n / 0x1_0000_0000;
    BigEndianFour(m);
    assert BigEndian(n / 256 / 256 / 256, 5) == FourBytes(m) + [n / 256 / 256 / 256 % 256];
    assert BigEndian(n / 256 / 256, 6) == FourBytes(m) + [n / 256 / 256 / 256 % 256, n / 256 / 256 % 256];
    assert BigEndian(n / 256, 7) ==
      FourBytes(m) + [n / 256 / 256 / 256 % 256, n / 256 / 256 % 256, n / 256 % 256];
  }

  lemma {:induction false} FieldsAreEncoded(ps: seq<Pair>)
    ensures EncodePairs(ps) == Fields(ps)
  {
    if ps != [] {
      BigEndianTwo(|ps[0].name|);
      BigEndianTwo(|ps[0].value|);
      FieldsAreEncoded(ps[1..]);
    }
  }

  /** The tag "ddns-record-v2". */
  const TAG: Text := [100, 100, 110, 115, 45, 114, 101, 99, 111, 114, 100, 45, 118, 50]

  lemma MagicIsTag()
    ensures Magic() == TAG
  {
  }

  lemma NumbersOnTheWire(r: Record, n: nat)
    ensures Numbers(r, n) ==
      FourBytes(r.ttl) + (FourBytes(r.generation / 0x1_0000_0000) + FourBytes(r.generation)) + [n / 256 % 256, n % 256]
  {
    BigEndianFour(r.ttl);
    BigEndianEight(r.generation);
    BigEndianTwo(n);
  }

  /**
   The bytes of a message: the tag, the three length-prefixed strings, the ttl in four bytes, the
   generation in eight, the number of fields in two, and the length-prefixed names and values.
   */
  lemma MessageOnTheWire(name: Text, r: Record, ps: seq<Pair>)
    ensures Message(name, r, ps) ==
      TAG + Prefixed(name) + Prefixed(r.recordType) + Prefixed(r.selector) +
      (FourBytes(r.ttl) + (FourBytes(r.generation / 0x1_0000_0000) + FourBytes(r.generation)) +
       [|ps| / 256 % 256, |ps| % 256]) + Fields(ps)
  {
    MagicIsTag();
    BigEndianTwo(|name|);
    BigEndianTwo(|r.recordType|);
    BigEndianTwo(|r.selector|);
    NumbersOnTheWire(r, |ps|);
    FieldsAreEncoded(ps);
  }

  // ----------------------------------------------- messages below 64 KiB

  lemma {:induction false} PairsFitIn(ps: seq<Pair>, i: nat)
    requires i < |ps|
    ensures |ps[i].name| + |ps[i].value| + 4 <= |EncodePairs(ps)|
    ensures 4 * |ps| <= |EncodePairs(ps)|
  {
    if i > 0 {
      PairsFitIn(ps[1..], i - 1);
    } else if |ps| > 1 {
      PairsFitIn(ps[1..], 0);
    }
  }

  lemma {:induction false} EncodePairsBound(ps: seq<Pair>)
    requires forall i :: 0 <= i < |ps| ==>
      |ps[i].name| <= MAX_FIELD_NAME_LENGTH && |ps[i].value| <= MAX_FIELD_VALUE_LENGTH
    ensures |EncodePairs(ps)| <= 1092 * |ps|
  {
    if ps != [] {
      EncodePairsBound(ps[1..]);
    }
  }

  /** In a message below 64 KiB no length prefix was truncated. */
  lemma ShortMessageSized(name: Text, r: Record, m: Text)
    requires IsMessage(name, r, m) && |m| < U16
    ensures Sized(name, r)
  {
    var ps: seq<Pair> :| IsOrdering(r, ps) && m == Message(name, r, ps);
    OrderingSized(name, r, ps);
    forall i | 0 <= i < |Pairs(r)| ensures |Pairs(r)[i].name| < U16 && |Pairs(r)[i].value| < U16 {
      MultisetMember(Pairs(r)[i], Pairs(r));
      MultisetMember(Pairs(r)[i], ps);
      var j :| 0 <= j < |ps| && ps[j] == Pairs(r)[i];
      PairsFitIn(ps, j);
    }
    if ps != [] { PairsFitIn(ps, 0); }
  }

  /** A record the contract accepts always has a message below 64 KiB. */
  lemma OnChainMessageShort(name: Text, r: Record, m: Text)
    requires WithinLimits(name, r) && IsMessage(name, r, m)
    ensures |m| < U16
  {
    var ps: seq<Pair> :| IsOrdering(r, ps) && m == Message(name, r, ps);
    OrderingSized(name, r, ps);
    forall i | 0 <= i < |ps| ensures |ps[i].name| <= MAX_FIELD_NAME_LENGTH && |ps[i].value| <= MAX_FIELD_VALUE_LENGTH {
      MultisetMember(ps[i], ps);
      MultisetMember(ps[i], Pairs(r));
    }
    EncodePairsBound(ps);
    assert |Head(name, r, |ps|)| <= 14 + 65 + 34 + 258 + 14;
  }
}
