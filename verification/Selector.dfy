/**
 Selector canonicalization and query construction (resolver/internal/query/query.go).
 */
module Selector {
  import opened Options
  import opened Bytes
  import opened Sorting

  const AMP: Byte := 38
  const EQ: Byte := 61

  // -------------------------------------------------------------- the text library

  /**
   strings.ToLower, ToUpper and TrimSpace, and the value pattern [^&=\s]{1,64}. They follow Unicode
   tables, so the model takes them as parameters and uses only the laws below.
   */
  datatype Library = Library(lower: Text -> Text, upper: Text -> Text, trim: Text -> Text, valueOk: Text -> bool)

  predicate KeyByte(c: Byte) {
    97 <= c <= 122 || 48 <= c <= 57 || c == 95
  }

  predicate KeyBytes(s: Text) {
    forall i :: 0 <= i < |s| ==> KeyByte(s[i])
  }

  predicate UpperByte(c: Byte) {
    65 <= c <= 90
  }

  predicate UpperBytes(s: Text) {
    forall i :: 0 <= i < |s| ==> UpperByte(s[i])
  }

  /** What every implementation guarantees, on all byte strings. */
  ghost predicate Lawful(lib: Library) {
    && (forall s :: KeyBytes(s) ==> lib.lower(s) == s)
    && (forall s :: UpperBytes(s) ==> lib.upper(s) == s)
    && (forall s :: KeyBytes(s) || UpperBytes(s) ==> lib.trim(s) == s)
    && (forall s :: lib.trim(lib.trim(s)) == lib.trim(s))
    && (forall s :: EQ in s ==> lib.trim(s) != [])
    && (forall s :: lib.valueOk(s) ==> s != [] && AMP !in s && EQ !in s)
  }

  // -------------------------------------------------------------------- numbers

  predicate Digits(s: Text) {
    forall i :: 0 <= i < |s| ==> 48 <= s[i] <= 57
  }

  function Decimal(s: Text): nat
    requires Digits(s)
  {
    if s == [] then 0 else Decimal(s[..|s| - 1]) * 10 + (s[|s| - 1] - 48)
  }

  /** strconv.Atoi; a number too large for an int is also out of every range tested below. */
  function Atoi(s: Text): Option<int> {
    var signed := s != [] && (s[0] == 43 || s[0] == 45);
    var digits := if signed then s[1..] else s;
    if digits == [] || !Digits(digits) then None
    else Some(if signed && s[0] == 45 then -(Decimal(digits) as int) else Decimal(digits))
  }

  function Itoa(n: nat): (s: Text)
    ensures s != [] && Digits(s)
  {
    if n < 10 then [48 + n] else Itoa(n / 10) + [48 + n % 10]
  }

  lemma {:induction false} AtoiItoa(n: nat)
    ensures Atoi(Itoa(n)) == Some(n) && Decimal(Itoa(n)) == n
  {
    if n >= 10 {
      AtoiItoa(n / 10);
      var high := Itoa(n / 10);
      assert (high + [48 + n % 10])[..|high|] == high;
    } else {
      assert Itoa(n)[..0] == [] && Decimal([]) == 0;
    }
    assert 48 <= Itoa(n)[0] <= 57;
  }

  lemma {:induction false} LeadingZeros(zeros: Text, s: Text)
    requires Digits(s) && forall i :: 0 <= i < |zeros| ==> zeros[i] == 48
    ensures Digits(zeros + s) && Decimal(zeros + s) == Decimal(s)
    decreases |zeros| + |s|
  {
    var all := zeros + s;
    if s != [] {
      LeadingZeros(zeros, s[..|s| - 1]);
      assert all[..|all| - 1] == zeros + s[..|s| - 1];
    } else if zeros != [] {
      LeadingZeros(zeros[..|zeros| - 1], []);
      assert all[..|all| - 1] == zeros[..|zeros| - 1] + [];
    }
  }

  predicate IsSign(sign: Text) {
    sign == [] || sign == [43] || sign == [45]
  }

  /** What is read is an optional sign and at least one digit, and nothing else is read. */
  lemma AtoiReadsSigned(sign: Text, digits: Text)
    requires IsSign(sign) && digits != [] && Digits(digits)
    ensures Atoi(sign + digits) == Some(if sign == [45] then -(Decimal(digits) as int) else Decimal(digits))
  {
    var s := sign + digits;
    if sign == [] {
      assert s == digits && 48 <= s[0] <= 57;
    } else {
      assert s[0] == sign[0] && s[1..] == digits;
    }
  }

  lemma AtoiReadsOnly(s: Text)
    requires Atoi(s).Some?
    ensures exists sign, digits :: s == sign + digits && IsSign(sign) && digits != [] && Digits(digits)
  {
    if s[0] == 43 || s[0] == 45 {
      assert s == s[..1] + s[1..] && IsSign(s[..1]);
    } else {
      assert s == [] + s && IsSign([]);
    }
  }

  /** Plain digits behind any zeros are worth their number. */
  lemma DecimalReads(zeros: Text, n: nat)
    requires forall i :: 0 <= i < |zeros| ==> zeros[i] == 48
    ensures Digits(zeros + Itoa(n)) && Decimal(zeros + Itoa(n)) == n
  {
    AtoiItoa(n);
    LeadingZeros(zeros, Itoa(n));
  }

  // ------------------------------------------------------------- one selector pair

  predicate SelKey(k: Text) {
    0 < |k| <= 32 && KeyBytes(k)
  }

  const PORT: Text := Ascii("port")
  const TRANSPORT: Text := Ascii("transport")
  const SERVICE: Text := Ascii("service")

  predicate KnownTransport(v: Text) {
    v == Ascii("UDP") || v == Ascii("TCP") || v == Ascii("QUIC")
  }

  predicate KnownService(v: Text) {
    v == Ascii("HTTP") || v == Ascii("SMTP")
  }

  /** A pair with its key and value normalized, or None if it is refused. */
  function Normalize(lib: Library, k: Text, v: Text): Option<Pair> {
    var k', v' := lib.lower(lib.trim(k)), lib.trim(v);
    if !SelKey(k') then None
    else if k' == PORT then
      var n := Atoi(v');
      if n.None? || n.value < 1 || n.value > 65535 then None else Some(Pair(k', Itoa(n.value)))
    else if k' == TRANSPORT then
      if KnownTransport(lib.upper(v')) then Some(Pair(k', lib.upper(v'))) else None
    else if k' == SERVICE then
      if KnownService(lib.upper(v')) then Some(Pair(k', lib.upper(v'))) else None
    else if lib.valueOk(v') then Some(Pair(k', v'))
    else None
  }

  lemma UpperAscii(s: string)
    requires s != "" && forall i :: 0 <= i < |s| ==> 'A' <= s[i] <= 'Z'
    ensures var v := Ascii(s); UpperBytes(v) && v != [] && AMP !in v && EQ !in v
  {
  }

  lemma KnownIsUpper(v: Text)
    requires KnownTransport(v) || KnownService(v)
    ensures UpperBytes(v) && v != [] && AMP !in v && EQ !in v
  {
    UpperAscii("UDP");
    UpperAscii("TCP");
    UpperAscii("QUIC");
    UpperAscii("HTTP");
    UpperAscii("SMTP");
  }

  /** A normalized pair can be written down and read back, and normalizes to itself. */
  predicate Clean(lib: Library, p: Pair) {
    && SelKey(p.name) && AMP !in p.name && EQ !in p.name
    && p.value != [] && AMP !in p.value && EQ !in p.value
    && Normalize(lib, p.name, p.value) == Some(p)
  }

  lemma PortIsClean(lib: Library, n: nat)
    requires Lawful(lib) && 1 <= n <= 65535 && lib.lower(lib.trim(PORT)) == PORT && SelKey(PORT)
    ensures Clean(lib, Pair(PORT, Itoa(n)))
  {
    AtoiItoa(n);
    assert KeyBytes(Itoa(n)) && lib.trim(Itoa(n)) == Itoa(n);
    assert KeyBytes(PORT);
  }

  lemma KnownIsClean(lib: Library, k: Text, v: Text)
    requires Lawful(lib) && lib.lower(lib.trim(k)) == k && SelKey(k) && k != PORT
    requires (k == TRANSPORT && KnownTransport(v)) || (k != TRANSPORT && k == SERVICE && KnownService(v))
    ensures Clean(lib, Pair(k, v))
  {
    KnownIsUpper(v);
    assert KeyBytes(k) && lib.trim(v) == v && lib.upper(v) == v;
  }

  lemma NormalizeIsClean(lib: Library, k: Text, v: Text)
    requires Lawful(lib) && Normalize(lib, k, v).Some?
    ensures Clean(lib, Normalize(lib, k, v).value)
  {
    var p := Normalize(lib, k, v).value;
    assert KeyBytes(p.name);
    assert lib.lower(lib.trim(p.name)) == p.name;
    if p.name == PORT {
      PortIsClean(lib, Atoi(lib.trim(v)).value);
    } else if p.name == TRANSPORT || p.name == SERVICE {
      KnownIsClean(lib, p.name, p.value);
    }
  }

  /**
   What a pair becomes, written out: the key is trimmed and lower-cased and must be 1 to 32 bytes of
   a-z, 0-9 and underscore. The value of "port" is a number from 1 to 65535 in plain decimal, that of
   "transport" UDP, TCP or QUIC and that of "service" HTTP or SMTP, both in upper case; any other
   value is trimmed and must meet the value pattern.
   */
  ghost predicate Becomes(lib: Library, k: Text, v: Text, p: Pair) {
    var key, val := lib.lower(lib.trim(k)), lib.trim(v);
    && p.name == key && 1 <= |key| <= 32
    && (forall i :: 0 <= i < |key| ==> 97 <= key[i] <= 122 || 48 <= key[i] <= 57 || key[i] == 95)
    && (if key == [112, 111, 114, 116] then
          exists n :: 1 <= n <= 65535 && Atoi(val) == Some(n) && p.value == Itoa(n)
        else if key == [116, 114, 97, 110, 115, 112, 111, 114, 116] then
          p.value == lib.upper(val) && p.value in [[85, 68, 80], [84, 67, 80], [81, 85, 73, 67]]
        else if key == [115, 101, 114, 118, 105, 99, 101] then
          p.value == lib.upper(val) && p.value in [[72, 84, 84, 80], [83, 77, 84, 80]]
        else p.value == val && lib.valueOk(val))
  }

  lemma Literals()
    ensures PORT == [112, 111, 114, 116]
    ensures TRANSPORT == [116, 114, 97, 110, 115, 112, 111, 114, 116]
    ensures SERVICE == [115, 101, 114, 118, 105, 99, 101]
    ensures Ascii("UDP") == [85, 68, 80] && Ascii("TCP") == [84, 67, 80] && Ascii("QUIC") == [81, 85, 73, 67]
    ensures Ascii("HTTP") == [72, 84, 84, 80] && Ascii("SMTP") == [83, 77, 84, 80]
  {
  }

  /** Every pair is accepted exactly if it becomes something, and then it is that. */
  lemma NormalizedExactly(lib: Library, k: Text, v: Text, p: Pair)
    ensures Normalize(lib, k, v) == Some(p) <==> Becomes(lib, k, v, p)
  {
    Literals();
    var key, val := lib.lower(lib.trim(k)), lib.trim(v);
    assert KeyBytes(key) <==> forall i :: 0 <= i < |key| ==> 97 <= key[i] <= 122 || 48 <= key[i] <= 57 || key[i] == 95;
    assert KnownTransport(lib.upper(val)) <==> lib.upper(val) in [[85, 68, 80], [84, 67, 80], [81, 85, 73, 67]];
    assert KnownService(lib.upper(val)) <==> lib.upper(val) in [[72, 84, 84, 80], [83, 77, 84, 80]];
  }

  /** A port is accepted exactly in 1..65535, in whatever notation strconv.Atoi reads, and printed plainly. */
  lemma PortRange(lib: Library, v: Text)
    requires Lawful(lib)
    ensures var n := Atoi(lib.trim(v));
      Normalize(lib, PORT, v) == if n.Some? && 1 <= n.value <= 65535 then Some(Pair(PORT, Itoa(n.value))) else None
  {
    assert PORT == [112, 111, 114, 116];
    assert KeyBytes(PORT) && lib.lower(lib.trim(PORT)) == PORT;
  }

  // ------------------------------------------------------------- the whole selector

  predicate AllNormalize(lib: Library, pairs: map<Text, Text>) {
    forall k :: k in pairs ==> Normalize(lib, k, pairs[k]).Some?
  }

  function Normals(lib: Library, pairs: map<Text, Text>): map<Text, Pair>
    requires AllNormalize(lib, pairs)
  {
    map k | k in pairs :: Normalize(lib, k, pairs[k]).value
  }

  predicate Unique(norm: map<Text, Pair>) {
    forall k, j :: k in norm && j in norm && k != j ==> norm[k].name != norm[j].name
  }

  /** The pairs as a map from their names to their values. */
  ghost function Image(norm: map<Text, Pair>): map<Text, Text>
    requires Unique(norm)
  {
    map k | k in norm :: norm[k].name := norm[k].value
  }

  predicate HasEntry(m: map<Text, Text>, p: Pair) {
    p.name in m && m[p.name] == p.value
  }

  predicate HasName(norm: map<Text, Pair>, n: Text) {
    exists k :: k in norm && norm[k].name == n
  }

  /** `m` holds the pairs of `norm` and nothing else. */
  ghost predicate IsImage(norm: map<Text, Pair>, m: map<Text, Text>) {
    && (forall k :: k in norm ==> HasEntry(m, norm[k]))
    && (forall n :: n in m ==> HasName(norm, n))
  }

  lemma ImageIsImage(norm: map<Text, Pair>)
    requires Unique(norm)
    ensures IsImage(norm, Image(norm))
  {
  }

  lemma ImagesAreSame(norm: map<Text, Pair>, m: map<Text, Text>, m': map<Text, Text>)
    requires IsImage(norm, m) && IsImage(norm, m')
    ensures m == m'
  {
  }

  /** Every pair normalizes, and no two of them to the same key. */
  predicate Accepts(lib: Library, pairs: map<Text, Text>) {
    AllNormalize(lib, pairs) && Unique(Normals(lib, pairs))
  }

  /** `ps` lists the entries of `m`, each once. */
  ghost predicate IsListing(ps: seq<Pair>, m: map<Text, Text>) {
    && DistinctNames(ps)
    && forall k, v :: Pair(k, v) in ps <==> k in m && m[k] == v
  }

  /** The selector as a map from normalized keys to normalized values. */
  ghost function NormalMap(lib: Library, pairs: map<Text, Text>): (m: map<Text, Text>)
    requires Accepts(lib, pairs)
  {
    Image(Normals(lib, pairs))
  }

  /**
   A selector is accepted exactly if each of its pairs becomes something, no two of them with the
   same key; and its normal form holds what they become, and nothing else.
   */
  lemma NormalMapExactly(lib: Library, pairs: map<Text, Text>)
    ensures Accepts(lib, pairs) <==>
      && (forall k :: k in pairs ==> exists p :: Becomes(lib, k, pairs[k], p))
      && (forall k, j :: k in pairs && j in pairs && k != j ==> lib.lower(lib.trim(k)) != lib.lower(lib.trim(j)))
    ensures Accepts(lib, pairs) ==>
      forall p :: HasEntry(NormalMap(lib, pairs), p) <==> exists k :: k in pairs && Becomes(lib, k, pairs[k], p)
  {
    forall k | k in pairs ensures Normalize(lib, k, pairs[k]).Some? <==> exists p :: Becomes(lib, k, pairs[k], p) {
      SomeExactly(lib, k, pairs[k]);
    }
    if AllNormalize(lib, pairs) {
      var norm := Normals(lib, pairs);
      forall k | k in pairs ensures norm[k].name == lib.lower(lib.trim(k)) {
        NormalizedExactly(lib, k, pairs[k], norm[k]);
      }
      if Unique(norm) { EntriesExactly(lib, pairs); }
    }
  }

  lemma SomeExactly(lib: Library, k: Text, v: Text)
    ensures Normalize(lib, k, v).Some? <==> exists p :: Becomes(lib, k, v, p)
  {
    if Normalize(lib, k, v).Some? { NormalizedExactly(lib, k, v, Normalize(lib, k, v).value); }
    if p :| Becomes(lib, k, v, p) { NormalizedExactly(lib, k, v, p); }
  }

  lemma EntriesExactly(lib: Library, pairs: map<Text, Text>)
    requires Accepts(lib, pairs)
    ensures forall p :: HasEntry(NormalMap(lib, pairs), p) <==> exists k :: k in pairs && Becomes(lib, k, pairs[k], p)
  {
    var norm, m := Normals(lib, pairs), NormalMap(lib, pairs);
    ImageIsImage(norm);
    forall p ensures HasEntry(m, p) <==> exists k :: k in pairs && Becomes(lib, k, pairs[k], p) {
      if HasEntry(m, p) {
        assert HasName(norm, p.name);
        var k :| k in norm && norm[k].name == p.name;
        assert HasEntry(m, norm[k]);
        NormalizedExactly(lib, k, pairs[k], p);
      }
      if k :| k in pairs && Becomes(lib, k, pairs[k], p) {
        NormalizedExactly(lib, k, pairs[k], p);
        assert HasEntry(m, norm[k]);
      }
    }
  }

  function Part(p: Pair): Text {
    p.name + [EQ] + p.value
  }

  function Join(ps: seq<Pair>): Text {
    if ps == [] then [] else if |ps| == 1 then Part(ps[0]) else Part(ps[0]) + [AMP] + Join(ps[1..])
  }

  lemma {:induction false} SortedListingExists(m: map<Text, Text>)
    ensures exists ps :: IsListing(ps, m) && Sorted(ps)
    decreases |m|
  {
    if m == map[] {
      assert IsListing([], m) && Sorted([]);
    } else {
      var k :| k in m;
      SortedListingExists(m - {k});
      var ps: seq<Pair> :| IsListing(ps, m - {k}) && Sorted(ps);
      var p := Pair(k, m[k]);
      var qs := Insert(p, ps);
      InsertSorted(p, ps);
      forall j, v ensures Pair(j, v) in qs <==> j in m && m[j] == v {
        MultisetMember(Pair(j, v), qs);
        MultisetMember(Pair(j, v), ps);
      }
      InsertDistinct(p, ps);
    }
  }

  lemma {:induction false} InsertDistinct(p: Pair, ps: seq<Pair>)
    requires DistinctNames(ps) && forall q :: q in ps ==> q.name != p.name
    ensures DistinctNames(Insert(p, ps))
  {
    if ps != [] && Less(ps[0].name, p.name) {
      InsertDistinct(p, ps[1..]);
      var rest := Insert(p, ps[1..]);
      forall j | 0 <= j < |rest| ensures rest[j].name != ps[0].name {
        MultisetMember(rest[j], rest);
        MultisetMember(rest[j], ps[1..]);
      }
    }
  }

  /** The entries of `m` in byte order of their keys. */
  ghost function Items(m: map<Text, Text>): (ps: seq<Pair>)
    ensures IsListing(ps, m) && Sorted(ps)
  {
    SortedListingExists(m);
    var ps: seq<Pair> :| IsListing(ps, m) && Sorted(ps);
    ps
  }

  ghost function Canonical(lib: Library, pairs: map<Text, Text>): Option<Text> {
    if Accepts(lib, pairs) then Some(Join(Items(NormalMap(lib, pairs)))) else None
  }

  lemma ListingsAreSame(ps: seq<Pair>, qs: seq<Pair>, m: map<Text, Text>)
    requires IsListing(ps, m) && IsListing(qs, m) && Sorted(ps) && Sorted(qs)
    ensures ps == qs
  {
    assert multiset(ps) == multiset(qs) by {
      forall p ensures multiset(ps)[p] == multiset(qs)[p] {
        OnceInMultiset(ps, p);
        OnceInMultiset(qs, p);
        MultisetMember(p, ps);
        MultisetMember(p, qs);
        assert p == Pair(p.name, p.value);
      }
    }
    SortedUnique(ps, qs);
  }

  /** What the loop of CanonicalSelector has gathered when the keys `todo` are still to be visited. */
  ghost predicate Gathered(lib: Library, pairs: map<Text, Text>, todo: set<Text>, norm: map<Text, Pair>,
                           canon: map<Text, Text>, items: seq<Pair>)
  {
    && todo <= pairs.Keys && NormalPart(lib, pairs, todo, norm) && Unique(norm)
    && IsImage(norm, canon) && IsListing(items, canon)
  }

  /** The loop of CanonicalSelector: it visits the map in any order it likes. */
  method Collect(lib: Library, pairs: map<Text, Text>) returns (ok: bool, items: seq<Pair>)
    ensures ok <==> Accepts(lib, pairs)
    ensures ok ==> IsListing(items, NormalMap(lib, pairs))
  {
    items := [];
    var canon: map<Text, Text> := map[];
    var todo := pairs.Keys;
    ghost var norm: map<Text, Pair> := map[];
    while todo != {}
      invariant Gathered(lib, pairs, todo, norm, canon, items)
      decreases |todo|
    {
      var k :| k in todo;
      var p := Normalize(lib, k, pairs[k]);
      if p.None? {
        return false, [];
      }
      if p.value.name in canon {
        DuplicateRefused(lib, pairs, todo, norm, k);
        return false, [];
      }
      VisitOne(lib, pairs, todo, norm, canon, items, k);
      canon := canon[p.value.name := p.value.value];
      items := items + [p.value];
      norm := norm[k := p.value];
      todo := todo - {k};
    }
    VisitedAll(lib, pairs, norm, canon);
    ok := true;
  }

  lemma VisitOne(lib: Library, pairs: map<Text, Text>, todo: set<Text>, norm: map<Text, Pair>,
                 canon: map<Text, Text>, items: seq<Pair>, k: Text)
    requires Gathered(lib, pairs, todo, norm, canon, items) && k in todo
    requires Normalize(lib, k, pairs[k]).Some? && Normalize(lib, k, pairs[k]).value.name !in canon
    ensures var p := Normalize(lib, k, pairs[k]).value;
      Gathered(lib, pairs, todo - {k}, norm[k := p], canon[p.name := p.value], items + [p])
  {
    var p := Normalize(lib, k, pairs[k]).value;
    ImageExtends(norm, canon, k, p);
    ListingGrows(items, canon, p);
  }

  /** `norm` holds the normalized forms of the pairs visited so far. */
  predicate NormalPart(lib: Library, pairs: map<Text, Text>, todo: set<Text>, norm: map<Text, Pair>) {
    && norm.Keys == pairs.Keys - todo
    && forall k :: k in norm ==> Normalize(lib, k, pairs[k]) == Some(norm[k])
  }

  lemma NormalWhole(lib: Library, pairs: map<Text, Text>, norm: map<Text, Pair>)
    requires NormalPart(lib, pairs, {}, norm)
    ensures AllNormalize(lib, pairs) && Normals(lib, pairs) == norm
  {
  }

  lemma VisitedAll(lib: Library, pairs: map<Text, Text>, norm: map<Text, Pair>, canon: map<Text, Text>)
    requires NormalPart(lib, pairs, {}, norm) && Unique(norm) && IsImage(norm, canon)
    ensures Accepts(lib, pairs) && NormalMap(lib, pairs) == canon
  {
    NormalWhole(lib, pairs, norm);
    ImageIsImage(norm);
    ImagesAreSame(norm, canon, Image(norm));
  }

  lemma DuplicateRefused(lib: Library, pairs: map<Text, Text>, todo: set<Text>, norm: map<Text, Pair>, k: Text)
    requires k in todo && todo <= pairs.Keys && NormalPart(lib, pairs, todo, norm)
    requires Normalize(lib, k, pairs[k]).Some? && HasName(norm, Normalize(lib, k, pairs[k]).value.name)
    ensures !Accepts(lib, pairs)
  {
    var n := Normalize(lib, k, pairs[k]).value.name;
    var j :| j in norm && norm[j].name == n;
    assert j != k && j in pairs;
    assert AllNormalize(lib, pairs) ==> Normals(lib, pairs)[j].name == n == Normals(lib, pairs)[k].name;
  }

  lemma ImageExtends(norm: map<Text, Pair>, m: map<Text, Text>, k: Text, p: Pair)
    requires Unique(norm) && IsImage(norm, m) && k !in norm && p.name !in m
    ensures Unique(norm[k := p]) && IsImage(norm[k := p], m[p.name := p.value])
  {
    var norm', m' := norm[k := p], m[p.name := p.value];
    assert norm'[k] == p;
    forall j | j in norm' ensures HasEntry(m', norm'[j]) {
      assert j != k ==> HasEntry(m, norm[j]);
    }
    forall n | n in m' ensures HasName(norm', n) {
      if n != p.name {
        assert HasName(norm, n);
        var j :| j in norm && norm[j].name == n;
        assert norm'[j].name == n;
      }
    }
    forall i, j | i in norm' && j in norm' && i != j ensures norm'[i].name != norm'[j].name {
      assert i != k ==> HasEntry(m, norm[i]);
      assert j != k ==> HasEntry(m, norm[j]);
    }
  }

  lemma ListingGrows(ps: seq<Pair>, m: map<Text, Text>, p: Pair)
    requires IsListing(ps, m) && p.name !in m
    ensures IsListing(ps + [p], m[p.name := p.value])
  {
  }

  lemma SortedListing(ps: seq<Pair>, qs: seq<Pair>, m: map<Text, Text>)
    requires IsListing(ps, m) && Sorted(qs) && multiset(ps) == multiset(qs)
    ensures qs == Items(m)
  {
    forall k, v ensures Pair(k, v) in qs <==> k in m && m[k] == v {
      MultisetMember(Pair(k, v), qs);
      MultisetMember(Pair(k, v), ps);
    }
    DistinctNamesPermute(ps, qs);
    ListingsAreSame(qs, Items(m), m);
  }

  /** Acceptance and output depend on the pairs only, not on the order the map is visited in. */
  method CanonicalSelector(lib: Library, pairs: map<Text, Text>) returns (r: Option<Text>)
    ensures r == Canonical(lib, pairs)
  {
    if |pairs| == 0 {
      assert pairs == map[];
      assert IsListing([], NormalMap(lib, pairs));
      SortedListing([], [], NormalMap(lib, pairs));
      return Some([]);
    }
    var ok, items := Collect(lib, pairs);
    if !ok {
      return None;
    }
    var sorted := SortSlice(items);
    SortedListing(items, sorted, NormalMap(lib, pairs));
    r := Some(Join(sorted));
  }

  // ------------------------------------------------------------------- parsing

  /** strings.Cut at the first `sep`. */
  function Cut(s: Text, sep: Byte): Option<(Text, Text)> {
    if s == [] then None
    else if s[0] == sep then Some(([], s[1..]))
    else match Cut(s[1..], sep)
      case None => None
      case Some((before, after)) => Some(([s[0]] + before, after))
  }

  lemma {:induction false} CutShortens(s: Text, sep: Byte)
    ensures Cut(s, sep).Some? ==> |Cut(s, sep).value.1| < |s|
  {
    if s != [] && s[0] != sep { CutShortens(s[1..], sep); }
  }

  /** strings.Split. */
  function Split(s: Text, sep: Byte): seq<Text>
    decreases |s|
  {
    CutShortens(s, sep);
    match Cut(s, sep)
    case None => [s]
    case Some((before, after)) => [before] + Split(after, sep)
  }

  function ParseParts(lib: Library, parts: seq<Text>, pairs: map<Text, Text>): Option<map<Text, Text>> {
    if parts == [] then Some(pairs)
    else match Cut(parts[0], EQ)
      case None => None
      case Some((k, v)) =>
        if lib.lower(k) in pairs then None else ParseParts(lib, parts[1..], pairs[lib.lower(k) := v])
  }

  function Parsed(lib: Library, raw: Text): Option<map<Text, Text>> {
    if lib.trim(raw) == [] then Some(map[]) else ParseParts(lib, Split(raw, AMP), map[])
  }

  /** A cut is at the first separator, and fails exactly without one. */
  lemma {:induction false} CutExactly(s: Text, sep: Byte, a: Text, b: Text)
    ensures Cut(s, sep) == Some((a, b)) <==> s == a + [sep] + b && sep !in a
    ensures Cut(s, sep) == None <==> sep !in s
  {
    if s == a + [sep] + b && sep !in a { CutAt(a, sep, b); }
    if sep !in s { CutNone(s, sep); } else { CutSome(s, sep); }
  }

  lemma {:induction false} CutSome(s: Text, sep: Byte)
    requires sep in s
    ensures Cut(s, sep).Some?
    ensures var (a, b) := Cut(s, sep).value; s == a + [sep] + b && sep !in a
  {
    if s[0] != sep { CutSome(s[1..], sep); }
  }

  function Joined(parts: seq<Text>, sep: Byte): Text {
    if parts == [] then [] else if |parts| == 1 then parts[0] else parts[0] + [sep] + Joined(parts[1..], sep)
  }

  predicate Fragments(parts: seq<Text>, sep: Byte) {
    parts != [] && forall i :: 0 <= i < |parts| ==> sep !in parts[i]
  }

  /** Every text is split into the fragments between its separators, and that is the only way. */
  lemma {:induction false} SplitExactly(parts: seq<Text>, sep: Byte, s: Text)
    requires Fragments(parts, sep) && s == Joined(parts, sep)
    ensures Split(s, sep) == parts
    decreases |parts|
  {
    if |parts| == 1 {
      CutNone(s, sep);
    } else {
      CutAt(parts[0], sep, Joined(parts[1..], sep));
      SplitExactly(parts[1..], sep, Joined(parts[1..], sep));
    }
  }

  lemma {:induction false} SplitFragments(s: Text, sep: Byte)
    ensures Fragments(Split(s, sep), sep) && Joined(Split(s, sep), sep) == s
    decreases |s|
  {
    if sep in s {
      CutSome(s, sep);
      var (a, b) := Cut(s, sep).value;
      SplitFragments(b, sep);
      assert Split(s, sep)[1..] == Split(b, sep);
    } else {
      CutNone(s, sep);
    }
  }

  /** Each fragment holds an equals sign. */
  predicate AllCut(parts: seq<Text>) {
    forall i :: 0 <= i < |parts| ==> 61 in parts[i]
  }

  /** The part of the fragment before its first equals sign, lower-cased, and the part after it. */
  function Entry(lib: Library, part: Text): Pair
    requires EQ in part
  {
    CutSome(part, EQ);
    Pair(lib.lower(Cut(part, EQ).value.0), Cut(part, EQ).value.1)
  }

  function Entries(lib: Library, parts: seq<Text>): (ps: seq<Pair>)
    requires AllCut(parts)
    ensures |ps| == |parts|
  {
    seq(|parts|, i requires 0 <= i < |parts| => Entry(lib, parts[i]))
  }

  predicate Avoids(ps: seq<Pair>, m: map<Text, Text>) {
    forall i :: 0 <= i < |ps| ==> ps[i].name !in m
  }

  lemma {:induction false} ParsePartsExactly(lib: Library, parts: seq<Text>, m: map<Text, Text>)
    ensures ParseParts(lib, parts, m) ==
      if AllCut(parts) && DistinctNames(Entries(lib, parts)) && Avoids(Entries(lib, parts), m)
      then Some(ToMap(Entries(lib, parts), m)) else None
    decreases |parts|
  {
    if parts != [] {
      var rest := parts[1..];
      assert parts == [parts[0]] + rest;
      if EQ !in parts[0] {
        CutNone(parts[0], EQ);
      } else {
        CutSome(parts[0], EQ);
        var p := Entry(lib, parts[0]);
        assert ParseParts(lib, parts, m) ==
          if p.name in m then None else ParseParts(lib, rest, m[p.name := p.value]);
        ParsePartsExactly(lib, rest, m[p.name := p.value]);
        assert AllCut(parts) <==> AllCut(rest);
        if AllCut(parts) {
          assert Entries(lib, parts) == [p] + Entries(lib, rest);
          EntriesCons(p, Entries(lib, rest), m);
        }
      }
    }
  }

  lemma EntriesCons(p: Pair, qs: seq<Pair>, m: map<Text, Text>)
    ensures DistinctNames([p] + qs) && Avoids([p] + qs, m) <==>
      p.name !in m && DistinctNames(qs) && Avoids(qs, m[p.name := p.value])
    ensures ToMap([p] + qs, m) == ToMap(qs, m[p.name := p.value])
  {
    assert ([p] + qs)[1..] == qs;
    DistinctCons(p, qs);
    AvoidsCons(p, qs, m);
  }

  lemma DistinctCons(p: Pair, qs: seq<Pair>)
    ensures DistinctNames([p] + qs) <==> DistinctNames(qs) && forall i :: 0 <= i < |qs| ==> qs[i].name != p.name
  {
    var ps := [p] + qs;
    if DistinctNames(ps) {
      forall i | 0 <= i < |qs| ensures qs[i].name != p.name { assert ps[0] == p && ps[i + 1] == qs[i]; }
      forall i, j | 0 <= i < j < |qs| ensures qs[i].name != qs[j].name {
        assert ps[i + 1] == qs[i] && ps[j + 1] == qs[j];
      }
    }
  }

  lemma AvoidsCons(p: Pair, qs: seq<Pair>, m: map<Text, Text>)
    ensures Avoids([p] + qs, m) <==> p.name !in m && Avoids(qs, m)
    ensures Avoids(qs, m[p.name := p.value]) <==> Avoids(qs, m) && forall i :: 0 <= i < |qs| ==> qs[i].name != p.name
  {
    var ps := [p] + qs;
    if Avoids(ps, m) {
      assert forall i :: 0 <= i < |qs| ==> ps[i + 1] == qs[i];
      assert ps[0] == p;
    }
  }

  /**
   A selector text is read as the map `m` exactly if it is blank and `m` empty, or each of its
   fragments has an equals sign and `m` holds their entries, no key twice.
   */
  lemma ParsedExactly(lib: Library, parts: seq<Text>, m: map<Text, Text>)
    requires Fragments(parts, 38)
    ensures var raw := Joined(parts, 38);
      Parsed(lib, raw) == Some(m) <==>
        if lib.trim(raw) == [] then m == map[] else AllCut(parts) && IsListing(Entries(lib, parts), m)
  {
    var raw := Joined(parts, AMP);
    SplitExactly(parts, AMP, raw);
    ParsePartsExactly(lib, parts, map[]);
    if AllCut(parts) {
      var ps := Entries(lib, parts);
      if IsListing(ps, m) { ListingToMap(ps, m); }
      if DistinctNames(ps) { ToMapListing(ps); }
    }
  }

  lemma ToMapListing(ps: seq<Pair>)
    requires DistinctNames(ps)
    ensures IsListing(ps, ToMap(ps, map[]))
  {
    ToMapOf(ps, map[]);
    var m := ToMap(ps, map[]);
    forall k, v ensures Pair(k, v) in ps <==> k in m && m[k] == v {
      if k in m && m[k] == v {
        var i :| 0 <= i < |ps| && ps[i].name == k;
        assert ps[i] == Pair(k, v);
      }
    }
  }

  method ParsePairs(lib: Library, raw: Text) returns (r: Option<map<Text, Text>>)
    ensures r == Parsed(lib, raw)
  {
    var pairs: map<Text, Text> := map[];
    if lib.trim(raw) == [] {
      return Some(pairs);
    }
    var parts := Split(raw, AMP);
    for i := 0 to |parts|
      invariant ParseParts(lib, parts, map[]) == ParseParts(lib, parts[i..], pairs)
    {
      var cut := Cut(parts[i], EQ);
      if cut.None? {
        return None;
      }
      var (k, v) := cut.value;
      if lib.lower(k) in pairs {
        return None;
      }
      pairs := pairs[lib.lower(k) := v];
      assert parts[i..][1..] == parts[i + 1..];
    }
    r := Some(pairs);
  }

  ghost function ParseSelectorString(lib: Library, raw: Text): Option<Text> {
    match Parsed(lib, raw)
    case None => None
    case Some(pairs) => Canonical(lib, pairs)
  }

  // ---------------------------------------------------------------- normal forms

  lemma {:induction false} CutAt(a: Text, sep: Byte, b: Text)
    requires sep !in a
    ensures Cut(a + [sep] + b, sep) == Some((a, b))
  {
    var s := a + [sep] + b;
    if a == [] {
      assert s[1..] == b;
    } else {
      assert a[0] in a;
      CutAt(a[1..], sep, b);
      assert s[1..] == a[1..] + [sep] + b;
      assert [a[0]] + a[1..] == a;
    }
  }

  lemma {:induction false} CutNone(a: Text, sep: Byte)
    requires sep !in a
    ensures Cut(a, sep) == None
  {
    if a != [] { CutNone(a[1..], sep); }
  }

  predicate AllClean(lib: Library, ps: seq<Pair>) {
    forall i :: 0 <= i < |ps| ==> Clean(lib, ps[i])
  }

  function Parts(ps: seq<Pair>): seq<Text> {
    if ps == [] then [] else [Part(ps[0])] + Parts(ps[1..])
  }

  lemma {:induction false} SplitJoin(lib: Library, ps: seq<Pair>)
    requires AllClean(lib, ps) && ps != []
    ensures Split(Join(ps), AMP) == Parts(ps)
  {
    var p := ps[0];
    assert Clean(lib, p);
    assert AMP !in Part(p);
    if |ps| == 1 {
      CutNone(Part(p), AMP);
      assert Parts(ps[1..]) == [];
    } else {
      CutAt(Part(p), AMP, Join(ps[1..]));
      SplitJoin(lib, ps[1..]);
    }
  }

  function ToMap(ps: seq<Pair>, m: map<Text, Text>): map<Text, Text> {
    if ps == [] then m else ToMap(ps[1..], m[ps[0].name := ps[0].value])
  }

  lemma {:induction false} ParseJoined(lib: Library, ps: seq<Pair>, m: map<Text, Text>)
    requires Lawful(lib) && AllClean(lib, ps) && DistinctNames(ps)
    requires forall i :: 0 <= i < |ps| ==> ps[i].name !in m
    ensures ParseParts(lib, Parts(ps), m) == Some(ToMap(ps, m))
    decreases |ps|
  {
    if ps != [] {
      var p := ps[0];
      assert Clean(lib, p) && KeyBytes(p.name);
      CutAt(p.name, EQ, p.value);
      assert Parts(ps)[1..] == Parts(ps[1..]);
      ParseJoined(lib, ps[1..], m[p.name := p.value]);
    }
  }

  lemma {:induction false} ToMapOf(ps: seq<Pair>, m: map<Text, Text>)
    requires DistinctNames(ps) && forall i :: 0 <= i < |ps| ==> ps[i].name !in m
    ensures forall k :: k in ToMap(ps, m) <==> k in m || exists i :: 0 <= i < |ps| && ps[i].name == k
    ensures forall k :: k in m ==> k in ToMap(ps, m) && ToMap(ps, m)[k] == m[k]
    ensures forall i :: 0 <= i < |ps| ==> ps[i].name in ToMap(ps, m) && ToMap(ps, m)[ps[i].name] == ps[i].value
    decreases |ps|
  {
    if ps != [] {
      var m' := m[ps[0].name := ps[0].value];
      ToMapOf(ps[1..], m');
      assert ToMap(ps, m) == ToMap(ps[1..], m');
      forall i | 0 <= i < |ps| ensures ps[i].name in ToMap(ps, m) && ToMap(ps, m)[ps[i].name] == ps[i].value {
        if i > 0 { assert ps[i] == ps[1..][i - 1]; }
      }
      forall k ensures k in ToMap(ps, m) <==> k in m || exists i :: 0 <= i < |ps| && ps[i].name == k {
        if k in ToMap(ps, m) && k !in m' {
          var i :| 0 <= i < |ps[1..]| && ps[1..][i].name == k;
          assert ps[i + 1].name == k;
        }
      }
    }
  }

  lemma ListingToMap(ps: seq<Pair>, m: map<Text, Text>)
    requires IsListing(ps, m)
    ensures ToMap(ps, map[]) == m
  {
    ToMapOf(ps, map[]);
    var r := ToMap(ps, map[]);
    forall k | k in m ensures k in r && r[k] == m[k] {
      assert Pair(k, m[k]) in ps;
      var i :| 0 <= i < |ps| && ps[i] == Pair(k, m[k]);
      assert ps[i].name == k;
    }
    forall k | k in r ensures k in m {
      var i :| 0 <= i < |ps| && ps[i].name == k;
      assert Pair(ps[i].name, ps[i].value) in ps;
    }
  }

  /** A map of normalized pairs. */
  ghost predicate CleanMap(lib: Library, m: map<Text, Text>) {
    forall k :: k in m ==> Clean(lib, Pair(k, m[k]))
  }

  lemma NormalMapIsClean(lib: Library, pairs: map<Text, Text>)
    requires Lawful(lib) && Accepts(lib, pairs)
    ensures CleanMap(lib, NormalMap(lib, pairs))
  {
    var m := NormalMap(lib, pairs);
    var norm := Normals(lib, pairs);
    ImageIsImage(norm);
    forall n | n in m ensures Clean(lib, Pair(n, m[n])) {
      assert HasName(norm, n);
      var k :| k in norm && norm[k].name == n;
      assert HasEntry(m, norm[k]);
      NormalizeIsClean(lib, k, pairs[k]);
    }
  }

  lemma CleanMapIsNormal(lib: Library, m: map<Text, Text>)
    requires CleanMap(lib, m)
    ensures Accepts(lib, m) && NormalMap(lib, m) == m
  {
  }

  /** What is rendered can be read back: parsing a canonical string yields the normalized map. */
  lemma ParseRendered(lib: Library, m: map<Text, Text>)
    requires Lawful(lib) && CleanMap(lib, m)
    ensures Parsed(lib, Join(Items(m))) == Some(m)
  {
    var ps := Items(m);
    ListingToMap(ps, m);
    forall i | 0 <= i < |ps| ensures Clean(lib, ps[i]) {
      assert Pair(ps[i].name, ps[i].value) in ps;
    }
    if ps == [] {
      assert KeyBytes([]);
    } else {
      JoinHasEq(ps);
      SplitJoin(lib, ps);
      ParseJoined(lib, ps, map[]);
    }
  }

  lemma JoinHasEq(ps: seq<Pair>)
    requires ps != []
    ensures EQ in Join(ps)
  {
  }

  function Rendered(ps: seq<Pair>): seq<Text> {
    seq(|ps|, i requires 0 <= i < |ps| => ps[i].name + [61] + ps[i].value)
  }

  lemma {:induction false} JoinRenders(ps: seq<Pair>)
    ensures Join(ps) == Joined(Rendered(ps), 38)
  {
    if |ps| > 1 {
      JoinRenders(ps[1..]);
      assert Rendered(ps)[1..] == Rendered(ps[1..]);
    }
  }

  /** The canonical string lists key=value for the entries of the normal form, by key, joined with ampersands. */
  lemma CanonicalIsRendered(lib: Library, pairs: map<Text, Text>)
    requires Accepts(lib, pairs)
    ensures exists ps :: (
      && IsListing(ps, NormalMap(lib, pairs)) && Sorted(ps)
      && Canonical(lib, pairs) == Some(Joined(Rendered(ps), 38)))
  {
    JoinRenders(Items(NormalMap(lib, pairs)));
  }

  /** An accepted selector's canonical string is a fixed point of ParseSelectorString. */
  lemma CanonicalIsFixedPoint(lib: Library, pairs: map<Text, Text>)
    requires Lawful(lib) && Accepts(lib, pairs)
    ensures ParseSelectorString(lib, Canonical(lib, pairs).value) == Canonical(lib, pairs)
  {
    var m := NormalMap(lib, pairs);
    NormalMapIsClean(lib, pairs);
    ParseRendered(lib, m);
    CleanMapIsNormal(lib, m);
  }

  /** Two accepted selectors have the same canonical string exactly when they normalize to the same map. */
  lemma CanonicalDistinguishes(lib: Library, pairs: map<Text, Text>, pairs': map<Text, Text>)
    requires Lawful(lib) && Accepts(lib, pairs) && Accepts(lib, pairs')
    ensures Canonical(lib, pairs) == Canonical(lib, pairs') <==> NormalMap(lib, pairs) == NormalMap(lib, pairs')
  {
    NormalMapIsClean(lib, pairs);
    NormalMapIsClean(lib, pairs');
    ParseRendered(lib, NormalMap(lib, pairs));
    ParseRendered(lib, NormalMap(lib, pairs'));
  }

  // -------------------------------------------------------------------- queries

  datatype Query = Query(name: Text, recordType: Text, selector: Text)

  predicate NameEdge(c: Byte) {
    97 <= c <= 122 || 48 <= c <= 57
  }

  /** [a-z0-9]([a-z0-9-]{0,61}[a-z0-9])? */
  predicate ValidName(t: Text) {
    && 1 <= |t| <= 63 && NameEdge(t[0]) && NameEdge(t[|t| - 1])
    && forall i :: 0 <= i < |t| ==> NameEdge(t[i]) || t[i] == 45
  }

  /** [A-Za-z0-9_-]{1,32} */
  predicate ValidType(t: Text) {
    1 <= |t| <= 32 && forall i :: 0 <= i < |t| ==> NameEdge(t[i]) || 65 <= t[i] <= 90 || t[i] == 95 || t[i] == 45
  }

  ghost function NewQuery(lib: Library, name: Text, recordType: Text, pairs: map<Text, Text>): Option<Query> {
    if !ValidName(name) || !ValidType(recordType) || Canonical(lib, pairs).None? then None
    else Some(Query(name, recordType, Canonical(lib, pairs).value))
  }

  method New(lib: Library, name: Text, recordType: Text, pairs: map<Text, Text>) returns (q: Option<Query>)
    ensures q == NewQuery(lib, name, recordType, pairs)
    ensures q.Some? <==> ValidName(name) && ValidType(recordType) && Canonical(lib, pairs).Some?
    ensures q.Some? ==>
      q.value.name == name && q.value.recordType == recordType && Some(q.value.selector) == Canonical(lib, pairs)
  {
    if !ValidName(name) {
      return None;
    }
    if !ValidType(recordType) {
      return None;
    }
    var sel := CanonicalSelector(lib, pairs);
    if sel.None? {
      return None;
    }
    q := Some(Query(name, recordType, sel.value));
  }

  /** The laws can be met: a library that leaves every string alone meets them. */
  lemma LawsAreConsistent()
    ensures Lawful(Library(s => s, s => s, s => s, s => s != [] && AMP !in s && EQ !in s))
  {
  }
}
