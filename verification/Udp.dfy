/**
 The UDP framing of queries and responses (resolver/internal/server/udp.go).
 */
module Udp {
  import opened Options
  import opened Bytes
  import opened Selector

  const VERSION: Byte := 1
  const TLV_NAME: Byte := 1
  const TLV_TYPE: Byte := 2
  const TLV_SELECTOR: Byte := 3

  function Magic(): (t: Text)
    ensures |t| == 4
  {
    Ascii("DDNS")
  }

  datatype Tlv = Tlv(typ: Byte, val: Text)

  datatype Fault =
    | TooShort | BadMagic | BadVersion | BadFlags | TruncatedHeader | TruncatedValue | DuplicateTlv
    | BadSelector | BadQuery

  datatype Result<T> = Bad(why: Fault) | Good(value: T)

  // ------------------------------------------------------------------ encoding

  /** A TLV as bytes; one whose value is 64 KiB or longer is left out. */
  function EncodeTlv(t: Tlv): Text {
    if |t.val| >= U16 then [] else [t.typ] + BigEndian(|t.val|, 2) + t.val
  }

  function EncodeTlvs(ts: seq<Tlv>): Text {
    if ts == [] then [] else EncodeTlv(ts[0]) + EncodeTlvs(ts[1..])
  }

  function Header(status: Byte): (t: Text)
    ensures |t| == 6
  {
    Magic() + [VERSION, status]
  }

  function Packet(status: Byte, ts: seq<Tlv>): Text {
    Header(status) + EncodeTlvs(ts)
  }

  function QueryTlvs(q: Query): seq<Tlv> {
    [Tlv(TLV_NAME, q.name), Tlv(TLV_TYPE, q.recordType), Tlv(TLV_SELECTOR, q.selector)]
  }

  method EncodeUDPResponse(status: Byte, tlvs: seq<Tlv>) returns (out: Text)
    ensures out == Packet(status, tlvs)
  {
    out := Magic();
    out := out + [VERSION, status];
    for i := 0 to |tlvs|
      invariant out == Header(status) + EncodeTlvs(tlvs[..i])
    {
      EncodeSnoc(tlvs, i);
      Assoc(Header(status), EncodeTlvs(tlvs[..i]), EncodeTlv(tlvs[i]));
      if |tlvs[i].val| > 0xffff {
        continue;
      }
      out := out + ([tlvs[i].typ] + BigEndian(|tlvs[i].val|, 2) + tlvs[i].val);
    }
    assert tlvs[..|tlvs|] == tlvs;
  }

  method EncodeUDPQuery(q: Query) returns (out: Text)
    ensures out == Packet(0, QueryTlvs(q))
  {
    out := EncodeUDPResponse(0, QueryTlvs(q));
  }

  lemma {:induction false} EncodeAppend(ts: seq<Tlv>, t: Tlv)
    ensures EncodeTlvs(ts + [t]) == EncodeTlvs(ts) + EncodeTlv(t)
  {
    if ts == [] {
      var e := EncodeTlv(t);
      assert ts + [t] == [t] && [t][1..] == [];
      assert EncodeTlvs([t]) == e + [];
      assert e + [] == e == [] + e;
    } else {
      EncodeAppend(ts[1..], t);
      assert (ts + [t])[1..] == ts[1..] + [t];
      Assoc(EncodeTlv(ts[0]), EncodeTlvs(ts[1..]), EncodeTlv(t));
    }
  }

  lemma EncodeSnoc(ts: seq<Tlv>, i: nat)
    requires i < |ts|
    ensures EncodeTlvs(ts[..i + 1]) == EncodeTlvs(ts[..i]) + EncodeTlv(ts[i])
  {
    assert ts[..i + 1] == ts[..i] + [ts[i]];
    EncodeAppend(ts[..i], ts[i]);
  }

  // ------------------------------------------------------------------ decoding

  /** The first TLV of `rest` and what follows it. */
  function NextTlv(rest: Text): (r: Result<(Tlv, Text)>)
    ensures r.Good? ==> |r.value.1| < |rest|
  {
    if |rest| < 3 then Bad(TruncatedHeader)
    else
      var length := Value(rest[1..3]);
      if length > |rest| - 3 then Bad(TruncatedValue)
      else Good((Tlv(rest[0], rest[3..3 + length]), rest[3 + length..]))
  }

  predicate Known(typ: Byte) {
    typ == TLV_NAME || typ == TLV_TYPE || typ == TLV_SELECTOR
  }

  /** The query fields in `rest`, added to `fields`; unknown types are skipped, repeats refused. */
  function Scan(rest: Text, fields: map<Byte, Text>): Result<map<Byte, Text>>
    decreases |rest|
  {
    if rest == [] then Good(fields)
    else match NextTlv(rest)
      case Bad(why) => Bad(why)
      case Good((t, after)) =>
        if !Known(t.typ) then Scan(after, fields)
        else if t.typ in fields then Bad(DuplicateTlv)
        else Scan(after, fields[t.typ := t.val])
  }

  function HeaderFault(packet: Text): (f: Option<Fault>)
    ensures f.None? ==> |packet| >= 6
  {
    if |packet| < 6 then Some(TooShort)
    else if packet[..4] != Magic() then Some(BadMagic)
    else if packet[4] != VERSION then Some(BadVersion)
    else None
  }

  function FieldOr(fields: map<Byte, Text>, typ: Byte): Text {
    if typ in fields then fields[typ] else []
  }

  ghost function Rebuilt(lib: Library, fields: map<Byte, Text>): Result<Query> {
    match Parsed(lib, FieldOr(fields, TLV_SELECTOR))
    case None => Bad(BadSelector)
    case Some(pairs) =>
      match NewQuery(lib, FieldOr(fields, TLV_NAME), FieldOr(fields, TLV_TYPE), pairs)
      case None => Bad(BadQuery)
      case Some(q) => Good(q)
  }

  ghost function DecodedQuery(lib: Library, packet: Text): Result<Query> {
    var f := HeaderFault(packet);
    if f.Some? then Bad(f.value)
    else if packet[5] != 0 then Bad(BadFlags)
    else match Scan(packet[6..], map[])
      case Bad(why) => Bad(why)
      case Good(fields) => Rebuilt(lib, fields)
  }

  /** Reads the TLV at `i`; the index moves past it, never past the packet. */
  method ReadTlv(packet: Text, i: nat) returns (r: Result<Tlv>, next: nat)
    requires i < |packet|
    ensures match NextTlv(packet[i..])
      case Bad(why) => r == Bad(why)
      case Good((t, after)) => r == Good(t) && i < next <= |packet| && packet[next..] == after
  {
    ghost var rest := packet[i..];
    if |packet| - i < 3 {
      return Bad(TruncatedHeader), i;
    }
    var typ := packet[i];
    var length := Value(packet[i + 1..i + 3]);
    assert packet[i + 1..i + 3] == rest[1..3];
    next := i + 3;
    if length > |packet| - next {
      return Bad(TruncatedValue), i;
    }
    r := Good(Tlv(typ, packet[next..next + length]));
    assert rest[3..3 + length] == packet[next..next + length] && rest[3 + length..] == packet[next + length..];
    next := next + length;
  }

  /** The loop of decodeUDPQuery. */
  method DecodeFields(packet: Text) returns (r: Result<map<Byte, Text>>)
    requires |packet| >= 6
    ensures r == Scan(packet[6..], map[])
  {
    var fields: map<Byte, Text> := map[];
    var i := 6;
    while i < |packet|
      invariant 6 <= i <= |packet|
      invariant Scan(packet[6..], map[]) == Scan(packet[i..], fields)
      decreases |packet| - i
    {
      var t, next := ReadTlv(packet, i);
      if t.Bad? {
        return Bad(t.why);
      }
      if Known(t.value.typ) {
        if t.value.typ in fields {
          return Bad(DuplicateTlv);
        }
        fields := fields[t.value.typ := t.value.val];
      }
      i := next;
    }
    assert packet[i..] == [];
    r := Good(fields);
  }

  method DecodeUDPQuery(lib: Library, packet: Text) returns (r: Result<Query>)
    ensures r == DecodedQuery(lib, packet)
  {
    var f := HeaderFault(packet);
    if f.Some? {
      return Bad(f.value);
    }
    if packet[5] != 0 {
      return Bad(BadFlags);
    }
    var fields := DecodeFields(packet);
    if fields.Bad? {
      return Bad(fields.why);
    }
    var pairs := ParsePairs(lib, FieldOr(fields.value, TLV_SELECTOR));
    if pairs.None? {
      return Bad(BadSelector);
    }
    var q := New(lib, FieldOr(fields.value, TLV_NAME), FieldOr(fields.value, TLV_TYPE), pairs.value);
    if q.None? {
      return Bad(BadQuery);
    }
    r := Good(q.value);
  }

  // --------------------------------------------------------------- query round trip

  lemma NextTlvOfEncoded(t: Tlv, rest: Text)
    requires |t.val| < U16
    ensures EncodeTlv(t) + rest != []
    ensures NextTlv(EncodeTlv(t) + rest) == Good((t, rest))
  {
    var s := EncodeTlv(t) + rest;
    Pow256Values();
    BigEndianValue(|t.val|, 2);
    assert s == [t.typ] + BigEndian(|t.val|, 2) + (t.val + rest);
    assert s[1..3] == BigEndian(|t.val|, 2);
    assert s[3..] == t.val + rest;
    assert s[3..3 + |t.val|] == t.val && s[3 + |t.val|..] == rest;
  }

  lemma ScanEncoded(t: Tlv, rest: Text, fields: map<Byte, Text>)
    ensures Scan(EncodeTlv(t) + rest, fields) ==
      if |t.val| >= U16 || !Known(t.typ) then Scan(rest, fields)
      else if t.typ in fields then Bad(DuplicateTlv)
      else Scan(rest, fields[t.typ := t.val])
  {
    if |t.val| < U16 {
      NextTlvOfEncoded(t, rest);
    } else {
      assert EncodeTlv(t) + rest == rest;
    }
  }

  /** A TLV of unknown type, inserted at any TLV boundary, changes nothing: not the fields and not the error. */
  lemma {:induction false} UnknownTlvIgnored(ts: seq<Tlv>, unknown: Tlv, rest: Text, fields: map<Byte, Text>)
    requires !Known(unknown.typ)
    ensures Scan(EncodeTlvs(ts) + (EncodeTlv(unknown) + rest), fields) == Scan(EncodeTlvs(ts) + rest, fields)
    decreases |ts|
  {
    if ts == [] {
      assert EncodeTlvs(ts) + rest == rest;
      assert EncodeTlvs(ts) + (EncodeTlv(unknown) + rest) == EncodeTlv(unknown) + rest;
      ScanEncoded(unknown, rest, fields);
    } else {
      var t, more, noise := ts[0], EncodeTlvs(ts[1..]), EncodeTlv(unknown) + rest;
      Assoc(EncodeTlv(t), more, noise);
      Assoc(EncodeTlv(t), more, rest);
      ScanEncoded(t, more + noise, fields);
      ScanEncoded(t, more + rest, fields);
      UnknownTlvIgnored(ts[1..], unknown, rest, fields);
      UnknownTlvIgnored(ts[1..], unknown, rest, fields[t.typ := t.val]);
    }
  }

  lemma QueryIgnoresUnknown(lib: Library, ts: seq<Tlv>, unknown: Tlv, rest: Text)
    requires !Known(unknown.typ)
    ensures DecodedQuery(lib, Header(0) + (EncodeTlvs(ts) + (EncodeTlv(unknown) + rest))) ==
            DecodedQuery(lib, Header(0) + (EncodeTlvs(ts) + rest))
  {
    HeaderAccepted(0, EncodeTlvs(ts) + (EncodeTlv(unknown) + rest));
    HeaderAccepted(0, EncodeTlvs(ts) + rest);
    UnknownTlvIgnored(ts, unknown, rest, map[]);
  }

  lemma HeaderAccepted(status: Byte, body: Text)
    ensures HeaderFault(Header(status) + body).None?
    ensures (Header(status) + body)[5] == status && (Header(status) + body)[6..] == body
  {
    var p := Header(status) + body;
    assert p[..4] == Magic();
    assert p[4] == Header(status)[4] == VERSION;
    assert p[5] == Header(status)[5] == status;
  }

  lemma ScanQuery(q: Query)
    requires |q.name| < U16 && |q.recordType| < U16
    ensures Scan(EncodeTlvs(QueryTlvs(q)), map[]) ==
      Good(if |q.selector| < U16 then map[TLV_NAME := q.name, TLV_TYPE := q.recordType, TLV_SELECTOR := q.selector]
           else map[TLV_NAME := q.name, TLV_TYPE := q.recordType])
  {
    var ts := QueryTlvs(q);
    var f1 := map[TLV_NAME := q.name];
    var f2 := f1[TLV_TYPE := q.recordType];
    assert ts[1..][1..][1..] == [];
    assert ts[1..][0] == ts[1] && ts[1..][1..][0] == ts[2];
    var b := EncodeTlv(ts[2]) + EncodeTlvs(ts[1..][1..][1..]);
    var a := EncodeTlv(ts[1]) + EncodeTlvs(ts[1..][1..]);
    ScanEncoded(ts[0], a, map[]);
    ScanEncoded(ts[1], EncodeTlvs(ts[1..][1..]), f1);
    ScanEncoded(ts[2], [], f2);
    assert b == EncodeTlv(ts[2]) + [] == EncodeTlvs(ts[1..][1..]);
  }

  lemma RebuiltFromCanonical(
    lib: Library, name: Text, recordType: Text, pairs: map<Text, Text>, fields: map<Byte, Text>)
    requires Lawful(lib) && NewQuery(lib, name, recordType, pairs).Some?
    requires FieldOr(fields, TLV_NAME) == name && FieldOr(fields, TLV_TYPE) == recordType
    requires FieldOr(fields, TLV_SELECTOR) == Canonical(lib, pairs).value
    ensures Rebuilt(lib, fields) == Good(NewQuery(lib, name, recordType, pairs).value)
  {
    var m := NormalMap(lib, pairs);
    NormalMapIsClean(lib, pairs);
    ParseRendered(lib, m);
    CanonicalIsFixedPoint(lib, pairs);
    assert Parsed(lib, Canonical(lib, pairs).value) == Some(m);
    assert Canonical(lib, m) == Canonical(lib, pairs);
  }

  lemma RebuiltFromNothing(lib: Library, name: Text, recordType: Text, fields: map<Byte, Text>)
    requires Lawful(lib) && Selector.ValidName(name) && Selector.ValidType(recordType)
    requires FieldOr(fields, TLV_NAME) == name && FieldOr(fields, TLV_TYPE) == recordType
    requires FieldOr(fields, TLV_SELECTOR) == []
    ensures Rebuilt(lib, fields) == Good(Query(name, recordType, []))
  {
  }

  /** A query survives the wire exactly when its selector fits a TLV. */
  lemma QueryRoundTrip(lib: Library, name: Text, recordType: Text, pairs: map<Text, Text>)
    requires Lawful(lib) && NewQuery(lib, name, recordType, pairs).Some?
    ensures var q := NewQuery(lib, name, recordType, pairs).value;
      DecodedQuery(lib, Packet(0, QueryTlvs(q))) == Good(q) <==> |q.selector| < U16
  {
    var q := NewQuery(lib, name, recordType, pairs).value;
    HeaderAccepted(0, EncodeTlvs(QueryTlvs(q)));
    ScanQuery(q);
    var fields := Scan(EncodeTlvs(QueryTlvs(q)), map[]).value;
    if |q.selector| < U16 {
      RebuiltFromCanonical(lib, name, recordType, pairs, fields);
    } else {
      RebuiltFromNothing(lib, name, recordType, fields);
    }
  }

  // ------------------------------------------------------------- bytes on the wire

  /** A TLV as bytes: the type, the length in two bytes, high byte first, and the value. */
  function TlvBytes(typ: Byte, val: Text): Text
    requires |val| < 65536
  {
    [typ, |val| / 256, |val| % 256] + val
  }

  lemma TlvOnTheWire(t: Tlv)
    requires |t.val| < 65536
    ensures EncodeTlv(t) == TlvBytes(t.typ, t.val)
  {
    assert BigEndian(|t.val| / 256, 1) == [|t.val| / 256];
    assert BigEndian(|t.val|, 2) == [|t.val| / 256, |t.val| % 256];
  }

  lemma HeaderOnTheWire(status: Byte)
    ensures Header(status) == [68, 68, 78, 83, 1, status]
  {
  }

  /** An encoded query: "DDNS", version 1, no flags, then name, type and selector as TLVs 1, 2 and 3. */
  lemma QueryOnTheWire(q: Query)
    requires |q.name| < 65536 && |q.recordType| < 65536 && |q.selector| < 65536
    ensures Packet(0, QueryTlvs(q)) ==
      [68, 68, 78, 83, 1, 0] + (TlvBytes(1, q.name) + (TlvBytes(2, q.recordType) + TlvBytes(3, q.selector)))
  {
    var ts := QueryTlvs(q);
    HeaderOnTheWire(0);
    TlvOnTheWire(ts[0]);
    TlvOnTheWire(ts[1]);
    TlvOnTheWire(ts[2]);
    assert ts[1..][0] == ts[1] && ts[1..][1..][0] == ts[2] && ts[1..][1..][1..] == [];
    assert EncodeTlvs(ts[1..][1..]) == EncodeTlv(ts[2]) + [] == EncodeTlv(ts[2]);
    assert EncodeTlvs(ts[1..]) == EncodeTlv(ts[1]) + EncodeTlv(ts[2]);
    assert EncodeTlvs(ts) == EncodeTlv(ts[0]) + (EncodeTlv(ts[1]) + EncodeTlv(ts[2]));
  }

  /** What the header check reports, on every packet. */
  lemma HeaderExactly(packet: Text)
    ensures HeaderFault(packet) == None <==> |packet| >= 6 && packet[..5] == [68, 68, 78, 83, 1]
    ensures HeaderFault(packet) == Some(TooShort) <==> |packet| < 6
    ensures HeaderFault(packet) == Some(BadMagic) <==> |packet| >= 6 && packet[..4] != [68, 68, 78, 83]
    ensures HeaderFault(packet) == Some(BadVersion) <==>
      |packet| >= 6 && packet[..4] == [68, 68, 78, 83] && packet[4] != 1
  {
    assert Magic() == [68, 68, 78, 83];
    if |packet| >= 6 { assert packet[..5] == packet[..4] + [packet[4]]; }
  }

  predicate AllFit(ts: seq<Tlv>) {
    forall i :: 0 <= i < |ts| ==> |ts[i].val| < 65536
  }

  /** The start of a TLV that is cut off: no room for its header, or for the length it declares. */
  predicate CutOff(tail: Text) {
    tail != [] && (|tail| < 3 || 256 * (tail[1] as int) + tail[2] > |tail| - 3)
  }

  lemma ValueOfTwo(t: Text)
    requires |t| == 2
    ensures Value(t) == 256 * (t[0] as int) + t[1]
  {
    assert t[..1][..0] == [] && Value(t[..1]) == t[0];
  }

  lemma NextOfCutOff(tail: Text)
    requires tail != []
    ensures NextTlv(tail).Bad? <==> CutOff(tail)
    ensures CutOff(tail) ==> NextTlv(tail) == Bad(if |tail| < 3 then TruncatedHeader else TruncatedValue)
  {
    if |tail| >= 3 { ValueOfTwo(tail[1..3]); }
  }

  /** Every packet body is a sequence of whole TLVs, followed by nothing or by one that is cut off. */
  lemma {:induction false} BodyShape(rest: Text) returns (ts: seq<Tlv>, tail: Text)
    ensures AllFit(ts) && rest == EncodeTlvs(ts) + tail && (tail == [] || CutOff(tail))
    decreases |rest|
  {
    if rest == [] || NextTlv(rest).Bad? {
      ts, tail := [], rest;
      if rest != [] { NextOfCutOff(rest); }
      assert EncodeTlvs(ts) + tail == tail;
    } else {
      var (t, after) := NextTlv(rest).value;
      var more;
      more, tail := BodyShape(after);
      FirstTlv(rest);
      Assoc(EncodeTlv(t), EncodeTlvs(more), tail);
      ts := [t] + more;
      assert ts[1..] == more;
    }
  }

  lemma FirstTlv(rest: Text)
    requires rest != [] && NextTlv(rest).Good?
    ensures var (t, after) := NextTlv(rest).value; |t.val| < 65536 && rest == EncodeTlv(t) + after
  {
    var (t, after) := NextTlv(rest).value;
    ValueOfTwo(rest[1..3]);
    TlvOnTheWire(t);
    assert rest == [rest[0], rest[1], rest[2]] + rest[3..];
    assert rest[3..] == t.val + after;
  }

  predicate IsField(typ: Byte) {
    1 <= typ <= 3
  }

  /** No field is given twice. */
  predicate NoRepeat(ts: seq<Tlv>) {
    forall i, j :: 0 <= i < j < |ts| && IsField(ts[i].typ) ==> ts[i].typ != ts[j].typ
  }

  /** No field is given that `fields` has already. */
  predicate Apart(ts: seq<Tlv>, fields: map<Byte, Text>) {
    forall i :: 0 <= i < |ts| && IsField(ts[i].typ) ==> ts[i].typ !in fields
  }

  predicate Has(m: map<Byte, Text>, typ: Byte, v: Text) {
    typ in m && m[typ] == v
  }

  /** `m` holds `fields` and the fields among `ts`. */
  ghost predicate IsUnion(m: map<Byte, Text>, fields: map<Byte, Text>, ts: seq<Tlv>) {
    forall typ: Byte, v: Text :: Has(m, typ, v) <==> Has(fields, typ, v) || (IsField(typ) && Tlv(typ, v) in ts)
  }

  lemma ConsRepeat(t: Tlv, ts: seq<Tlv>)
    ensures NoRepeat([t] + ts) <==>
      NoRepeat(ts) && (IsField(t.typ) ==> forall i :: 0 <= i < |ts| ==> ts[i].typ != t.typ)
  {
    var all := [t] + ts;
    if NoRepeat(all) {
      forall i, j | 0 <= i < j < |ts| && IsField(ts[i].typ) ensures ts[i].typ != ts[j].typ {
        assert all[i + 1] == ts[i] && all[j + 1] == ts[j];
      }
      forall i | 0 <= i < |ts| && IsField(t.typ) ensures ts[i].typ != t.typ {
        assert all[0] == t && all[i + 1] == ts[i];
      }
    }
  }

  lemma ConsApart(t: Tlv, ts: seq<Tlv>, fields: map<Byte, Text>)
    ensures Apart([t] + ts, fields) <==> Apart(ts, fields) && (IsField(t.typ) ==> t.typ !in fields)
    ensures IsField(t.typ) ==>
      (Apart(ts, fields[t.typ := t.val]) <==> Apart(ts, fields) && forall i :: 0 <= i < |ts| ==> ts[i].typ != t.typ)
  {
    var all := [t] + ts;
    if Apart(all, fields) {
      assert all[0] == t;
      forall i | 0 <= i < |ts| && IsField(ts[i].typ) ensures ts[i].typ !in fields { assert all[i + 1] == ts[i]; }
    }
  }

  lemma ConsUnion(m: map<Byte, Text>, t: Tlv, ts: seq<Tlv>, fields: map<Byte, Text>)
    requires t.typ !in fields || !IsField(t.typ)
    ensures IsUnion(m, fields, [t] + ts) <==> IsUnion(m, if IsField(t.typ) then fields[t.typ := t.val] else fields, ts)
  {
    assert forall u :: u in [t] + ts <==> u == t || u in ts;
    var fields' := if IsField(t.typ) then fields[t.typ := t.val] else fields;
    forall typ: Byte, v: Text
      ensures Has(fields', typ, v) || (IsField(typ) && Tlv(typ, v) in ts) <==>
        Has(fields, typ, v) || (IsField(typ) && Tlv(typ, v) in [t] + ts)
    {
    }
  }

  /** How a body of whole TLVs with a tail is read: fields 1 to 3 each at most once, all other types skipped. */
  lemma {:induction false} ScanExactly(ts: seq<Tlv>, tail: Text, fields: map<Byte, Text>)
    requires AllFit(ts) && (tail == [] || CutOff(tail))
    ensures var r := Scan(EncodeTlvs(ts) + tail, fields);
      && (r.Good? <==> tail == [] && NoRepeat(ts) && Apart(ts, fields))
      && (r.Good? ==> IsUnion(r.value, fields, ts))
      && (r == Bad(DuplicateTlv) <==> !(NoRepeat(ts) && Apart(ts, fields)))
    decreases |ts|
  {
    if ts == [] {
      assert EncodeTlvs(ts) + tail == tail;
      if tail != [] { NextOfCutOff(tail); }
    } else {
      var t, rest := ts[0], ts[1..];
      assert ts == [t] + rest;
      Assoc(EncodeTlv(t), EncodeTlvs(rest), tail);
      ScanEncoded(t, EncodeTlvs(rest) + tail, fields);
      ConsRepeat(t, rest);
      ConsApart(t, rest, fields);
      if !IsField(t.typ) || t.typ !in fields {
        var fields' := if IsField(t.typ) then fields[t.typ := t.val] else fields;
        ScanExactly(rest, tail, fields');
        var r := Scan(EncodeTlvs(rest) + tail, fields');
        if r.Good? { ConsUnion(r.value, t, rest, fields); }
      }
    }
  }

  /** The value of field `typ`, empty if it is not given. */
  function FieldIn(ts: seq<Tlv>, typ: Byte): Text {
    if ts == [] then [] else if ts[0].typ == typ then ts[0].val else FieldIn(ts[1..], typ)
  }

  lemma {:induction false} FieldInMember(ts: seq<Tlv>, typ: Byte)
    ensures Tlv(typ, FieldIn(ts, typ)) in ts || (FieldIn(ts, typ) == [] && forall v :: Tlv(typ, v) !in ts)
  {
    if ts != [] {
      FieldInMember(ts[1..], typ);
      assert ts == [ts[0]] + ts[1..];
      assert ts[0].typ == typ ==> ts[0] == Tlv(typ, ts[0].val);
    }
  }

  lemma FieldIsRead(ts: seq<Tlv>, m: map<Byte, Text>, typ: Byte)
    requires IsUnion(m, map[], ts) && IsField(typ)
    ensures FieldOr(m, typ) == FieldIn(ts, typ)
  {
    FieldInMember(ts, typ);
    assert Tlv(typ, FieldIn(ts, typ)) in ts ==> Has(m, typ, FieldIn(ts, typ));
    if typ in m { assert Has(m, typ, m[typ]); }
  }

  /** Every packet with a good header is read as the query that its fields 1, 2 and 3 make, if they make one. */
  lemma DecodedExactly(lib: Library, ts: seq<Tlv>, tail: Text, flags: Byte, q: Query)
    requires AllFit(ts) && (tail == [] || CutOff(tail))
    ensures DecodedQuery(lib, [68, 68, 78, 83, 1, flags] + (EncodeTlvs(ts) + tail)) == Good(q) <==>
      && flags == 0 && tail == [] && NoRepeat(ts)
      && Parsed(lib, FieldIn(ts, 3)).Some?
      && NewQuery(lib, FieldIn(ts, 1), FieldIn(ts, 2), Parsed(lib, FieldIn(ts, 3)).value) == Some(q)
  {
    var body := EncodeTlvs(ts) + tail;
    HeaderOnTheWire(flags);
    HeaderAccepted(flags, body);
    ScanExactly(ts, tail, map[]);
    var r := Scan(body, map[]);
    if r.Good? {
      FieldIsRead(ts, r.value, 1);
      FieldIsRead(ts, r.value, 2);
      FieldIsRead(ts, r.value, 3);
    }
  }

  // ------------------------------------------------------------ response round trip

  function Got(values: map<Byte, seq<Text>>, typ: Byte): seq<Text> {
    if typ in values then values[typ] else []
  }

  function Add(values: map<Byte, seq<Text>>, t: Tlv): map<Byte, seq<Text>> {
    values[t.typ := Got(values, t.typ) + [t.val]]
  }

  function ScanAll(rest: Text, values: map<Byte, seq<Text>>): Result<map<Byte, seq<Text>>>
    decreases |rest|
  {
    if rest == [] then Good(values)
    else match NextTlv(rest)
      case Bad(why) => Bad(why)
      case Good((t, after)) => ScanAll(after, Add(values, t))
  }

  method DecodeUDPResponse(packet: Text) returns (r: Result<(Byte, map<Byte, seq<Text>>)>)
    ensures HeaderFault(packet).Some? ==> r == Bad(HeaderFault(packet).value)
    ensures HeaderFault(packet).None? ==>
      match ScanAll(packet[6..], map[])
      case Bad(why) => r == Bad(why)
      case Good(values) => r == Good((packet[5], values))
  {
    var f := HeaderFault(packet);
    if f.Some? {
      return Bad(f.value);
    }
    var status := packet[5];
    var values: map<Byte, seq<Text>> := map[];
    var i := 6;
    while i < |packet|
      invariant 6 <= i <= |packet|
      invariant ScanAll(packet[6..], map[]) == ScanAll(packet[i..], values)
      decreases |packet| - i
    {
      var t, next := ReadTlv(packet, i);
      if t.Bad? {
        return Bad(t.why);
      }
      values := Add(values, t.value);
      i := next;
    }
    assert packet[i..] == [];
    r := Good((status, values));
  }

  /** The values of one type, in order, leaving out those that did not fit. */
  function ValuesOf(ts: seq<Tlv>, typ: Byte): seq<Text> {
    if ts == [] then []
    else (if ts[0].typ == typ && |ts[0].val| < U16 then [ts[0].val] else []) + ValuesOf(ts[1..], typ)
  }

  lemma ScanAllOne(t: Tlv, rest: Text, values: map<Byte, seq<Text>>)
    ensures ScanAll(EncodeTlv(t) + rest, values) ==
      if |t.val| < U16 then ScanAll(rest, Add(values, t)) else ScanAll(rest, values)
  {
    if |t.val| < U16 {
      NextTlvOfEncoded(t, rest);
    } else {
      assert EncodeTlv(t) + rest == rest;
    }
  }

  function Group(ts: seq<Tlv>, values: map<Byte, seq<Text>>): map<Byte, seq<Text>>
    decreases |ts|
  {
    if ts == [] then values else Group(ts[1..], if |ts[0].val| < U16 then Add(values, ts[0]) else values)
  }

  lemma {:induction false} ScanAllEncoded(ts: seq<Tlv>, values: map<Byte, seq<Text>>)
    ensures ScanAll(EncodeTlvs(ts), values) == Good(Group(ts, values))
    decreases |ts|
  {
    if ts != [] {
      ScanAllOne(ts[0], EncodeTlvs(ts[1..]), values);
      ScanAllEncoded(ts[1..], if |ts[0].val| < U16 then Add(values, ts[0]) else values);
    }
  }

  /** How a response body of whole TLVs with a tail is read: every value, in order, unless one is cut off. */
  lemma {:induction false} ScanAllExactly(ts: seq<Tlv>, tail: Text, values: map<Byte, seq<Text>>)
    requires AllFit(ts) && (tail == [] || CutOff(tail))
    ensures ScanAll(EncodeTlvs(ts) + tail, values) ==
      if tail == [] then Good(Group(ts, values))
      else Bad(if |tail| < 3 then TruncatedHeader else TruncatedValue)
    decreases |ts|
  {
    if ts == [] {
      assert EncodeTlvs(ts) + tail == tail;
      if tail != [] { NextOfCutOff(tail); }
    } else {
      Assoc(EncodeTlv(ts[0]), EncodeTlvs(ts[1..]), tail);
      ScanAllOne(ts[0], EncodeTlvs(ts[1..]) + tail, values);
      ScanAllExactly(ts[1..], tail, Add(values, ts[0]));
    }
  }

  lemma GotAdd(values: map<Byte, seq<Text>>, t: Tlv, typ: Byte)
    ensures Got(Add(values, t), typ) == Got(values, typ) + (if t.typ == typ then [t.val] else [])
  {
  }

  lemma Assoc3(a: seq<Text>, b: seq<Text>, c: seq<Text>)
    ensures (a + b) + c == a + (b + c)
  {
  }

  lemma {:induction false} GroupKeepsOrder(ts: seq<Tlv>, values: map<Byte, seq<Text>>, typ: Byte)
    ensures Got(Group(ts, values), typ) == Got(values, typ) + ValuesOf(ts, typ)
    decreases |ts|
  {
    if ts != [] {
      var t, values' := ts[0], if |ts[0].val| < U16 then Add(values, ts[0]) else values;
      var first: seq<Text> := if t.typ == typ && |t.val| < U16 then [t.val] else [];
      GotAdd(values, t, typ);
      assert Got(values', typ) == Got(values, typ) + first;
      GroupKeepsOrder(ts[1..], values', typ);
      Assoc3(Got(values, typ), first, ValuesOf(ts[1..], typ));
    }
  }

  /** Decoding an encoded response gives back its status and, per type, its values in order. */
  lemma ResponseRoundTrip(status: Byte, ts: seq<Tlv>, typ: Byte)
    ensures var p := Packet(status, ts);
      && HeaderFault(p).None? && p[5] == status
      && ScanAll(p[6..], map[]).Good? && Got(ScanAll(p[6..], map[]).value, typ) == ValuesOf(ts, typ)
  {
    HeaderAccepted(status, EncodeTlvs(ts));
    ScanAllEncoded(ts, map[]);
    GroupKeepsOrder(ts, map[], typ);
  }
}
