/**
 Record types and their mandatory fields (contracts/contracts/RecordSchemaRegistry.sol).
 */
module SchemaRegistry {
  import opened Bytes
  import opened Digests
  import opened Records

  const MAX_FIELDS := 16
  const MAX_SCHEMA_FIELD_NAME := 32

  datatype FieldSpec = FieldSpec(name: Text, mandatory: bool)

  datatype Schema = Schema(name: Text, fields: seq<FieldSpec>)

  /** Declared schemas by type hash; a missing entry is a schema whose `exists` flag is unset. */
  type Schemas = map<Digest, Schema>

  datatype DeclareError = InvalidTypeName | TooManyFields | TypeAlreadyExists | InvalidFieldName | DuplicateField

  datatype Declared = Refused(why: DeclareError) | Accepted(schemas: Schemas)

  // ------------------------------------------------------------ specification

  predicate TypeNameByte(c: Byte) {
    (97 <= c <= 122) || (65 <= c <= 90) || (48 <= c <= 57) || c == 45 || c == 95
  }

  predicate ValidTypeName(t: Text) {
    0 < |t| <= MAX_TYPE_NAME_LENGTH && forall i :: 0 <= i < |t| ==> TypeNameByte(t[i])
  }

  predicate ValidFieldNames(names: seq<Text>) {
    forall i :: 0 <= i < |names| ==> 0 < |names[i]| <= MAX_SCHEMA_FIELD_NAME
  }

  predicate NoDuplicates(fields: seq<FieldSpec>) {
    forall i, j :: 0 <= i < j < |fields| ==> fields[i].name != fields[j].name
  }

  function Specs(names: seq<Text>, mandatory: bool): (fields: seq<FieldSpec>)
    ensures |fields| == |names|
  {
    seq(|names|, i requires 0 <= i < |names| => FieldSpec(names[i], mandatory))
  }

  function Declare(schemas: Schemas, name: Text, mandatory: seq<Text>, optional: seq<Text>): (r: Declared) {
    var fields := Specs(mandatory, true) + Specs(optional, false);
    if !ValidTypeName(name) then Refused(InvalidTypeName)
    else if |mandatory| + |optional| > MAX_FIELDS then Refused(TooManyFields)
    else if OfText(name) in schemas then Refused(TypeAlreadyExists)
    else if !ValidFieldNames(mandatory) || !ValidFieldNames(optional) then Refused(InvalidFieldName)
    else if !NoDuplicates(fields) then Refused(DuplicateField)
    else Accepted(schemas[OfText(name) := Schema(name, fields)])
  }

  function MandatoryOf(fields: seq<FieldSpec>): seq<Text> {
    if fields == [] then []
    else
      var last := fields[|fields| - 1];
      MandatoryOf(fields[..|fields| - 1]) + (if last.mandatory then [last.name] else [])
  }

  lemma {:induction false} MandatoryMember(fields: seq<FieldSpec>, n: Text)
    ensures n in MandatoryOf(fields) <==> FieldSpec(n, true) in fields
  {
    if fields != [] {
      MandatoryMember(fields[..|fields| - 1], n);
      assert fields == fields[..|fields| - 1] + [fields[|fields| - 1]];
    }
  }

  predicate CoversMandatory(schema: Schema, fieldNames: seq<Text>) {
    var mandatory := MandatoryOf(schema.fields);
    forall i :: 0 <= i < |mandatory| ==> mandatory[i] in fieldNames
  }

  /** Every schema sits under its own hash, has a valid name and no field twice. */
  predicate WellFormed(schemas: Schemas) {
    forall h :: h in schemas ==>
      && h == OfText(schemas[h].name)
      && ValidTypeName(schemas[h].name)
      && |schemas[h].fields| <= MAX_FIELDS
      && NoDuplicates(schemas[h].fields)
  }

  /** A declaration keeps every earlier schema as it was, and the registry well-formed. */
  lemma DeclarePreserves(schemas: Schemas, name: Text, mandatory: seq<Text>, optional: seq<Text>)
    requires WellFormed(schemas)
    ensures var r := Declare(schemas, name, mandatory, optional);
      r.Accepted? ==>
        && WellFormed(r.schemas)
        && r.schemas.Keys == schemas.Keys + {OfText(name)}
        && OfText(name) !in schemas
        && (forall h :: h in schemas ==> r.schemas[h] == schemas[h])
        && MandatoryOf(r.schemas[OfText(name)].fields) == mandatory
  {
    MandatoryDeclared(mandatory, optional);
  }

  lemma {:induction false} MandatoryDeclared(mandatory: seq<Text>, optional: seq<Text>)
    ensures MandatoryOf(Specs(mandatory, true) + Specs(optional, false)) == mandatory
    decreases |mandatory| + |optional|
  {
    if optional != [] {
      var before, last := optional[..|optional| - 1], optional[|optional| - 1];
      MandatoryDeclared(mandatory, before);
      MandatorySnoc(Specs(mandatory, true) + Specs(before, false), FieldSpec(last, false));
      assert Specs(optional, false) == Specs(before, false) + [FieldSpec(last, false)];
      assert Specs(mandatory, true) + Specs(optional, false) ==
        (Specs(mandatory, true) + Specs(before, false)) + [FieldSpec(last, false)];
    } else if mandatory != [] {
      var before, last := mandatory[..|mandatory| - 1], mandatory[|mandatory| - 1];
      MandatoryDeclared(before, []);
      MandatorySnoc(Specs(before, true) + Specs([], false), FieldSpec(last, true));
      assert Specs(mandatory, true) + Specs([], false) ==
        (Specs(before, true) + Specs([], false)) + [FieldSpec(last, true)];
    }
  }

  lemma MandatorySnoc(fields: seq<FieldSpec>, f: FieldSpec)
    ensures MandatoryOf(fields + [f]) == MandatoryOf(fields) + (if f.mandatory then [f.name] else [])
  {
    assert (fields + [f])[..|fields|] == fields;
  }

  function DeclareOrKeep(schemas: Schemas, name: Text, mandatory: seq<Text>, optional: seq<Text>): Schemas {
    var r := Declare(schemas, name, mandatory, optional);
    if r.Accepted? then r.schemas else schemas
  }

  function AsciiAll(names: seq<string>): (ts: seq<Text>)
    ensures |ts| == |names|
  {
    seq(|names|, i requires 0 <= i < |names| => Ascii(names[i]))
  }

  function BuiltIn(schemas: Schemas, name: string, mandatory: seq<string>, optional: seq<string>): Schemas {
    DeclareOrKeep(schemas, Ascii(name), AsciiAll(mandatory), AsciiAll(optional))
  }

  /** The types the registry's constructor declares. */
  function BuiltIns(): Schemas {
    var a := BuiltIn(map[], "A", ["address"], []);
    var b := BuiltIn(a, "AAAA", ["address"], []);
    var c := BuiltIn(b, "MX", ["host", "priority"], []);
    var d := BuiltIn(c, "SVC", ["target", "service", "transport"], ["port"]);
    BuiltIn(d, "ResourceRef", ["infoHash", "sha256", "contentType"], [])
  }

  lemma BuiltInAccepted(schemas: Schemas, name: string, mandatory: seq<string>, optional: seq<string>)
    requires 0 < |name| <= MAX_TYPE_NAME_LENGTH
    requires forall i :: 0 <= i < |name| ==> 'A' <= name[i] <= 'Z' || 'a' <= name[i] <= 'z'
    requires Free(schemas, |name|)
    requires var all := mandatory + optional;
      && |all| <= MAX_FIELDS
      && (forall i :: 0 <= i < |all| ==> 0 < |all[i]| <= MAX_SCHEMA_FIELD_NAME)
      && (forall i, j :: 0 <= i < j < |all| ==> |all[i]| != |all[j]|)
    ensures BuiltIn(schemas, name, mandatory, optional) == schemas[OfText(Ascii(name)) :=
      Schema(Ascii(name), Specs(AsciiAll(mandatory), true) + Specs(AsciiAll(optional), false))]
  {
    FieldsAccepted(mandatory, optional);
    assert forall i :: 0 <= i < |name| ==> TypeNameByte(Ascii(name)[i]);
    assert OfText(Ascii(name)) !in schemas;
  }

  lemma FieldsAccepted(mandatory: seq<string>, optional: seq<string>)
    requires var all := mandatory + optional;
      && (forall i :: 0 <= i < |all| ==> 0 < |all[i]| <= MAX_SCHEMA_FIELD_NAME)
      && (forall i, j :: 0 <= i < j < |all| ==> |all[i]| != |all[j]|)
    ensures var ms, os := AsciiAll(mandatory), AsciiAll(optional);
      ValidFieldNames(ms) && ValidFieldNames(os) && NoDuplicates(Specs(ms, true) + Specs(os, false))
  {
    var all, ms, os := mandatory + optional, AsciiAll(mandatory), AsciiAll(optional);
    var fields := Specs(ms, true) + Specs(os, false);
    assert forall i :: 0 <= i < |mandatory| ==> mandatory[i] == all[i] && |ms[i]| == |all[i]|;
    assert forall i :: 0 <= i < |optional| ==> optional[i] == all[|mandatory| + i] && |os[i]| == |all[|mandatory| + i]|;
    assert forall i :: 0 <= i < |fields| ==> |fields[i].name| == |all[i]|;
  }

  /** No declared type name has this length, so none with it is taken. */
  predicate Free(schemas: Schemas, length: nat) {
    forall h :: h in schemas ==> h.OfText? && |h.text| != length
  }

  function Must(name: string): FieldSpec {
    FieldSpec(Ascii(name), true)
  }

  function May(name: string): FieldSpec {
    FieldSpec(Ascii(name), false)
  }

  /** The schemas with one more type of that name and those fields. */
  function Plus(schemas: Schemas, name: string, fields: seq<FieldSpec>): Schemas {
    schemas[OfText(Ascii(name)) := Schema(Ascii(name), fields)]
  }

  lemma AddressAccepted(schemas: Schemas, name: string)
    requires (name == "A" || name == "AAAA") && Free(schemas, |name|)
    ensures BuiltIn(schemas, name, ["address"], []) == Plus(schemas, name, [Must("address")])
  {
    BuiltInAccepted(schemas, name, ["address"], []);
    assert Specs(AsciiAll(["address"]), true) + Specs(AsciiAll([]), false) == [Must("address")];
  }

  lemma MailAccepted(schemas: Schemas)
    requires Free(schemas, 2)
    ensures BuiltIn(schemas, "MX", ["host", "priority"], []) == Plus(schemas, "MX", [Must("host"), Must("priority")])
  {
    BuiltInAccepted(schemas, "MX", ["host", "priority"], []);
    assert Specs(AsciiAll(["host", "priority"]), true) + Specs(AsciiAll([]), false) == [Must("host"), Must("priority")];
  }

  lemma ServiceAccepted(schemas: Schemas)
    requires Free(schemas, 3)
    ensures BuiltIn(schemas, "SVC", ["target", "service", "transport"], ["port"]) ==
      Plus(schemas, "SVC", [Must("target"), Must("service"), Must("transport"), May("port")])
  {
    BuiltInAccepted(schemas, "SVC", ["target", "service", "transport"], ["port"]);
    assert Specs(AsciiAll(["target", "service", "transport"]), true) + Specs(AsciiAll(["port"]), false) ==
      [Must("target"), Must("service"), Must("transport"), May("port")];
  }

  lemma ResourceAccepted(schemas: Schemas)
    requires Free(schemas, 11)
    ensures BuiltIn(schemas, "ResourceRef", ["infoHash", "sha256", "contentType"], []) ==
      Plus(schemas, "ResourceRef", [Must("infoHash"), Must("sha256"), Must("contentType")])
  {
    BuiltInAccepted(schemas, "ResourceRef", ["infoHash", "sha256", "contentType"], []);
    assert Specs(AsciiAll(["infoHash", "sha256", "contentType"]), true) + Specs(AsciiAll([]), false) ==
      [Must("infoHash"), Must("sha256"), Must("contentType")];
  }

  lemma FreeAfter(schemas: Schemas, name: string, fields: seq<FieldSpec>, length: nat)
    requires Free(schemas, length) && |name| != length
    ensures Free(Plus(schemas, name, fields), length)
  {
  }

  /** The built-in types with their fields, in the order of their declaration. */
  function BuiltInTable(): Schemas {
    Plus(Plus(Plus(Plus(Plus(map[],
      "A", [Must("address")]),
      "AAAA", [Must("address")]),
      "MX", [Must("host"), Must("priority")]),
      "SVC", [Must("target"), Must("service"), Must("transport"), May("port")]),
      "ResourceRef", [Must("infoHash"), Must("sha256"), Must("contentType")])
  }

  /** None of the built-in declarations is refused, and each type has exactly its fields. */
  lemma BuiltInsAccepted()
    ensures BuiltIns() == BuiltInTable()
  {
    var a := Plus(map[], "A", [Must("address")]);
    var b := Plus(a, "AAAA", [Must("address")]);
    var c := Plus(b, "MX", [Must("host"), Must("priority")]);
    var d := Plus(c, "SVC", [Must("target"), Must("service"), Must("transport"), May("port")]);
    AddressAccepted(map[], "A");
    FreeAfter(map[], "A", [Must("address")], 4);
    AddressAccepted(a, "AAAA");
    FreeAfter(map[], "A", [Must("address")], 2);
    FreeAfter(a, "AAAA", [Must("address")], 2);
    MailAccepted(b);
    FreeAfter(map[], "A", [Must("address")], 3);
    FreeAfter(a, "AAAA", [Must("address")], 3);
    FreeAfter(b, "MX", [Must("host"), Must("priority")], 3);
    ServiceAccepted(c);
    FreeAfter(map[], "A", [Must("address")], 11);
    FreeAfter(a, "AAAA", [Must("address")], 11);
    FreeAfter(b, "MX", [Must("host"), Must("priority")], 11);
    FreeAfter(c, "SVC", [Must("target"), Must("service"), Must("transport"), May("port")], 11);
    ResourceAccepted(d);
  }

  // ------------------------------------------------------------ the contract

  class RecordSchemaRegistry {
    var schemas: Schemas
    var typeNames: seq<Text>

    /** The type list names exactly the declared types, each once. */
    ghost predicate Valid()
      reads this
    {
      && WellFormed(schemas)
      && (forall i :: 0 <= i < |typeNames| ==> OfText(typeNames[i]) in schemas)
      && (forall h :: h in schemas ==> schemas[h].name in typeNames)
      && (forall i, j :: 0 <= i < j < |typeNames| ==> typeNames[i] != typeNames[j])
    }

    constructor ()
      ensures Valid() && schemas == BuiltInTable()
    {
      schemas, typeNames := map[], [];
      new;
      BuiltInsAccepted();
      var _ := DeclareType(Ascii("A"), AsciiAll(["address"]), AsciiAll([]));
      var _ := DeclareType(Ascii("AAAA"), AsciiAll(["address"]), AsciiAll([]));
      var _ := DeclareType(Ascii("MX"), AsciiAll(["host", "priority"]), AsciiAll([]));
      var _ := DeclareType(Ascii("SVC"), AsciiAll(["target", "service", "transport"]), AsciiAll(["port"]));
      var _ := DeclareType(Ascii("ResourceRef"), AsciiAll(["infoHash", "sha256", "contentType"]), AsciiAll([]));
    }

    method DeclareType(name: Text, mandatory: seq<Text>, optional: seq<Text>) returns (err: bool)
      requires Valid()
      modifies this
      ensures Valid()
      ensures var r := Declare(old(schemas), name, mandatory, optional);
        && err == r.Refused?
        && schemas == (if r.Accepted? then r.schemas else old(schemas))
        && typeNames == (if r.Accepted? then old(typeNames) + [name] else old(typeNames))
    {
      var valid := ValidateTypeName(name);
      if !valid || |mandatory| + |optional| > MAX_FIELDS || OfText(name) in schemas {
        return true;
      }
      DeclarePreserves(schemas, name, mandatory, optional);
      var fields: seq<FieldSpec> := [];
      for i := 0 to |mandatory|
        invariant fields == Specs(mandatory, true)[..i]
        invariant ValidFieldNames(mandatory[..i])
      {
        if !(0 < |mandatory[i]| <= MAX_SCHEMA_FIELD_NAME) {
          assert !ValidFieldNames(mandatory);
          return true;
        }
        fields := fields + [FieldSpec(mandatory[i], true)];
      }
      assert fields == Specs(mandatory, true);
      assert mandatory == mandatory[..|mandatory|];
      for i := 0 to |optional|
        invariant fields == Specs(mandatory, true) + Specs(optional, false)[..i]
        invariant ValidFieldNames(optional[..i])
      {
        if !(0 < |optional[i]| <= MAX_SCHEMA_FIELD_NAME) {
          assert !ValidFieldNames(optional);
          return true;
        }
        fields := fields + [FieldSpec(optional[i], false)];
      }
      assert optional == optional[..|optional|];
      assert fields == Specs(mandatory, true) + Specs(optional, false);
      var unique := CheckNoDuplicates(fields);
      if !unique {
        return true;
      }
      schemas := schemas[OfText(name) := Schema(name, fields)];
      typeNames := typeNames + [name];
      err := false;
    }
  }

  method ValidateTypeName(t: Text) returns (ok: bool)
    ensures ok <==> ValidTypeName(t)
  {
    if |t| == 0 || |t| > MAX_TYPE_NAME_LENGTH {
      return false;
    }
    for i := 0 to |t|
      invariant forall j :: 0 <= j < i ==> TypeNameByte(t[j])
    {
      if !TypeNameByte(t[i]) {
        return false;
      }
    }
    ok := true;
  }

  method CheckNoDuplicates(fields: seq<FieldSpec>) returns (ok: bool)
    ensures ok <==> NoDuplicates(fields)
  {
    for i := 0 to |fields|
      invariant forall a, b :: 0 <= a < i && a < b < |fields| ==> fields[a].name != fields[b].name
    {
      var hi := OfText(fields[i].name);
      for j := i + 1 to |fields|
        invariant forall b :: i < b < j ==> fields[i].name != fields[b].name
      {
        if hi == OfText(fields[j].name) {
          return false;
        }
      }
    }
    ok := true;
  }

  /** mandatoryFields: a counting pass sizes the result, a second pass fills it. */
  method MandatoryFields(schema: Schema) returns (out: seq<Text>)
    ensures out == MandatoryOf(schema.fields)
  {
    var fields := schema.fields;
    var count := 0;
    for i := 0 to |fields|
      invariant count == |MandatoryOf(fields[..i])|
    {
      MandatoryOfSnoc(fields, i);
      if fields[i].mandatory {
        count := count + 1;
      }
    }
    var buffer := new Text[count](_ => []);
    var j := 0;
    for i := 0 to |fields|
      invariant j == |MandatoryOf(fields[..i])| <= buffer.Length
      invariant buffer[..j] == MandatoryOf(fields[..i])
      invariant buffer.Length == |MandatoryOf(fields[..|fields|])|
    {
      MandatoryOfSnoc(fields, i);
      MandatoryOfLength(fields, i + 1, |fields|);
      if fields[i].mandatory {
        buffer[j] := fields[i].name;
        j := j + 1;
      }
    }
    assert fields[..|fields|] == fields;
    out := buffer[..];
  }

  lemma MandatoryOfSnoc(f: seq<FieldSpec>, i: nat)
    requires i < |f|
    ensures MandatoryOf(f[..i + 1]) == MandatoryOf(f[..i]) + (if f[i].mandatory then [f[i].name] else [])
  {
    assert f[..i + 1][..i] == f[..i];
  }

  lemma {:induction false} MandatoryOfLength(f: seq<FieldSpec>, i: nat, j: nat)
    requires i <= j <= |f|
    ensures |MandatoryOf(f[..i])| <= |MandatoryOf(f[..j])|
  {
    if i < j {
      MandatoryOfLength(f, i, j - 1);
      MandatoryOfSnoc(f, j - 1);
    }
  }

  method Mentions(fieldNames: seq<Text>, field: Text) returns (found: bool)
    ensures found <==> field in fieldNames
  {
    found := false;
    for j := 0 to |fieldNames|
      invariant !found && field !in fieldNames[..j]
    {
      if OfText(fieldNames[j]) == OfText(field) {
        found := true;
        break;
      }
    }
    assert fieldNames == fieldNames[..|fieldNames|];
  }

  /** _checkMandatoryFields of NamespaceDApp.sol. */
  method CheckMandatoryFields(schema: Schema, fieldNames: seq<Text>) returns (ok: bool)
    ensures ok <==> CoversMandatory(schema, fieldNames)
  {
    var mandatory := MandatoryFields(schema);
    for i := 0 to |mandatory|
      invariant forall j :: 0 <= j < i ==> mandatory[j] in fieldNames
    {
      var found := Mentions(fieldNames, mandatory[i]);
      if !found {
        return false;
      }
    }
    ok := true;
  }
}
