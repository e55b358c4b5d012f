/** The two resolvers that classify a schema fragment:
    `getSchemaFormatFromSchema` (src/utils.ts:6-37) picks the preview
    component for a fragment, `getFieldId` (src/utils.ts:39-49) the
    editing form. Both are chains of checks where the first match wins. */
module Resolvers {
  import opened JsonValues
  import opened Access

  /** The preview components `getSchemaFormatFromSchema` chooses among. */
  datatype Category = Enum | Boolean | String | Number | Integer | Object | Array | Unknown

  /** The field ids `getFieldId` returns. */
  datatype FieldKey = BOOLEAN | DATE | DATE_TIME | TIME | STRING | INTEGER | NUMBER | OBJECT | ARRAY
  {
    /** The string `getFieldId` returns for this key. */
    function Id(): string
    {
      match this
      case BOOLEAN => "BOOLEAN"
      case DATE => "DATE"
      case DATE_TIME => "DATE_TIME"
      case TIME => "TIME"
      case STRING => "STRING"
      case INTEGER => "INTEGER"
      case NUMBER => "NUMBER"
      case OBJECT => "OBJECT"
      case ARRAY => "ARRAY"
    }
  }

  /** Distinct keys return distinct strings, so a caller can tell the
      forms apart by the id alone. */
  lemma IdInjective(k1: FieldKey, k2: FieldKey)
    ensures k1.Id() == k2.Id() ==> k1 == k2
  {
  }

  /** The `type` keywords of JSON Schema that the editor recognises. */
  const TypeKeywords: set<string> := {"boolean", "string", "number", "integer", "object", "array"}

  /** The `format` values that select a date or time form. */
  const DateFormats: set<string> := {"date", "date-time", "time"}

  /** `schema?.name` read for a comparison with a string literal:
      `schema?.name === t` holds for a string `t` exactly when this is `t`. */
  function StringMember(schema: Json, name: string): (s: Option<string>)
    ensures forall t :: s == Some(t) <==> Member(schema, name) == Some(JStr(t))
  {
    match Member(schema, name)
    case Some(JStr(t)) => Some(t)
    case _ => None
  }

  /** `schema?.name` is the property read `o[name]` of the path lookup,
      for a name that is neither `length` nor an index (such as `type`,
      `format` and `enum`), except that `?.` gives undefined on null
      where the read throws. */
  lemma MemberIsRead(v: Json, name: string)
    requires name != "length" && ArrayIndex(name).None?
    ensures v != JNull ==> (Member(v, name).Some? <==> Step(Value(v), name).Value?)
    ensures Member(v, name).Some? ==> Step(Value(v), name) == Value(Member(v, name).value)
    ensures v == JNull ==> Member(v, name).None? && Step(Value(v), name) == TypeError
  {
  }

  /** The three members the resolvers compare are ordinary property reads. */
  lemma ResolverMembersAreReads(v: Json)
    ensures forall name :: name in {"type", "format", "enum"} && v != JNull ==>
      (Member(v, name).Some? <==> Step(Value(v), name).Value?)
  {
    forall name | name in {"type", "format", "enum"} && v != JNull
      ensures Member(v, name).Some? <==> Step(Value(v), name).Value?
    {
      assert !IsDigit(name[0]);
      MemberIsRead(v, name);
    }
  }

  /** `Number(t) > 0` for a string `t` written as a plain decimal
      numeral: one or more digits whose value is above zero. */
  predicate NumeralPositive(t: string): (b: bool)
    ensures b ==> t != "" && IsDigit(t[0])
    ensures b && t[0] != '0' ==> ArrayIndex(t).Some? && ArrayIndex(t).value > 0
  {
    t != "" && (forall i :: 0 <= i < |t| ==> IsDigit(t[i])) && DecimalValue(t) > 0
  }

  /** `Number(String(x)) > 0`: a number compares as itself, a string as
      its numeral, an array as its joined elements (so only a single
      element can be positive); null, booleans and objects stringify to
      "", "true"/"false" and "[object Object]", none of which is above zero. */
  predicate StringifiedPositive(x: Json): (b: bool)
    ensures b ==> x.JNum? || x.JStr? || x.JArr?
    ensures x.JNum? ==> (b <==> x.n > 0)
  {
    match x
    case JNum(n) => n > 0
    case JStr(t) => NumeralPositive(t)
    case JArr(items) => |items| == 1 && StringifiedPositive(items[0])
    case _ => false
  }

  /** `x > 0` for a `length` that is read off an `enum` object: the
      comparison turns `x` into a number, `true` being 1 and null 0. */
  predicate LengthPositive(x: Json): (b: bool)
    ensures x.JBool? ==> (b <==> x.b)
    ensures x.JNull? || x.JObj? || x == JStr("") || x == JArr([]) ==> !b
    ensures b ==> Truthy(x)
  {
    if x.JBool? then x.b else StringifiedPositive(x)
  }

  /** `schema?.enum?.length > 0`: a non-empty `enum` array or string, or
      an `enum` object whose `length` entry coerces to a number above zero. */
  predicate HasNonEmptyEnum(schema: Json): (b: bool)
    ensures b ==> Member(schema, "enum").Some?
    ensures b ==> var e := Member(schema, "enum").value; e.JArr? || e.JStr? || e.JObj?
  {
    match Member(schema, "enum")
    case Some(JArr(items)) => |items| > 0
    case Some(JStr(s)) => |s| > 0
    case Some(JObj(m)) => "length" in m && LengthPositive(m["length"])
    case _ => false
  }

  /** The numeral of an index coerces back to the index: it is positive,
      bare or wrapped in a one-element array, exactly when the index is. */
  lemma NumeralLengthPositive(n: nat)
    ensures LengthPositive(JStr(IndexKey(n))) <==> n > 0
    ensures LengthPositive(JArr([JStr(IndexKey(n))])) <==> LengthPositive(JNum(n))
  {
    assert ArrayIndex(IndexKey(n)) == Some(n);
  }

  /** The `type` keyword a type-based category is chosen for. */
  function TypeKeyword(c: Category): Option<string>
  {
    match c
    case Boolean => Some("boolean")
    case String => Some("string")
    case Number => Some("number")
    case Integer => Some("integer")
    case Object => Some("object")
    case Array => Some("array")
    case Enum => None
    case Unknown => None
  }

  /** `getSchemaFormatFromSchema(schema, SchemaFormat)`, with the chosen
      member of the component bundle named by its category. */
  function SchemaFormatFromSchema(schema: Json): (c: Category)
    ensures c == Enum <==> HasNonEmptyEnum(schema)
    ensures c != Enum && c != Unknown ==> TypeKeyword(c).Some? && StringMember(schema, "type") == TypeKeyword(c)
    ensures c == Unknown <==>
      !HasNonEmptyEnum(schema)
      && (StringMember(schema, "type").None? || StringMember(schema, "type").value !in TypeKeywords)
  {
    if HasNonEmptyEnum(schema) then Enum
    else if StringMember(schema, "type") == Some("boolean") then Boolean
    else if StringMember(schema, "type") == Some("string") then String
    else if StringMember(schema, "type") == Some("number") then Number
    else if StringMember(schema, "type") == Some("integer") then Integer
    else if StringMember(schema, "type") == Some("object") then Object
    else if StringMember(schema, "type") == Some("array") then Array
    else Unknown
  }

  /** The `format` value a date or time key is chosen for. */
  function FormatKeyword(k: FieldKey): Option<string>
  {
    match k
    case DATE => Some("date")
    case DATE_TIME => Some("date-time")
    case TIME => Some("time")
    case _ => None
  }

  /** The `type` keyword a type-based key is chosen for. */
  function KeyTypeKeyword(k: FieldKey): Option<string>
  {
    match k
    case BOOLEAN => Some("boolean")
    case STRING => Some("string")
    case INTEGER => Some("integer")
    case NUMBER => Some("number")
    case OBJECT => Some("object")
    case ARRAY => Some("array")
    case _ => None
  }

  /** `getFieldId(schema)`; `None` where the source returns undefined. */
  function FieldId(schema: Json): (k: Option<FieldKey>)
    ensures k == Some(BOOLEAN) <==> StringMember(schema, "type") == Some("boolean")
    ensures (k.Some? && FormatKeyword(k.value).Some?) <==>
      StringMember(schema, "type") != Some("boolean")
      && StringMember(schema, "format").Some? && StringMember(schema, "format").value in DateFormats
    ensures k.Some? && FormatKeyword(k.value).Some? ==> StringMember(schema, "format") == FormatKeyword(k.value)
    ensures k.Some? && FormatKeyword(k.value).None? ==> StringMember(schema, "type") == KeyTypeKeyword(k.value)
    ensures k.None? <==>
      (StringMember(schema, "type").None? || StringMember(schema, "type").value !in TypeKeywords)
      && (StringMember(schema, "format").None? || StringMember(schema, "format").value !in DateFormats)
  {
    if StringMember(schema, "type") == Some("boolean") then Some(BOOLEAN)
    else if StringMember(schema, "format") == Some("date") then Some(DATE)
    else if StringMember(schema, "format") == Some("date-time") then Some(DATE_TIME)
    else if StringMember(schema, "format") == Some("time") then Some(TIME)
    else if StringMember(schema, "type") == Some("string") then Some(STRING)
    else if StringMember(schema, "type") == Some("integer") then Some(INTEGER)
    else if StringMember(schema, "type") == Some("number") then Some(NUMBER)
    else if StringMember(schema, "type") == Some("object") then Some(OBJECT)
    else if StringMember(schema, "type") == Some("array") then Some(ARRAY)
    else None
  }

  /** A decision table read top to bottom: the first rule whose test holds. */
  function FirstMatch<K>(rules: seq<K>, test: K -> bool): (r: Option<K>)
    ensures r.Some? ==> r.value in rules && test(r.value)
    ensures r.None? ==> forall i :: 0 <= i < |rules| ==> !test(rules[i])
  {
    if rules == [] then None
    else if test(rules[0]) then Some(rules[0])
    else FirstMatch(rules[1..], test)
  }

  /** A rule of the table chooses its entry exactly when every rule above it fails. */
  lemma {:induction false} FirstMatchChooses<K>(rules: seq<K>, test: K -> bool, i: nat)
    requires i < |rules| && test(rules[i])
    requires forall j :: 0 <= j < i ==> !test(rules[j])
    ensures FirstMatch(rules, test) == Some(rules[i])
  {
    if i > 0 {
      FirstMatchChooses(rules[1..], test, i - 1);
    }
  }

  /** The category checks in source order; `Unknown` is the fallback that always applies. */
  const CategoryRules: seq<Category> := [Enum, Boolean, String, Number, Integer, Object, Array, Unknown]

  predicate CategoryApplies(schema: Json, c: Category)
  {
    match c
    case Enum => HasNonEmptyEnum(schema)
    case Unknown => true
    case _ => StringMember(schema, "type") == TypeKeyword(c)
  }

  /** The field-id checks in source order. */
  const FieldRules: seq<FieldKey> := [BOOLEAN, DATE, DATE_TIME, TIME, STRING, INTEGER, NUMBER, OBJECT, ARRAY]

  predicate FieldApplies(schema: Json, k: FieldKey)
  {
    if FormatKeyword(k).Some? then StringMember(schema, "format") == FormatKeyword(k) else StringMember(schema, "type") == KeyTypeKeyword(k)
  }

  /** `getSchemaFormatFromSchema` is total and is the first match of its
      table: the enum check, then boolean, string, number, integer,
      object, array, and `Unknown` when none applies. */
  lemma SchemaFormatIsFirstMatch(schema: Json)
    ensures FirstMatch(CategoryRules, c => CategoryApplies(schema, c)) == Some(SchemaFormatFromSchema(schema))
  {
    var c := SchemaFormatFromSchema(schema);
    var test := c => CategoryApplies(schema, c);
    var i := match c
      case Enum => 0 case Boolean => 1 case String => 2 case Number => 3
      case Integer => 4 case Object => 5 case Array => 6 case Unknown => 7;
    assert CategoryRules[i] == c;
    forall j | 0 <= j < i ensures !test(CategoryRules[j]) {
    }
    FirstMatchChooses(CategoryRules, test, i);
  }

  /** `getFieldId` is the first match of its table: boolean, the three
      date formats, then string, integer, number, object, array; none
      when no rule applies. */
  lemma FieldIdIsFirstMatch(schema: Json)
    ensures FirstMatch(FieldRules, k => FieldApplies(schema, k)) == FieldId(schema)
  {
    var test := k => FieldApplies(schema, k);
    match FieldId(schema)
    case Some(k) =>
      var i := match k
        case BOOLEAN => 0 case DATE => 1 case DATE_TIME => 2 case TIME => 3 case STRING => 4
        case INTEGER => 5 case NUMBER => 6 case OBJECT => 7 case ARRAY => 8;
      assert FieldRules[i] == k;
      forall j | 0 <= j < i ensures !test(FieldRules[j]) {
      }
      FirstMatchChooses(FieldRules, test, i);
    case None =>
      forall j | 0 <= j < |FieldRules| ensures !test(FieldRules[j]) {
      }
      FirstMatchNone(FieldRules, test);
  }

  /** The table gives nothing when no rule applies. */
  lemma {:induction false} FirstMatchNone<K>(rules: seq<K>, test: K -> bool)
    requires forall j :: 0 <= j < |rules| ==> !test(rules[j])
    ensures FirstMatch(rules, test) == None
  {
    if rules != [] {
      assert !test(rules[0]);
      FirstMatchNone(rules[1..], test);
    }
  }

  /** An `enum` takes precedence over whatever `type` says. */
  lemma EnumOverridesType(entries: map<string, Json>, t: Json)
    requires HasNonEmptyEnum(JObj(entries))
    ensures SchemaFormatFromSchema(JObj(entries["type" := t])) == Enum
  {
    assert Member(JObj(entries["type" := t]), "enum") == Member(JObj(entries), "enum");
  }

  /** Outside the enum and date cases the two resolvers agree: a fragment
      has no field id exactly when its category is `Unknown`, and a field
      id names the same type as the category. */
  lemma FieldIdAgreesWithCategory(schema: Json)
    requires !HasNonEmptyEnum(schema)
    requires StringMember(schema, "format").None? || StringMember(schema, "format").value !in DateFormats
    ensures FieldId(schema).None? <==> SchemaFormatFromSchema(schema) == Unknown
    ensures FieldId(schema).Some? ==>
      KeyTypeKeyword(FieldId(schema).value) == TypeKeyword(SchemaFormatFromSchema(schema))
  {
  }

  /** The sample schema's `type` property
      (src/stories/SchemaBuilder.stories.tsx:28-34). */
  const SampleType: Json := JObj(map[
    "title" := JStr("Type"),
    "description" := JStr("The type of the item."),
    "type" := JStr("string"),
    "enum" := JArr([JStr("grocery"), JStr("cloths")]),
    "enumNames" := JArr([JStr("Grocery"), JStr("Cloths")])])

  /** The sample schema's `price` property (lines 35-40 of the same file). */
  const SamplePrice: Json := JObj(map[
    "title" := JStr("Price"),
    "description" := JStr("The price of the item."),
    "type" := JStr("number"),
    "minimum" := JNum(0)])

  /** The sample schema's `birthday` property (lines 85-90 of the same file). */
  const SampleBirthday: Json := JObj(map[
    "title" := JStr("Birthday Date"),
    "type" := JStr("string"),
    "minimum" := JNum(0),
    "format" := JStr("date")])

  /** How the editor resolves the three sample fields. */
  lemma SampleSchemaFixtures()
    ensures SchemaFormatFromSchema(SampleType) == Enum
    ensures FieldId(SamplePrice) == Some(NUMBER) && SchemaFormatFromSchema(SamplePrice) == Number
    ensures FieldId(SampleBirthday) == Some(DATE) && SchemaFormatFromSchema(SampleBirthday) == String
  {
  }

  /** A date `format` wins over every `type` but `boolean`, which wins over it. */
  lemma FormatOverTypeFixtures()
    ensures FieldId(JObj(map["type" := JStr("number"), "format" := JStr("date")])) == Some(DATE)
    ensures FieldId(JObj(map["type" := JStr("boolean"), "format" := JStr("date")])) == Some(BOOLEAN)
  {
  }

  /** `enum` objects whose `length` is coerced by the comparison: a
      numeral string, `true` and a one-element array count. */
  lemma EnumLengthCoercionFixtures()
    ensures SchemaFormatFromSchema(JObj(map["enum" := JObj(map["length" := JStr("1")])])) == Enum
    ensures SchemaFormatFromSchema(JObj(map["enum" := JObj(map["length" := JBool(true)])])) == Enum
    ensures SchemaFormatFromSchema(JObj(map["enum" := JObj(map["length" := JArr([JNum(2)])])])) == Enum
  {
    assert NumeralPositive("1") by {
      assert "1"[..0] == "";
      assert DecimalValue("1") == 1;
    }
  }

  /** Lengths that do not count: "0", a one-element array of `true`, a
      number `enum` and an empty array, so the `type` decides. */
  lemma EnumLengthRejectedFixtures()
    ensures SchemaFormatFromSchema(JObj(map["enum" := JObj(map["length" := JStr("0")]), "type" := JStr("string")])) == String
    ensures SchemaFormatFromSchema(JObj(map["enum" := JObj(map["length" := JArr([JBool(true)])])])) == Unknown
    ensures SchemaFormatFromSchema(JObj(map["enum" := JNum(3), "type" := JStr("number")])) == Number
    ensures SchemaFormatFromSchema(JObj(map["enum" := JArr([]), "type" := JStr("boolean")])) == Boolean
  {
    assert !NumeralPositive("0") by {
      assert "0"[..0] == "";
      assert DecimalValue("0") == 0;
    }
  }

  /** Schemas that match no rule, and an enum of numbers. */
  lemma UnmatchedSchemaFixtures()
    ensures SchemaFormatFromSchema(JObj(map[])) == Unknown && FieldId(JObj(map[])) == None
    ensures SchemaFormatFromSchema(JObj(map["type" := JStr("foo")])) == Unknown
    ensures SchemaFormatFromSchema(JObj(map["type" := JStr("string"), "enum" := JArr([JNum(1), JNum(2), JNum(3)])])) == Enum
  {
  }
}
