/** `accessToObjectFieldByPath` (src/utils.ts:58-60): a left fold of
    property reads `o[i]` over the pieces of the path. */
module Access {
  import opened JsonValues
  import opened Paths

  /** The outcome of a chain of property reads: a value, `undefined`, or
      the TypeError thrown by reading a property of undefined or null. */
  datatype Read = Value(value: Json) | Undefined | TypeError

  /** `o[key]` for one step of the fold: an object's own entry, an array
      element or a string's character by index, the `length` of an array
      or string, undefined for anything else, and a TypeError on
      undefined or null. */
  function Step(r: Read, key: string): (next: Read)
    ensures next == TypeError <==> r == TypeError || r == Undefined || r == Value(JNull)
    ensures r.Value? && r.value.JObj? ==> (next.Value? <==> key in r.value.entries)
  {
    match r
    case TypeError => TypeError
    case Undefined => TypeError
    case Value(v) =>
      match v
      case JNull => TypeError
      case JObj(m) => if key in m then Value(m[key]) else Undefined
      case JArr(items) =>
        if key == "length" then Value(JNum(|items|))
        else (match ArrayIndex(key)
              case Some(i) => if i < |items| then Value(items[i]) else Undefined
              case None => Undefined)
      case JStr(s) =>
        if key == "length" then Value(JNum(|s|))
        else (match ArrayIndex(key)
              case Some(i) => if i < |s| then Value(JStr([s[i]])) else Undefined
              case None => Undefined)
      case JBool(_) => Undefined
      case JNum(_) => Undefined
  }

  /** `keys.reduce((o, i) => o[i], r)`. Once a read throws, or reads
      undefined with keys still to come, the whole lookup throws. */
  function ReadKeys(r: Read, keys: seq<string>): (result: Read)
    ensures r == TypeError ==> result == TypeError
    ensures r == Undefined && keys != [] ==> result == TypeError
    decreases |keys|
  {
    if keys == [] then r else ReadKeys(Step(r, keys[0]), keys[1..])
  }

  /** `accessToObjectFieldByPath(obj, path)`. */
  function AccessToObjectFieldByPath(obj: Json, path: string): (r: Read)
    ensures obj == JNull ==> r == TypeError
    ensures '.' !in path ==> r == Step(Value(obj), path)
  {
    ReadDotFree(Value(obj), path);
    ReadKeys(Value(obj), Split(path))
  }

  /** A dot-free path is a single read. */
  lemma ReadDotFree(r: Read, path: string)
    ensures '.' !in path ==> ReadKeys(r, Split(path)) == Step(r, path)
  {
    if '.' !in path {
      SplitDotFree(path);
      assert Split(path)[1..] == [];
    }
  }

  /** Reading along `a + b` reads along `a`, then along `b` from there. */
  lemma {:induction false} ReadKeysAppend(r: Read, a: seq<string>, b: seq<string>)
    ensures ReadKeys(r, a + b) == ReadKeys(ReadKeys(r, a), b)
    decreases |a|
  {
    if a == [] {
      assert a + b == b;
    } else {
      assert (a + b)[0] == a[0];
      assert (a + b)[1..] == a[1..] + b;
      ReadKeysAppend(Step(r, a[0]), a[1..], b);
    }
  }

  /** Reading an entry the spread `{ ...v }` copies out of `v` reads the
      same value from `v` itself: an object's entry, an array's element or
      a string's character under its index key. */
  lemma StepReadsSpread(v: Json, key: string)
    requires key in Fields(v)
    ensures Step(Value(v), key) == Value(Fields(v)[key])
  {
    if v.JArr? || v.JStr? {
      SpreadEntries(v);
      if v.JArr? {
        SpreadIndexedEntries(v.items);
      } else {
        SpreadIndexedEntries(Characters(v.s));
        CharactersAt(v.s);
      }
      assert ArrayIndex(key).Some?;
      assert key != "length" by {
        assert !IsDigit("length"[0]);
      }
    }
  }

  /** Looking up a child path reads the field's pieces from the lookup
      of the parent (or from the root under the root); a dot-free field
      is one more read. */
  lemma AccessChildPath(obj: Json, parentPath: string, fieldName: string)
    ensures parentPath == "" ==>
      AccessToObjectFieldByPath(obj, GeneratePath(parentPath, fieldName)) == AccessToObjectFieldByPath(obj, fieldName)
    ensures parentPath != "" ==>
      AccessToObjectFieldByPath(obj, GeneratePath(parentPath, fieldName))
        == ReadKeys(AccessToObjectFieldByPath(obj, parentPath), Split(fieldName))
    ensures '.' !in fieldName && parentPath == "" ==>
      AccessToObjectFieldByPath(obj, GeneratePath(parentPath, fieldName)) == Step(Value(obj), fieldName)
    ensures '.' !in fieldName && parentPath != "" ==>
      AccessToObjectFieldByPath(obj, GeneratePath(parentPath, fieldName))
        == Step(AccessToObjectFieldByPath(obj, parentPath), fieldName)
  {
    GeneratePathSplits(parentPath, fieldName);
    if parentPath != "" {
      ReadKeysAppend(Value(obj), Split(parentPath), Split(fieldName));
      if '.' !in fieldName {
        SplitDotFree(fieldName);
        assert [fieldName][1..] == [];
      }
    } else {
      assert GeneratePath(parentPath, fieldName) == fieldName;
    }
  }

  /** Reads through nested objects. */
  lemma AccessObjectExample()
    ensures AccessToObjectFieldByPath(JObj(map["a" := JObj(map["b" := JNum(1)])]), "a.b") == Value(JNum(1))
  {
    assert "a.b" == "a" + "." + "b";
    SplitTwo("a", "b");
    var inner := JObj(map["b" := JNum(1)]);
    assert Step(Value(JObj(map["a" := inner])), "a") == Value(inner);
    assert Step(Value(inner), "b") == Value(JNum(1));
    assert ["a", "b"][1..] == ["b"] && ["b"][1..] == [];
  }

  /** An index segment reads an array element. */
  lemma AccessArrayExample()
    ensures AccessToObjectFieldByPath(JObj(map["a" := JArr([JNull, JBool(true)])]), "a.1") == Value(JBool(true))
  {
    assert "a.1" == "a" + "." + "1";
    SplitTwo("a", "1");
    assert ArrayIndex("1") == Some(1) by {
      assert DecimalValue("1"[..0]) == 0;
    }
    var arr := JArr([JNull, JBool(true)]);
    assert Step(Value(JObj(map["a" := arr])), "a") == Value(arr);
    assert Step(Value(arr), "1") == Value(JBool(true));
    assert ["a", "1"][1..] == ["1"] && ["1"][1..] == [];
  }

  /** `length` reads the length of a string. */
  lemma AccessLengthExample()
    ensures AccessToObjectFieldByPath(JObj(map["a" := JStr("xyz")]), "a.length") == Value(JNum(3))
  {
    var path := "a" + "." + "length";
    assert "a.length" == path;
    assert "length" == ['l', 'e', 'n', 'g', 't', 'h'];
    SplitTwo("a", "length");
    var r := Step(Value(JObj(map["a" := JStr("xyz")])), "a");
    assert r == Value(JStr("xyz"));
    assert ReadKeys(Value(JObj(map["a" := JStr("xyz")])), ["a", "length"]) == ReadKeys(r, ["length"]) by {
      assert ["a", "length"][1..] == ["length"];
    }
    assert ReadKeys(r, ["length"]) == Step(r, "length") by {
      assert ["length"][1..] == [];
    }
    assert Step(r, "length") == Value(JNum(3));
  }

  /** A missing key reads as undefined, and reading past it throws. */
  lemma AccessMissingExamples()
    ensures AccessToObjectFieldByPath(JObj(map["a" := JNum(1)]), "b") == Undefined
    ensures AccessToObjectFieldByPath(JObj(map["a" := JNum(1)]), "b.c") == TypeError
  {
    SplitDotFree("b");
    assert ["b"][1..] == [];
    assert "b.c" == "b" + "." + "c";
    SplitTwo("b", "c");
  }
}
