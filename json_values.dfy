/** JSON-like values as the schema editor stores them: schema fragments,
    nested preview data and the values written into them. */
module JsonValues {

  datatype Option<+T> = None | Some(value: T)

  /** A JSON value. Numbers are integers; an object's keys are unordered. */
  datatype Json =
    | JNull
    | JBool(b: bool)
    | JNum(n: int)
    | JStr(s: string)
    | JArr(items: seq<Json>)
    | JObj(entries: map<string, Json>)

  predicate IsDigit(c: char)
  {
    '0' <= c <= '9'
  }

  /** The number written in decimal by the digits `s`. */
  function DecimalValue(s: string): nat
    requires forall i :: 0 <= i < |s| ==> IsDigit(s[i])
  {
    if s == "" then 0
    else
      var last := s[|s| - 1];
      assert IsDigit(last);
      DecimalValue(s[..|s| - 1]) * 10 + ((last as int) - ('0' as int))
  }

  /** The index an array-index key names: a canonical decimal numeral
      ("0", or digits without a leading zero). */
  function ArrayIndex(key: string): Option<nat>
  {
    if key != "" && (forall i :: 0 <= i < |key| ==> IsDigit(key[i])) && (key[0] != '0' || key == "0")
    then Some(DecimalValue(key))
    else None
  }

  /** The canonical decimal numeral of `n`: the key under which an array
      element or a string character is found. */
  function IndexKey(n: nat): (key: string)
    ensures ArrayIndex(key) == Some(n)
  {
    var digit := [((n % 10) + ('0' as int)) as char];
    assert digit[..0] == [] && IsDigit(digit[0]);
    assert DecimalValue(digit) == n % 10;
    if n < 10 then digit
    else
      var prefix := IndexKey(n / 10);
      var key := prefix + digit;
      assert key[..|key| - 1] == prefix;
      assert prefix != "0" by {
        assert DecimalValue("0"[..0]) == 0;
      }
      assert key[0] == prefix[0];
      key
  }

  /** `{ ...items }` for a sequence: each element under its index key. */
  function SpreadIndexed(items: seq<Json>): map<string, Json>
  {
    if items == [] then map[]
    else SpreadIndexed(items[..|items| - 1])[IndexKey(|items| - 1) := items[|items| - 1]]
  }

  /** The spread of a sequence holds each element under its index key,
      and nothing but index keys of its elements. */
  lemma {:induction false} SpreadIndexedEntries(items: seq<Json>)
    ensures forall i :: 0 <= i < |items| ==> IndexKey(i) in SpreadIndexed(items) && SpreadIndexed(items)[IndexKey(i)] == items[i]
    ensures forall k :: k in SpreadIndexed(items) ==>
      ArrayIndex(k).Some? && ArrayIndex(k).value < |items| && SpreadIndexed(items)[k] == items[ArrayIndex(k).value]
  {
    if items != [] {
      var n := |items| - 1;
      var prefix := items[..n];
      var m := SpreadIndexed(items);
      var pm := SpreadIndexed(prefix);
      assert m == pm[IndexKey(n) := items[n]];
      SpreadIndexedEntries(prefix);
      forall i | 0 <= i < |items| ensures IndexKey(i) in m && m[IndexKey(i)] == items[i] {
        if i < n {
          assert ArrayIndex(IndexKey(i)) == Some(i) && ArrayIndex(IndexKey(n)) == Some(n);
          assert IndexKey(i) != IndexKey(n);
          assert prefix[i] == items[i];
        }
      }
      forall k | k in m ensures ArrayIndex(k).Some? && ArrayIndex(k).value < |items| && m[k] == items[ArrayIndex(k).value] {
        if k != IndexKey(n) {
          assert k in pm;
          assert prefix[ArrayIndex(k).value] == items[ArrayIndex(k).value];
        }
      }
    }
  }

  /** The characters of a string, each as a one-character string. */
  function Characters(s: string): (r: seq<Json>)
    ensures |r| == |s|
  {
    if s == "" then [] else [JStr([s[0]])] + Characters(s[1..])
  }

  lemma {:induction false} CharactersAt(s: string)
    ensures forall i :: 0 <= i < |s| ==> Characters(s)[i] == JStr([s[i]])
  {
    if s != "" {
      CharactersAt(s[1..]);
    }
  }

  /** The entries that the object spread `{ ...v }` copies out of `v`: an
      object's own entries, a string's characters and an array's elements
      under their index keys, and none for null, undefined, booleans and
      numbers. */
  function Fields(v: Json): (r: map<string, Json>)
    ensures v.JObj? ==> r == v.entries
    ensures (v.JNull? || v.JBool? || v.JNum? || v == JStr("") || v == JArr([])) ==> r == map[]
  {
    match v
    case JObj(m) => m
    case JArr(items) => SpreadIndexed(items)
    case JStr(s) => SpreadIndexed(Characters(s))
    case _ => map[]
  }

  /** The spread of an array holds each element under its index key, and
      the spread of a string each character; it holds nothing else. */
  lemma SpreadEntries(v: Json)
    requires v.JArr? || v.JStr?
    ensures v.JArr? ==> forall i :: 0 <= i < |v.items| ==> IndexKey(i) in Fields(v) && Fields(v)[IndexKey(i)] == v.items[i]
    ensures v.JStr? ==> forall i :: 0 <= i < |v.s| ==> IndexKey(i) in Fields(v) && Fields(v)[IndexKey(i)] == JStr([v.s[i]])
    ensures forall k :: k in Fields(v) ==> ArrayIndex(k).Some?
  {
    if v.JArr? {
      SpreadIndexedEntries(v.items);
    } else {
      SpreadIndexedEntries(Characters(v.s));
      CharactersAt(v.s);
    }
  }

  /** `m[key]` on a container. An absent key reads as undefined; both
      undefined and null are falsy and both spread to `{}`, so the
      containers stand for an absent child with `JNull`. */
  function Child(m: map<string, Json>, key: string): (c: Json)
    ensures key in m ==> c == m[key]
    ensures key !in m ==> !Truthy(c) && Fields(c) == map[]
  {
    if key in m then m[key] else JNull
  }

  /** `schema?.name`: the own member `name` of an object fragment; no
      member on anything that is not an object. */
  function Member(v: Json, name: string): (r: Option<Json>)
    ensures r.Some? <==> v.JObj? && name in v.entries
    ensures r.Some? ==> r.value == v.entries[name]
  {
    if v.JObj? && name in v.entries then Some(v.entries[name]) else None
  }

  /** JavaScript truthiness: every value is truthy except null, `false`,
      `0` and the empty string. */
  predicate Truthy(v: Json): (b: bool)
    ensures b <==> v !in {JNull, JBool(false), JNum(0), JStr("")}
    ensures !b ==> Fields(v) == map[]
  {
    match v
    case JNull => false
    case JBool(b) => b
    case JNum(n) => n != 0
    case JStr(s) => s != ""
    case JArr(_) => true
    case JObj(_) => true
  }

  /** Removing a key just set removes it from the map as it was. */
  lemma RemoveAfterSet<K, V>(m: map<K, V>, k: K, v: V)
    ensures m[k := v] - {k} == m - {k}
  {
  }

  /** Removing a key twice removes it once. */
  lemma RemoveTwice<K, V>(m: map<K, V>, k: K)
    ensures (m - {k}) - {k} == m - {k}
  {
  }
}
