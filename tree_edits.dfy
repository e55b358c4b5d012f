/** What `updateNestedObjectByPath` (src/utils.ts:62-77) and
    `deleteNestedPropertyByPath` (src/utils.ts:79-107) compute, stated on
    values: the reference definitions the heap methods of `ObjectHeap` are
    proved against, and the properties of the two edits. */
module TreeEdits {
  import opened JsonValues
  import opened Paths
  import opened Access

  /** The container the mutators reach after descending along `keys`:
      every step takes the child entry of the spread container, so an
      absent child or a non-object stands for an empty container. */
  function Descend(v: Json, keys: seq<string>): Json
    decreases |keys|
  {
    if keys == [] then v else Descend(Child(Fields(v), keys[0]), keys[1..])
  }

  /** Values whose spread `{ ...v }` has no entries or is an object's own
      entries: everything except non-empty strings and arrays. */
  predicate Spreadable(v: Json)
  {
    !(v.JStr? && v.s != "") && !(v.JArr? && v.items != [])
  }

  /** Every intermediate container the mutators spread along `keys` (all
      but the last segment) is spreadable. */
  predicate SpreadableAlong(v: Json, keys: seq<string>)
    decreases |keys|
  {
    |keys| <= 1 || (var c := Child(Fields(v), keys[0]); Spreadable(c) && SpreadableAlong(c, keys[1..]))
  }

  /** The containers along `keys` all exist and are objects. */
  predicate ObjectsAlong(v: Json, keys: seq<string>)
    decreases |keys|
  {
    v.JObj? && (keys == [] || (keys[0] in v.entries && ObjectsAlong(v.entries[keys[0]], keys[1..])))
  }

  /** Every intermediate container reached along a spreadable path is
      spreadable. */
  lemma {:induction false} SpreadableAt(v: Json, keys: seq<string>, i: nat)
    requires SpreadableAlong(v, keys) && 0 < i < |keys|
    ensures Spreadable(Descend(v, keys[..i]))
    decreases i
  {
    var c := Child(Fields(v), keys[0]);
    DescendCons(v, keys, i);
    if i == 1 {
      assert keys[1..][..0] == [];
    } else {
      SpreadableAt(c, keys[1..], i - 1);
    }
  }

  /** Every segment along `keys` is an entry of the spread of the
      container reached before it. */
  predicate EntriesAlong(v: Json, keys: seq<string>)
    decreases |keys|
  {
    keys == [] || (keys[0] in Fields(v) && EntriesAlong(Fields(v)[keys[0]], keys[1..]))
  }

  /** The value `updateNestedObjectByPath` returns: a copy of the root
      whose entry at the first segment is `value` (last segment) or the
      update of the child's copy (missing or falsy child: `{}`). */
  function SetPath(root: Json, keys: seq<string>, value: Json): (r: Json)
    requires |keys| >= 1
    ensures r.JObj? && keys[0] in r.entries
    ensures r.entries - {keys[0]} == Fields(root) - {keys[0]}
    ensures |keys| == 1 ==> r.entries[keys[0]] == value
    decreases |keys|
  {
    var m := Fields(root);
    if |keys| == 1 then JObj(m[keys[0] := value])
    else JObj(m[keys[0] := SetPath(Child(m, keys[0]), keys[1..], value)])
  }

  /** The value `deleteNestedPropertyByPath` returns: a copy of the root
      without the first segment (last segment), or with the delete of the
      child's copy below it, where a child left without entries is removed. */
  function DeletePath(root: Json, keys: seq<string>): (r: Json)
    requires |keys| >= 1
    ensures r.JObj?
    decreases |keys|
  {
    var m := Fields(root);
    if |keys| == 1 then JObj(m - {keys[0]})
    else
      var below := DeletePath(Child(m, keys[0]), keys[1..]);
      if |Fields(below)| == 0 then JObj(m - {keys[0]}) else JObj(m[keys[0] := below])
  }

  // ---------------------------------------------------------------------
  // Descending

  lemma DescendCons(v: Json, keys: seq<string>, i: nat)
    requires 0 < i <= |keys|
    ensures Descend(v, keys[..i]) == Descend(Child(Fields(v), keys[0]), keys[1..][..i - 1])
  {
    assert keys[..i][0] == keys[0];
    assert keys[..i][1..] == keys[1..][..i - 1];
  }

  /** Descending one segment further takes that child of the container
      reached so far. */
  lemma {:induction false} DescendSnoc(v: Json, keys: seq<string>, i: nat)
    requires i < |keys|
    ensures Descend(v, keys[..i + 1]) == Child(Fields(Descend(v, keys[..i])), keys[i])
    decreases i
  {
    if i == 0 {
      assert keys[..1] == [keys[0]];
      assert keys[..0] == [];
      assert [keys[0]][1..] == [];
    } else {
      DescendCons(v, keys, i + 1);
      DescendCons(v, keys, i);
      DescendSnoc(Child(Fields(v), keys[0]), keys[1..], i - 1);
    }
  }

  /** Below a container without entries every container is empty. */
  lemma {:induction false} DescendEmpty(v: Json, keys: seq<string>)
    requires Fields(v) == map[]
    ensures Fields(Descend(v, keys)) == map[]
    ensures keys != [] ==> Descend(v, keys) == JNull
    decreases |keys|
  {
    if keys != [] {
      DescendEmpty(JNull, keys[1..]);
    }
  }

  /** A container with entries is reached only through entries that
      exist: every segment is a key of the spread of the container above. */
  lemma {:induction false} DescendNonEmpty(v: Json, keys: seq<string>)
    requires Fields(Descend(v, keys)) != map[]
    ensures EntriesAlong(v, keys)
    decreases |keys|
  {
    if keys != [] {
      var c := Child(Fields(v), keys[0]);
      if keys[0] !in Fields(v) {
        DescendEmpty(JNull, keys[1..]);
      } else {
        DescendNonEmpty(c, keys[1..]);
      }
    }
  }

  /** Along existing objects a lookup is a descent; the rest of the path
      is read from the container reached. */
  lemma {:induction false} ReadAlongObjects(v: Json, keys: seq<string>, rest: seq<string>)
    requires ObjectsAlong(v, keys)
    ensures ReadKeys(Value(v), keys + rest) == ReadKeys(Value(Descend(v, keys)), rest)
    decreases |keys|
  {
    if keys == [] {
      assert keys + rest == rest;
    } else {
      assert (keys + rest)[0] == keys[0];
      assert (keys + rest)[1..] == keys[1..] + rest;
      ReadAlongObjects(v.entries[keys[0]], keys[1..], rest);
    }
  }

  /** Along existing entries, of objects, strings or arrays, a lookup is a
      descent as well. */
  lemma {:induction false} ReadAlongEntries(v: Json, keys: seq<string>, rest: seq<string>)
    requires EntriesAlong(v, keys)
    ensures ReadKeys(Value(v), keys + rest) == ReadKeys(Value(Descend(v, keys)), rest)
    decreases |keys|
  {
    if keys == [] {
      assert keys + rest == rest;
    } else {
      assert (keys + rest)[0] == keys[0];
      assert (keys + rest)[1..] == keys[1..] + rest;
      var c := Fields(v)[keys[0]];
      StepReadsSpread(v, keys[0]);
      assert Descend(v, keys) == Descend(c, keys[1..]);
      assert ReadKeys(Value(v), keys + rest) == ReadKeys(Value(c), keys[1..] + rest);
      ReadAlongEntries(c, keys[1..], rest);
    }
  }

  // ---------------------------------------------------------------------
  // Update

  /** One level of the update of a suffix of the path. */
  lemma SetPathStep(v: Json, keys: seq<string>, a: nat, value: Json)
    requires a < |keys| - 1
    ensures SetPath(v, keys[a..], value)
         == JObj(Fields(v)[keys[a] := SetPath(Child(Fields(v), keys[a]), keys[a + 1..], value)])
  {
    assert keys[a..][0] == keys[a] && keys[a..][1..] == keys[a + 1..];
  }

  /** Read-after-write: looking the path up in the updated tree gives the
      value written, whatever the tree held along the path. */
  lemma {:induction false} ReadAfterWrite(root: Json, keys: seq<string>, value: Json)
    requires |keys| >= 1
    ensures ReadKeys(Value(SetPath(root, keys, value)), keys) == Value(value)
    decreases |keys|
  {
    var m := Fields(root);
    if |keys| == 1 {
      assert keys[1..] == [];
    } else {
      assert Step(Value(SetPath(root, keys, value)), keys[0])
        == Value(SetPath(Child(m, keys[0]), keys[1..], value));
      ReadAfterWrite(Child(m, keys[0]), keys[1..], value);
    }
  }

  /** `accessToObjectFieldByPath(updateNestedObjectByPath(o, p, v), p)` is
      `v` for every path, the empty path included. */
  lemma UpdateThenAccess(root: Json, path: string, value: Json)
    ensures AccessToObjectFieldByPath(SetPath(root, Split(path), value), path) == Value(value)
  {
    ReadAfterWrite(root, Split(path), value);
  }

  /** At every level down the path the updated container is an object
      holding the path's segment, and every other key keeps its entry
      (none where the original container was missing or not an object);
      the last level holds the value written. */
  lemma {:induction false} SetPathFrame(root: Json, keys: seq<string>, value: Json, i: nat)
    requires i < |keys|
    ensures Descend(SetPath(root, keys, value), keys[..i]).JObj?
    ensures keys[i] in Fields(Descend(SetPath(root, keys, value), keys[..i]))
    ensures Fields(Descend(SetPath(root, keys, value), keys[..i])) - {keys[i]}
         == Fields(Descend(root, keys[..i])) - {keys[i]}
    ensures i == |keys| - 1 ==> Fields(Descend(SetPath(root, keys, value), keys[..i]))[keys[i]] == value
    decreases i
  {
    var m := Fields(root);
    if i == 0 {
      assert keys[..0] == [];
      if |keys| > 1 {
        var below := SetPath(Child(m, keys[0]), keys[1..], value);
        assert m[keys[0] := below] - {keys[0]} == m - {keys[0]};
      } else {
        assert m[keys[0] := value] - {keys[0]} == m - {keys[0]};
      }
    } else {
      var res := SetPath(root, keys, value);
      var below := SetPath(Child(m, keys[0]), keys[1..], value);
      assert Child(Fields(res), keys[0]) == below;
      DescendCons(res, keys, i);
      DescendCons(root, keys, i);
      SetPathFrame(Child(m, keys[0]), keys[1..], value, i - 1);
    }
  }

  /** Every container on the path becomes an object that holds the path's
      segment beside the entries spread out of what was there: a string or
      an array leaves its indexed entries, and a missing, null, boolean or
      numeric intermediate (or an empty string or array) leaves nothing but
      the segment. */
  lemma SetCreatesContainers(root: Json, keys: seq<string>, value: Json, i: nat)
    requires i < |keys|
    ensures Descend(SetPath(root, keys, value), keys[..i]).JObj?
    ensures Fields(Descend(SetPath(root, keys, value), keys[..i])).Keys
         == Fields(Descend(root, keys[..i])).Keys + {keys[i]}
    ensures var was := Descend(root, keys[..i]);
            (was.JNull? || was.JBool? || was.JNum? || was == JStr("") || was == JArr([])) ==>
            Fields(Descend(SetPath(root, keys, value), keys[..i])).Keys == {keys[i]}
  {
    SetPathFrame(root, keys, value, i);
    var level := Fields(Descend(SetPath(root, keys, value), keys[..i]));
    var was := Fields(Descend(root, keys[..i]));
    assert (level - {keys[i]}).Keys == (was - {keys[i]}).Keys;
    assert level.Keys == (level - {keys[i]}).Keys + {keys[i]};
    assert was.Keys + {keys[i]} == (was - {keys[i]}).Keys + {keys[i]};
  }

  /** The update builds objects all along the path. */
  lemma {:induction false} SetPathObjectsAlong(root: Json, keys: seq<string>, value: Json, i: nat)
    requires i < |keys|
    ensures ObjectsAlong(SetPath(root, keys, value), keys[..i])
    decreases i
  {
    if i == 0 {
      assert keys[..0] == [];
    } else {
      var m := Fields(root);
      assert keys[..i][0] == keys[0];
      assert keys[..i][1..] == keys[1..][..i - 1];
      SetPathObjectsAlong(Child(m, keys[0]), keys[1..], value, i - 1);
    }
  }

  /** The container reached along existing objects is an object. */
  lemma {:induction false} ObjectsAlongReachesObject(v: Json, keys: seq<string>)
    requires ObjectsAlong(v, keys)
    ensures Descend(v, keys).JObj?
    decreases |keys|
  {
    if keys != [] {
      ObjectsAlongReachesObject(v.entries[keys[0]], keys[1..]);
    }
  }

  /** Reads that leave the written path at an existing object container
      see the tree as it was: the off-path keys are untouched. */
  lemma SetPathKeepsOffPathReads(root: Json, keys: seq<string>, value: Json, q: seq<string>, i: nat)
    requires i < |keys| && i < |q|
    requires q[..i] == keys[..i] && q[i] != keys[i]
    requires ObjectsAlong(root, keys[..i])
    ensures ReadKeys(Value(SetPath(root, keys, value)), q) == ReadKeys(Value(root), q)
  {
    var res := SetPath(root, keys, value);
    SetPathObjectsAlong(root, keys, value, i);
    SetPathFrame(root, keys, value, i);
    assert q == keys[..i] + q[i..];
    ReadAlongObjects(res, keys[..i], q[i..]);
    ReadAlongObjects(root, keys[..i], q[i..]);
    ObjectsAlongReachesObject(root, keys[..i]);
    var before := Descend(root, keys[..i]);
    var after := Descend(res, keys[..i]);
    assert Fields(after) - {keys[i]} == Fields(before) - {keys[i]};
    assert q[i..][0] == q[i];
    assert Step(Value(after), q[i]) == Step(Value(before), q[i]) by {
      assert (q[i] in after.entries) == (q[i] in Fields(after) - {keys[i]});
      assert (q[i] in before.entries) == (q[i] in Fields(before) - {keys[i]});
      if q[i] in after.entries {
        assert after.entries[q[i]] == (Fields(after) - {keys[i]})[q[i]];
        assert before.entries[q[i]] == (Fields(before) - {keys[i]})[q[i]];
      }
    }
  }

  // ---------------------------------------------------------------------
  // Delete

  /** One level of the delete of a suffix of the path. */
  lemma DeletePathStep(v: Json, keys: seq<string>, a: nat)
    requires a < |keys| - 1
    ensures DeletePath(v, keys[a..])
         == (var below := DeletePath(Child(Fields(v), keys[a]), keys[a + 1..]);
             if |Fields(below)| == 0 then JObj(Fields(v) - {keys[a]}) else JObj(Fields(v)[keys[a] := below]))
  {
    assert keys[a..][0] == keys[a] && keys[a..][1..] == keys[a + 1..];
  }

  /** Deleting below an empty container leaves an empty object. */
  lemma {:induction false} DeleteInEmpty(v: Json, keys: seq<string>)
    requires |keys| >= 1 && Fields(v) == map[]
    ensures DeletePath(v, keys) == JObj(map[])
    decreases |keys|
  {
    if |keys| > 1 {
      DeleteInEmpty(JNull, keys[1..]);
    }
  }

  /** After the delete the path no longer leads to a value: its container
      lacks the key, or the lookup throws because a container on the way
      was pruned. */
  lemma {:induction false} DeleteRemovesTarget(root: Json, keys: seq<string>)
    requires |keys| >= 1
    ensures !ReadKeys(Value(DeletePath(root, keys)), keys).Value?
    decreases |keys|
  {
    var m := Fields(root);
    var res := DeletePath(root, keys);
    if |keys| == 1 {
      assert keys[1..] == [];
      assert Step(Value(res), keys[0]) == Undefined;
    } else {
      var below := DeletePath(Child(m, keys[0]), keys[1..]);
      if |Fields(below)| == 0 {
        assert Step(Value(res), keys[0]) == Undefined;
        assert keys[1..] != [];
      } else {
        assert Step(Value(res), keys[0]) == Value(below);
        DeleteRemovesTarget(Child(m, keys[0]), keys[1..]);
      }
    }
  }

  /** At every level down the path, keys other than the path's segment
      keep their entries; a pruned container had no other key. */
  lemma {:induction false} DeleteFrame(root: Json, keys: seq<string>, i: nat)
    requires i < |keys|
    ensures Fields(Descend(DeletePath(root, keys), keys[..i])) - {keys[i]}
         == Fields(Descend(root, keys[..i])) - {keys[i]}
    decreases i
  {
    var m := Fields(root);
    var res := DeletePath(root, keys);
    if i == 0 {
      assert keys[..0] == [];
      RemoveTwice(m, keys[0]);
      if |keys| > 1 {
        RemoveAfterSet(m, keys[0], DeletePath(Child(m, keys[0]), keys[1..]));
      }
    } else {
      var c := Child(m, keys[0]);
      var below := DeletePath(c, keys[1..]);
      DescendCons(res, keys, i);
      DescendCons(root, keys, i);
      DeleteFrame(c, keys[1..], i - 1);
      if |Fields(below)| == 0 {
        assert Child(Fields(res), keys[0]) == JNull;
        DescendEmpty(JNull, keys[1..][..i - 1]);
        DescendEmpty(below, keys[1..][..i - 1]);
      } else {
        assert Child(Fields(res), keys[0]) == below;
      }
    }
  }

  /** Pruning: no container on the path below the root is left empty;
      each is either removed from its parent or still holds an entry. */
  lemma {:induction false} DeleteLeavesNoEmptyContainer(root: Json, keys: seq<string>, i: nat)
    requires 0 < i < |keys|
    ensures Descend(DeletePath(root, keys), keys[..i]) == JNull
         || (Descend(DeletePath(root, keys), keys[..i]).JObj?
             && Descend(DeletePath(root, keys), keys[..i]).entries != map[])
    decreases i
  {
    var m := Fields(root);
    var res := DeletePath(root, keys);
    var c := Child(m, keys[0]);
    var below := DeletePath(c, keys[1..]);
    DescendCons(res, keys, i);
    if |Fields(below)| == 0 {
      assert Child(Fields(res), keys[0]) == JNull;
      if i > 1 {
        DescendEmpty(JNull, keys[1..][..i - 1]);
      }
    } else {
      assert Child(Fields(res), keys[0]) == below;
      if i > 1 {
        DeleteLeavesNoEmptyContainer(c, keys[1..], i - 1);
      } else {
        assert keys[1..][..0] == [];
      }
    }
  }

  /** Reads that leave the deleted path at a key that exists beside it
      see the tree as it was: that container and its ancestors are kept. */
  lemma DeleteKeepsOffPathReads(root: Json, keys: seq<string>, q: seq<string>, i: nat)
    requires i < |keys| && i < |q|
    requires q[..i] == keys[..i] && q[i] != keys[i]
    requires q[i] in Fields(Descend(root, keys[..i]))
    ensures ReadKeys(Value(DeletePath(root, keys)), q) == ReadKeys(Value(root), q)
  {
    var res := DeletePath(root, keys);
    var before := Descend(root, keys[..i]);
    var after := Descend(res, keys[..i]);
    DeleteFrame(root, keys, i);
    assert q[i] in Fields(before) - {keys[i]};
    assert q[i] in Fields(after);
    DescendNonEmpty(root, keys[..i]);
    DescendNonEmpty(res, keys[..i]);
    assert q == keys[..i] + q[i..];
    ReadAlongEntries(res, keys[..i], q[i..]);
    ReadAlongEntries(root, keys[..i], q[i..]);
    assert q[i..][0] == q[i];
    assert Fields(after)[q[i]] == (Fields(after) - {keys[i]})[q[i]];
    assert Fields(before)[q[i]] == (Fields(before) - {keys[i]})[q[i]];
    StepReadsSpread(after, q[i]);
    StepReadsSpread(before, q[i]);
    assert Step(Value(after), q[i]) == Step(Value(before), q[i]);
  }

  /** The target is absent: some container on the path is missing, or the
      last one lacks the key, and every container above the missing point
      is an object with entries. */
  predicate TargetAbsent(v: Json, keys: seq<string>)
    decreases |keys|
  {
    if |keys| <= 1 then keys == [] || keys[0] !in Fields(v)
    else
      keys[0] !in Fields(v)
      || (var c := Fields(v)[keys[0]]; c.JObj? && c.entries != map[] && TargetAbsent(c, keys[1..]))
  }

  /** Deleting an absent target returns a tree equal to the input: the
      `{}` containers spread in for missing ones are pruned again. */
  lemma {:induction false} DeleteAbsentIsIdentity(root: Json, keys: seq<string>)
    requires |keys| >= 1 && root.JObj? && TargetAbsent(root, keys)
    ensures DeletePath(root, keys) == root
    decreases |keys|
  {
    var m := root.entries;
    if |keys| == 1 {
      assert m - {keys[0]} == m;
    } else if keys[0] !in m {
      DeleteInEmpty(JNull, keys[1..]);
      assert m - {keys[0]} == m;
    } else {
      var c := m[keys[0]];
      DeleteAbsentIsIdentity(c, keys[1..]);
      assert |Fields(DeletePath(c, keys[1..]))| != 0 by {
        assert Fields(DeletePath(c, keys[1..])) == c.entries;
        var k :| k in c.entries;
      }
      assert m[keys[0] := c] == m;
    }
  }

  // ---------------------------------------------------------------------
  // Worked examples

  /** The empty path writes and deletes the root's key `""`; it does not
      replace the root. */
  lemma EmptyPathEditsEmptyKey(root: Json, value: Json)
    ensures SetPath(root, Split(""), value) == JObj(Fields(root)["" := value])
    ensures DeletePath(root, Split("")) == JObj(Fields(root) - {""})
  {
  }

  /** Adding a property under `properties` of an object schema, along
      the segments of `properties.age`. */
  lemma AddPropertyExample()
    ensures SetPath(JObj(map["type" := JStr("object"), "properties" := JObj(map[])]),
                    ["properties", "age"], JObj(map["type" := JStr("integer")]))
         == JObj(map["type" := JStr("object"),
                     "properties" := JObj(map["age" := JObj(map["type" := JStr("integer")])])])
  {
    assert ["properties", "age"][1..] == ["age"];
  }

  /** Deleting the only property of `a.properties` (the segments of
      `a.properties.b`) removes `properties` from `a`, which keeps its
      other key. */
  lemma PruneOnlyPropertyExample()
    ensures DeletePath(JObj(map["a" := JObj(map["type" := JStr("object"),
                                                "properties" := JObj(map["b" := JStr("x")])])]),
                       ["a", "properties", "b"])
         == JObj(map["a" := JObj(map["type" := JStr("object")])])
  {
    var props := JObj(map["b" := JStr("x")]);
    var a := JObj(map["type" := JStr("object"), "properties" := props]);
    assert ["a", "properties", "b"][1..] == ["properties", "b"];
    assert ["properties", "b"][1..] == ["b"];
    assert DeletePath(props, ["b"]) == JObj(map[]);
    assert a.entries - {"properties"} == map["type" := JStr("object")];
    assert DeletePath(a, ["properties", "b"]) == JObj(map["type" := JStr("object")]);
    assert |map["type" := JStr("object")]| == 1;
  }

  /** A property with a sibling (path `properties.b`) is deleted and the
      sibling kept. */
  lemma DeleteWithSiblingExample()
    ensures DeletePath(JObj(map["properties" := JObj(map["b" := JNum(1), "c" := JNum(2)])]),
                       ["properties", "b"])
         == JObj(map["properties" := JObj(map["c" := JNum(2)])])
  {
    var rest := map["b" := JNum(1), "c" := JNum(2)] - {"b"};
    assert rest == map["c" := JNum(2)];
    assert |rest| == 1;
    assert ["properties", "b"][1..] == ["b"];
  }

  /** Deleting a missing key under an existing empty container (path
      `a.b`) removes that container as well. */
  lemma DeleteUnderEmptyContainerExample()
    ensures DeletePath(JObj(map["a" := JObj(map[])]), ["a", "b"]) == JObj(map[])
  {
    assert ["a", "b"][1..] == ["b"];
    assert DeletePath(JObj(map[]), ["b"]) == JObj(map[]);
    assert map["a" := JObj(map[])] - {"a"} == map[];
  }

  /** The spread of the string "xy" is `{0: "x", 1: "y"}`. */
  lemma SpreadOfXY()
    ensures Fields(JStr("xy")) == map["0" := JStr("x"), "1" := JStr("y")]
  {
    assert IndexKey(0) == "0" && IndexKey(1) == "1";
    assert Characters("xy") == [JStr("x"), JStr("y")];
    assert [JStr("x"), JStr("y")][..1] == [JStr("x")] && [JStr("x")][..0] == [];
    assert SpreadIndexed([JStr("x")]) == map["0" := JStr("x")];
  }

  /** A string intermediate is spread into its characters: writing or
      deleting `a.b` below `{a: "xy"}` keeps the entries `0: "x"` and
      `1: "y"` in the copy of `a`. */
  lemma SpreadStringExample()
    ensures SetPath(JObj(map["a" := JStr("xy")]), ["a", "b"], JNum(1))
         == JObj(map["a" := JObj(map["0" := JStr("x"), "1" := JStr("y"), "b" := JNum(1)])])
    ensures DeletePath(JObj(map["a" := JStr("xy")]), ["a", "b"])
         == JObj(map["a" := JObj(map["0" := JStr("x"), "1" := JStr("y")])])
  {
    var chars := map["0" := JStr("x"), "1" := JStr("y")];
    SpreadOfXY();
    assert ["a", "b"][1..] == ["b"];
    assert Child(map["a" := JStr("xy")], "a") == JStr("xy");
    assert SetPath(JStr("xy"), ["b"], JNum(1)) == JObj(chars["b" := JNum(1)]);
    assert chars - {"b"} == chars;
    assert DeletePath(JStr("xy"), ["b"]) == JObj(chars);
  }
}
