/** `updateNestedObjectByPath` (src/utils.ts:62-77) and
    `deleteNestedPropertyByPath` (src/utils.ts:79-107) as the code runs
    them: on objects held by reference, copying one object per level with
    the spread `{ ...o }` and walking a `current` pointer down the copies
    (and, for the delete, back up again through a stack). */
module ObjectHeap {
  import opened JsonValues
  import opened Paths
  import opened TreeEdits

  /** A JavaScript object: its own enumerable entries. */
  class Obj {
    var fields: map<string, Val>

    constructor (fields: map<string, Val>)
      ensures this.fields == fields
    {
      this.fields := fields;
    }
  }

  /** What an entry holds: a primitive (or array) value, or a reference to
      an object, which may be shared. */
  datatype Val = Prim(v: Json) | Ref(obj: Obj)

  /** An entry that is well formed under `rank`: objects are held by
      reference, and a referenced object ranks below `bound`. */
  predicate FieldOk(v: Val, rank: map<Obj, nat>, bound: nat)
  {
    match v
    case Prim(j) => !j.JObj?
    case Ref(o) => o in rank && rank[o] < bound
  }

  predicate FieldsOk(m: map<string, Val>, rank: map<Obj, nat>, bound: nat)
  {
    forall k :: k in m ==> FieldOk(m[k], rank, bound)
  }

  /** `rank` orders the objects so that every object refers only to
      objects of lower rank: the object graph has no cycles. */
  predicate Acyclic(rank: map<Obj, nat>)
    reads rank.Keys
  {
    forall o :: o in rank ==> FieldsOk(o.fields, rank, rank[o])
  }

  /** `big` ranks every object `small` ranks, the same way. */
  predicate Extends(big: map<Obj, nat>, small: map<Obj, nat>)
  {
    forall x :: x in small ==> x in big && big[x] == small[x]
  }

  /** The JSON value an entry stands for. */
  function ValModel(v: Val, rank: map<Obj, nat>): Json
    requires Acyclic(rank) && (v.Ref? ==> v.obj in rank)
    reads rank.Keys
    decreases if v.Ref? then rank[v.obj] + 1 else 0, 1
  {
    match v
    case Prim(j) => j
    case Ref(o) => Model(o, rank)
  }

  /** The JSON value an object stands for: the tree its references span. */
  function Model(o: Obj, rank: map<Obj, nat>): Json
    requires Acyclic(rank) && o in rank
    reads rank.Keys
    decreases rank[o] + 1, 0
  {
    JObj(map k | k in o.fields :: ValModel(o.fields[k], rank))
  }

  /** The JSON entries a map of entries stands for. */
  function FieldsModel(m: map<string, Val>, rank: map<Obj, nat>): (r: map<string, Json>)
    requires Acyclic(rank) && forall k :: k in m ==> (m[k].Ref? ==> m[k].obj in rank)
    reads rank.Keys
    ensures r.Keys == m.Keys
  {
    map k | k in m :: ValModel(m[k], rank)
  }

  /** `current[key]`: an absent entry reads as undefined, which, like
      null, is falsy and spreads to no entries. */
  function Get(m: map<string, Val>, key: string): (v: Val)
    ensures key in m ==> v == m[key]
    ensures key !in m ==> !TruthyVal(v) && SpreadVal(v) == map[]
  {
    if key in m then m[key] else Prim(JNull)
  }

  /** Truthiness of an entry; every object is truthy. */
  predicate TruthyVal(v: Val): (b: bool)
    ensures v.Ref? ==> b
    ensures !b ==> v.Prim? && Fields(v.v) == map[]
  {
    v.Ref? || Truthy(v.v)
  }

  /** `{ ...v }`: an object's own entries, shared and not copied, and no
      entries for a primitive (non-empty strings and arrays, which would
      spread into index-keyed entries, are excluded by the callers). */
  function SpreadVal(v: Val): (m: map<string, Val>)
    reads if v.Ref? then {v.obj} else {}
    ensures v.Ref? ==> m == v.obj.fields
    ensures v.Prim? ==> m == map[]
    ensures v.Prim? && !v.v.JObj? && Spreadable(v.v) ==> m.Keys == Fields(v.v).Keys
  {
    if v.Ref? then v.obj.fields else map[]
  }

  /** The entries the copy at depth `i` starts with: the root's entries
      at depth 0, and below that the spread of the entry at the previous
      segment. They are read from the input objects, which no step
      changes, and refer only to objects below the root. */
  function Level(root: Obj, keys: seq<string>, i: nat, rank: map<Obj, nat>): (m: map<string, Val>)
    requires Acyclic(rank) && root in rank && i <= |keys|
    reads rank.Keys
    ensures FieldsOk(m, rank, rank[root])
    decreases i
  {
    if i == 0 then root.fields
    else SpreadVal(Get(Level(root, keys, i - 1, rank), keys[i - 1]))
  }

  /** The first `n` levels, as values. */
  ghost function Levels(root: Obj, keys: seq<string>, n: nat, rank: map<Obj, nat>): (r: seq<map<string, Val>>)
    requires Acyclic(rank) && root in rank && n <= |keys|
    reads rank.Keys
    ensures |r| == n
    ensures forall a :: 0 <= a < n ==> r[a] == Level(root, keys, a, rank)
    ensures forall a :: 0 <= a < n ==> FieldsOk(r[a], rank, rank[root])
  {
    if n == 0 then [] else Levels(root, keys, n - 1, rank) + [Level(root, keys, n - 1, rank)]
  }

  /** The levels of a path as the copying loops use them: the root's
      entries first, each further level the spread of the entry under the
      previous segment, all referring only to objects below the root. */
  lemma LevelsChain(root: Obj, keys: seq<string>, rank: map<Obj, nat>) returns (levels: seq<map<string, Val>>)
    requires Acyclic(rank) && root in rank && |keys| >= 1
    ensures levels == Levels(root, keys, |keys|, rank)
    ensures |levels| == |keys| && levels[0] == root.fields
    ensures forall a :: 0 <= a < |keys| - 1 ==> levels[a + 1] == SpreadVal(Get(levels[a], keys[a]))
    ensures forall a :: 0 <= a < |keys| ==> FieldsOk(levels[a], rank, rank[root])
  {
    levels := Levels(root, keys, |keys|, rank);
    forall a | 0 <= a < |keys| - 1 ensures levels[a + 1] == SpreadVal(Get(levels[a], keys[a])) {
      assert levels[a + 1] == Level(root, keys, a + 1, rank);
    }
  }

  lemma FieldOkLift(v: Val, rank: map<Obj, nat>, rank': map<Obj, nat>, b: nat, b': nat)
    requires FieldOk(v, rank, b) && Extends(rank', rank) && b <= b'
    ensures FieldOk(v, rank', b')
  {
  }

  /** Extending the ranking to new objects leaves the old objects' models
      as they were. */
  lemma {:induction false} ModelIndependent(o: Obj, rank: map<Obj, nat>, rank': map<Obj, nat>)
    requires Acyclic(rank) && Acyclic(rank') && Extends(rank', rank) && o in rank
    ensures Model(o, rank') == Model(o, rank)
    decreases rank[o]
  {
    forall k | k in o.fields
      ensures ValModel(o.fields[k], rank') == ValModel(o.fields[k], rank)
    {
      var v := o.fields[k];
      if v.Ref? {
        ModelIndependent(v.obj, rank, rank');
      }
    }
  }

  lemma FieldsModelIndependent(m: map<string, Val>, rank: map<Obj, nat>, rank': map<Obj, nat>, bound: nat)
    requires Acyclic(rank) && Acyclic(rank') && Extends(rank', rank) && FieldsOk(m, rank, bound)
    ensures FieldsModel(m, rank') == FieldsModel(m, rank)
  {
    forall k | k in m
      ensures ValModel(m[k], rank') == ValModel(m[k], rank)
    {
      if m[k].Ref? {
        ModelIndependent(m[k].obj, rank, rank');
      }
    }
  }

  lemma ValModelIndependent(v: Val, rank: map<Obj, nat>, rank': map<Obj, nat>)
    requires Acyclic(rank) && Acyclic(rank') && Extends(rank', rank) && (v.Ref? ==> v.obj in rank)
    ensures ValModel(v, rank') == ValModel(v, rank)
  {
    if v.Ref? {
      ModelIndependent(v.obj, rank, rank');
    }
  }

  /** An object's model is the model of its entries. */
  lemma ModelFields(o: Obj, rank: map<Obj, nat>)
    requires Acyclic(rank) && o in rank
    ensures Model(o, rank) == JObj(FieldsModel(o.fields, rank))
  {
  }

  /** The copy at depth `i` starts with the entries of the container the
      reference definitions reach at depth `i`. */
  lemma {:induction false} LevelModel(root: Obj, keys: seq<string>, i: nat, rank: map<Obj, nat>)
    requires Acyclic(rank) && root in rank && i < |keys|
    requires SpreadableAlong(Model(root, rank), keys)
    ensures FieldsModel(Level(root, keys, i, rank), rank) == Fields(Descend(Model(root, rank), keys[..i]))
    decreases i
  {
    if i == 0 {
      assert keys[..0] == [];
    } else {
      var parent := Level(root, keys, i - 1, rank);
      LevelModel(root, keys, i - 1, rank);
      DescendSnoc(Model(root, rank), keys, i - 1);
      SpreadableAt(Model(root, rank), keys, i);
      var v := Get(parent, keys[i - 1]);
      if v.Ref? {
        ModelFields(v.obj, rank);
      }
    }
  }

  /** The model of a level, under any extension of the ranking, is the
      reference definitions' container at that depth. */
  lemma LevelEntries(root: Obj, keys: seq<string>, i: nat, rank: map<Obj, nat>, rank': map<Obj, nat>)
    requires Acyclic(rank) && root in rank && i < |keys|
    requires SpreadableAlong(Model(root, rank), keys)
    requires Acyclic(rank') && Extends(rank', rank)
    ensures FieldsOk(Level(root, keys, i, rank), rank', rank[root])
    ensures FieldsModel(Level(root, keys, i, rank), rank') == Fields(Descend(Model(root, rank), keys[..i]))
  {
    LevelModel(root, keys, i, rank);
    LevelFitsUnder(root, keys, i, rank, rank', rank[root]);
    FieldsModelIndependent(Level(root, keys, i, rank), rank, rank', rank[root]);
  }

  lemma FieldsModelUpdate(m: map<string, Val>, k: string, v: Val, rank: map<Obj, nat>)
    requires Acyclic(rank) && forall j :: j in m ==> (m[j].Ref? ==> m[j].obj in rank)
    requires v.Ref? ==> v.obj in rank
    ensures FieldsModel(m[k := v], rank) == FieldsModel(m, rank)[k := ValModel(v, rank)]
  {
  }

  lemma FieldsModelRemove(m: map<string, Val>, k: string, rank: map<Obj, nat>)
    requires Acyclic(rank) && forall j :: j in m ==> (m[j].Ref? ==> m[j].obj in rank)
    ensures FieldsModel(m - {k}, rank) == FieldsModel(m, rank) - {k}
  {
  }

  /** A ranking that adds objects whose entries respect their ranks to an
      acyclic ranking is acyclic. */
  lemma AcyclicExtension(rank: map<Obj, nat>, rank': map<Obj, nat>, clones: seq<Obj>)
    requires Acyclic(rank) && Extends(rank', rank)
    requires forall x :: x in rank' ==> x in rank || x in clones
    requires forall a :: 0 <= a < |clones| ==> clones[a] in rank' && FieldsOk(clones[a].fields, rank', rank'[clones[a]])
    ensures Acyclic(rank')
  {
    forall o | o in rank' ensures FieldsOk(o.fields, rank', rank'[o]) {
      if o in rank {
        forall k | k in o.fields ensures FieldOk(o.fields[k], rank', rank'[o]) {
          FieldOkLift(o.fields[k], rank, rank', rank[o], rank'[o]);
        }
      } else {
        var a :| 0 <= a < |clones| && clones[a] == o;
      }
    }
  }

  /** Entries taken from a level fit under every copy's rank. */
  lemma LevelFitsUnder(root: Obj, keys: seq<string>, i: nat, rank: map<Obj, nat>, rank': map<Obj, nat>, bound: nat)
    requires Acyclic(rank) && root in rank && i <= |keys| && Extends(rank', rank) && rank[root] <= bound
    ensures FieldsOk(Level(root, keys, i, rank), rank', bound)
  {
    var m := Level(root, keys, i, rank);
    forall k | k in m ensures FieldOk(m[k], rank', bound) {
      FieldOkLift(m[k], rank, rank', rank[root], bound);
    }
  }

  // ---------------------------------------------------------------------
  // Update

  /** The copy at depth `a` holds its level's entries with the segment
      pointing at the next copy. */
  predicate Linked(root: Obj, keys: seq<string>, rank: map<Obj, nat>, clones: seq<Obj>, a: nat)
    requires Acyclic(rank) && root in rank && a + 1 < |clones| && |clones| <= |keys|
    reads rank.Keys, clones[a]
  {
    clones[a].fields == Level(root, keys, a, rank)[keys[a] := Ref(clones[a + 1])]
  }

  /** The state the update leaves: every copy but the last is linked to
      the next, and the last holds its level's entries with the segment set
      to `value`. */
  predicate UpdatedChain(root: Obj, keys: seq<string>, value: Val, rank: map<Obj, nat>, clones: seq<Obj>)
    requires Acyclic(rank) && root in rank
    reads rank.Keys, set c | c in clones
  {
    |clones| == |keys| >= 1
    && (forall a :: 0 <= a < |clones| - 1 ==> Linked(root, keys, rank, clones, a))
    && clones[|keys| - 1].fields == Level(root, keys, |keys| - 1, rank)[keys[|keys| - 1] := value]
  }

  /** Each copy of the updated chain stands for the reference update of
      its level. */
  lemma {:induction false} SetChain(root: Obj, keys: seq<string>, value: Val,
                                    rank: map<Obj, nat>, rank': map<Obj, nat>, clones: seq<Obj>, a: nat)
    requires Acyclic(rank) && root in rank && (value.Ref? ==> value.obj in rank)
    requires SpreadableAlong(Model(root, rank), keys)
    requires Acyclic(rank') && Extends(rank', rank)
    requires forall b :: 0 <= b < |clones| ==> clones[b] in rank'
    requires UpdatedChain(root, keys, value, rank, clones)
    requires a < |keys|
    ensures Model(clones[a], rank')
         == SetPath(Descend(Model(root, rank), keys[..a]), keys[a..], ValModel(value, rank))
    decreases |keys| - a
  {
    var level := Level(root, keys, a, rank);
    var here := Descend(Model(root, rank), keys[..a]);
    var v := ValModel(value, rank);
    LevelEntries(root, keys, a, rank, rank');
    ModelFields(clones[a], rank');
    if a == |keys| - 1 {
      assert clones[a].fields == level[keys[a] := value];
      ValModelIndependent(value, rank, rank');
      FieldsModelUpdate(level, keys[a], value, rank');
      assert keys[a..] == [keys[a]];
      assert SetPath(here, [keys[a]], v) == JObj(Fields(here)[keys[a] := v]);
    } else {
      var next := clones[a + 1];
      assert Linked(root, keys, rank, clones, a);
      FieldsModelUpdate(level, keys[a], Ref(next), rank');
      SetChain(root, keys, value, rank, rank', clones, a + 1);
      DescendSnoc(Model(root, rank), keys, a);
      SetPathStep(here, keys, a, v);
    }
  }

  lemma FieldsOkUpdate(m: map<string, Val>, k: string, v: Val, rank: map<Obj, nat>, bound: nat)
    requires FieldsOk(m, rank, bound) && FieldOk(v, rank, bound)
    ensures FieldsOk(m[k := v], rank, bound)
  {
  }

  /** Each copy of the updated chain refers only to objects ranked below it. */
  lemma UpdatedCloneFits(root: Obj, keys: seq<string>, value: Val,
                         rank: map<Obj, nat>, rank': map<Obj, nat>, clones: seq<Obj>, top: nat, a: nat)
    requires Acyclic(rank) && root in rank && (value.Ref? ==> value.obj in rank)
    requires value.Prim? ==> !value.v.JObj?
    requires UpdatedChain(root, keys, value, rank, clones)
    requires top == rank[root] + (if value.Ref? then rank[value.obj] else 0) + |keys| + 1
    requires Extends(rank', rank)
    requires a < |clones|
    requires a + 1 < |clones| ==> clones[a + 1] in rank' && rank'[clones[a + 1]] == top - a - 1
    ensures FieldsOk(clones[a].fields, rank', top - a)
  {
    var level := Level(root, keys, a, rank);
    LevelFitsUnder(root, keys, a, rank, rank', top - a);
    var entry := if a < |clones| - 1 then Ref(clones[a + 1]) else value;
    if a < |clones| - 1 {
      assert Linked(root, keys, rank, clones, a);
    }
    assert clones[a].fields == level[keys[a] := entry];
    assert FieldOk(entry, rank', top - a);
    FieldsOkUpdate(level, keys[a], entry, rank', top - a);
  }

  /** The ranking that places the copies above everything they refer to
      is acyclic, and the first copy stands for the reference update. */
  lemma UpdateResult(root: Obj, keys: seq<string>, value: Val,
                     rank: map<Obj, nat>, rank': map<Obj, nat>, clones: seq<Obj>, top: nat)
    requires Acyclic(rank) && root in rank && (value.Ref? ==> value.obj in rank)
    requires SpreadableAlong(Model(root, rank), keys)
    requires value.Prim? ==> !value.v.JObj?
    requires UpdatedChain(root, keys, value, rank, clones)
    requires top == rank[root] + (if value.Ref? then rank[value.obj] else 0) + |keys| + 1
    requires Extends(rank', rank)
    requires forall x :: x in rank' ==> x in rank || x in clones
    requires forall a :: 0 <= a < |clones| ==> clones[a] in rank' && rank'[clones[a]] == top - a
    ensures Acyclic(rank')
    ensures Model(root, rank') == Model(root, rank)
    ensures Model(clones[0], rank') == SetPath(Model(root, rank), keys, ValModel(value, rank))
  {
    forall a | 0 <= a < |clones| ensures FieldsOk(clones[a].fields, rank', rank'[clones[a]]) {
      UpdatedCloneFits(root, keys, value, rank, rank', clones, top, a);
    }
    AcyclicExtension(rank, rank', clones);
    ModelIndependent(root, rank, rank');
    SetChain(root, keys, value, rank, rank', clones, 0);
    assert keys[..0] == [] && keys[0..] == keys;
  }

  /** Ranks the copies from `top` downwards, above an existing ranking. */
  lemma RankCopies(rank: map<Obj, nat>, clones: seq<Obj>, top: nat) returns (rank': map<Obj, nat>)
    requires forall a, b :: 0 <= a < b < |clones| ==> clones[a] != clones[b]
    requires forall a :: 0 <= a < |clones| ==> clones[a] !in rank
    requires |clones| <= top
    ensures Extends(rank', rank)
    ensures forall x :: x in rank' ==> x in rank || x in clones
    ensures forall a :: 0 <= a < |clones| ==> clones[a] in rank' && rank'[clones[a]] == top - a
  {
    var copies := map a | 0 <= a < |clones| :: clones[a] := top - a;
    rank' := rank + copies;
  }

  /** The state the loop of `UpdateNestedObjectByPath` leaves, stated on
      the levels taken before it, is the updated chain. */
  lemma UpdateFinish(root: Obj, keys: seq<string>, value: Val,
                     rank: map<Obj, nat>, rank': map<Obj, nat>, clones: seq<Obj>, top: nat,
                     levels: seq<map<string, Val>>)
    requires Acyclic(rank) && root in rank && (value.Ref? ==> value.obj in rank)
    requires SpreadableAlong(Model(root, rank), keys)
    requires value.Prim? ==> !value.v.JObj?
    requires |keys| >= 1 && |clones| == |keys| && levels == Levels(root, keys, |keys|, rank)
    requires forall a :: 0 <= a < |clones| - 1 ==> clones[a].fields == levels[a][keys[a] := Ref(clones[a + 1])]
    requires clones[|keys| - 1].fields == levels[|keys| - 1][keys[|keys| - 1] := value]
    requires top == rank[root] + (if value.Ref? then rank[value.obj] else 0) + |keys| + 1
    requires Extends(rank', rank)
    requires forall x :: x in rank' ==> x in rank || x in clones
    requires forall a :: 0 <= a < |clones| ==> clones[a] in rank' && rank'[clones[a]] == top - a
    ensures Acyclic(rank')
    ensures Model(root, rank') == Model(root, rank)
    ensures Model(clones[0], rank') == SetPath(Model(root, rank), keys, ValModel(value, rank))
    ensures clones[0].fields == root.fields[keys[0] := if |keys| == 1 then value else Ref(clones[1])]
  {
    assert UpdatedChain(root, keys, value, rank, clones) by {
      forall a | 0 <= a < |clones| - 1 ensures Linked(root, keys, rank, clones, a) {
        assert clones[a].fields == levels[a][keys[a] := Ref(clones[a + 1])];
      }
    }
    assert levels[0] == root.fields;
    UpdateResult(root, keys, value, rank, rank', clones, top);
  }

  /** What `UpdateNestedObjectByPath` leaves, stated against the state it
      started from: the inputs read as before, and the copies, ranked
      above them, stand for the updated tree and share the entries off
      the first segment. */
  twostate lemma UpdateOutcome(new root: Obj, new keys: seq<string>, new value: Val, new rank: map<Obj, nat>,
                               new clones: seq<Obj>, new levels: seq<map<string, Val>>)
    returns (rank': map<Obj, nat>)
    requires old(allocated(root)) && old(allocated(value)) && old(allocated(rank))
    requires old(Acyclic(rank)) && root in rank && (value.Ref? ==> value.obj in rank)
    requires old(SpreadableAlong(Model(root, rank), keys))
    requires value.Prim? ==> !value.v.JObj?
    requires unchanged(rank.Keys)
    requires |keys| >= 1 && |clones| == |keys| && levels == old(Levels(root, keys, |keys|, rank))
    requires forall a :: 0 <= a < |clones| ==> clones[a] !in rank
    requires forall a, b :: 0 <= a < b < |clones| ==> clones[a] != clones[b]
    requires forall a :: 0 <= a < |clones| - 1 ==> clones[a].fields == levels[a][keys[a] := Ref(clones[a + 1])]
    requires clones[|keys| - 1].fields == levels[|keys| - 1][keys[|keys| - 1] := value]
    ensures Acyclic(rank') && Extends(rank', rank) && clones[0] in rank'
    ensures Model(root, rank') == old(Model(root, rank))
    ensures Model(clones[0], rank') == SetPath(old(Model(root, rank)), keys, old(ValModel(value, rank)))
    ensures forall k :: k in root.fields && k != keys[0] ==> k in clones[0].fields && clones[0].fields[k] == root.fields[k]
  {
    var top := rank[root] + (if value.Ref? then rank[value.obj] else 0) + |keys| + 1;
    rank' := RankCopies(rank, clones, top);
    UpdateFinish(root, keys, value, rank, rank', clones, top, levels);
  }

  /** The copying steps of `updateNestedObjectByPath`: the spread copy of
      the root, then, for every segment but the last, a spread copy of the
      entry under it, linked into the copy above. The copies are fresh and
      start from the input's levels; nothing that existed before changes. */
  method CopyAlongPath(obj: Obj, keys: seq<string>, ghost rank: map<Obj, nat>, ghost levels: seq<map<string, Val>>)
    returns (newObject: Obj, current: Obj, ghost clones: seq<Obj>)
    requires Acyclic(rank) && obj in rank && |keys| >= 1
    requires |levels| == |keys| && levels[0] == obj.fields
    requires forall a :: 0 <= a < |keys| - 1 ==> levels[a + 1] == SpreadVal(Get(levels[a], keys[a]))
    requires forall a :: 0 <= a < |keys| ==> FieldsOk(levels[a], rank, rank[obj])
    ensures |clones| == |keys| && clones[0] == newObject && current == clones[|keys| - 1]
    ensures forall a :: 0 <= a < |clones| ==> fresh(clones[a])
    ensures forall a, b :: 0 <= a < b < |clones| ==> clones[a] != clones[b]
    ensures forall a :: 0 <= a < |keys| - 1 ==> clones[a].fields == levels[a][keys[a] := Ref(clones[a + 1])]
    ensures current.fields == levels[|keys| - 1]
  {
    newObject := new Obj(obj.fields);
    current := newObject;
    clones := [newObject];
    var index := 0;
    while index < |keys| - 1
      invariant 0 <= index <= |keys| - 1
      invariant |clones| == index + 1
      invariant clones[0] == newObject
      invariant current == clones[index]
      invariant forall a :: 0 <= a < |clones| ==> fresh(clones[a])
      invariant forall a, b :: 0 <= a < b < |clones| ==> clones[a] != clones[b]
      invariant forall a :: 0 <= a < index ==> clones[a].fields == levels[a][keys[a] := Ref(clones[a + 1])]
      invariant clones[index].fields == levels[index]
    {
      var key := keys[index];
      var c := Get(current.fields, key);
      assert (if TruthyVal(c) then SpreadVal(c) else map[]) == levels[index + 1] by {
        assert FieldsOk(levels[index], rank, rank[obj]);
      }
      var child := new Obj(if TruthyVal(c) then SpreadVal(c) else map[]);
      current.fields := current.fields[key := Ref(child)];
      current := child;
      clones := clones + [child];
      index := index + 1;
    }
  }

  /** `updateNestedObjectByPath(obj, path, value)`. The input objects are
      not modified (the method modifies nothing that existed before it);
      the result is a fresh object whose model is the reference update of
      the input's model, and whose entries off the first segment are the
      input's entries, shared by reference. */
  method UpdateNestedObjectByPath(obj: Obj, path: string, value: Val, ghost rank: map<Obj, nat>)
    returns (newObject: Obj, ghost rank': map<Obj, nat>)
    requires Acyclic(rank) && obj in rank
    requires value.Prim? ==> !value.v.JObj?
    requires value.Ref? ==> value.obj in rank
    requires SpreadableAlong(Model(obj, rank), Split(path))
    ensures fresh(newObject)
    ensures Acyclic(rank') && Extends(rank', rank) && newObject in rank'
    ensures Model(obj, rank') == old(Model(obj, rank))
    ensures Model(newObject, rank') == SetPath(old(Model(obj, rank)), Split(path), old(ValModel(value, rank)))
    ensures forall k :: k in obj.fields && k != Split(path)[0] ==> k in newObject.fields && newObject.fields[k] == obj.fields[k]
  {
    var keys := Split(path);
    ghost var levels := LevelsChain(obj, keys, rank);
    var current;
    ghost var clones;
    newObject, current, clones := CopyAlongPath(obj, keys, rank, levels);
    current.fields := current.fields[keys[|keys| - 1] := value];

    rank' := UpdateOutcome(obj, keys, value, rank, clones, levels);
  }

  // ---------------------------------------------------------------------
  // Delete

  /** The copy at depth `a` after its step of the second loop: the
      segment still points at the next copy unless that copy has no
      entries, in which case the segment is removed. */
  predicate Pruned(root: Obj, keys: seq<string>, rank: map<Obj, nat>, clones: seq<Obj>, a: nat)
    requires Acyclic(rank) && root in rank && a + 1 < |clones| && |clones| <= |keys|
    reads rank.Keys, clones[a], clones[a + 1]
  {
    clones[a].fields
      == if |clones[a + 1].fields| == 0 then Level(root, keys, a, rank) - {keys[a]}
         else Level(root, keys, a, rank)[keys[a] := Ref(clones[a + 1])]
  }

  /** The state the delete leaves in the copies from depth `from` down:
      the last copy lacks the last segment and the others are pruned. */
  predicate PrunedFrom(root: Obj, keys: seq<string>, rank: map<Obj, nat>, clones: seq<Obj>, from: nat)
    requires Acyclic(rank) && root in rank
    reads rank.Keys, set c | c in clones
  {
    |clones| == |keys| >= 1
    && (forall a :: from <= a < |clones| - 1 ==> Pruned(root, keys, rank, clones, a))
    && clones[|keys| - 1].fields == Level(root, keys, |keys| - 1, rank) - {keys[|keys| - 1]}
  }

  /** Each copy of the pruned chain stands for the reference delete of its
      level. */
  lemma {:induction false} DeleteChain(root: Obj, keys: seq<string>,
                                       rank: map<Obj, nat>, rank': map<Obj, nat>, clones: seq<Obj>, a: nat)
    requires Acyclic(rank) && root in rank
    requires SpreadableAlong(Model(root, rank), keys)
    requires Acyclic(rank') && Extends(rank', rank)
    requires forall b :: 0 <= b < |clones| ==> clones[b] in rank'
    requires PrunedFrom(root, keys, rank, clones, a)
    requires a < |keys|
    ensures Model(clones[a], rank') == DeletePath(Descend(Model(root, rank), keys[..a]), keys[a..])
    decreases |keys| - a
  {
    var level := Level(root, keys, a, rank);
    var here := Descend(Model(root, rank), keys[..a]);
    LevelEntries(root, keys, a, rank, rank');
    ModelFields(clones[a], rank');
    if a == |keys| - 1 {
      assert clones[a].fields == level - {keys[a]};
      FieldsModelRemove(level, keys[a], rank');
      assert keys[a..] == [keys[a]];
    } else {
      var next := clones[a + 1];
      assert Pruned(root, keys, rank, clones, a);
      PrunedEntriesModel(level, keys[a], next, clones[a].fields, rank', rank[root]);
      DeleteChain(root, keys, rank, rank', clones, a + 1);
      DescendSnoc(Model(root, rank), keys, a);
      DeletePathStep(here, keys, a);
    }
  }

  /** The entries of a pruned copy stand for its level's entries with the
      segment removed when the next copy stands for an empty object, and
      set to the next copy's value otherwise. */
  lemma PrunedEntriesModel(level: map<string, Val>, key: string, next: Obj, entries: map<string, Val>,
                           rank': map<Obj, nat>, bound: nat)
    requires Acyclic(rank') && next in rank' && FieldsOk(level, rank', bound)
    requires entries == if |next.fields| == 0 then level - {key} else level[key := Ref(next)]
    ensures FieldsModel(entries, rank')
         == if |Fields(Model(next, rank'))| == 0 then FieldsModel(level, rank') - {key}
            else FieldsModel(level, rank')[key := Model(next, rank')]
  {
    ModelFields(next, rank');
    assert |Fields(Model(next, rank'))| == |next.fields|;
    if |next.fields| == 0 {
      FieldsModelRemove(level, key, rank');
    } else {
      FieldsModelUpdate(level, key, Ref(next), rank');
    }
  }

  /** Each copy of the pruned chain refers only to objects ranked below it. */
  lemma PrunedCloneFits(root: Obj, keys: seq<string>,
                        rank: map<Obj, nat>, rank': map<Obj, nat>, clones: seq<Obj>, top: nat, a: nat)
    requires Acyclic(rank) && root in rank
    requires PrunedFrom(root, keys, rank, clones, 0)
    requires top == rank[root] + |keys| + 1
    requires Extends(rank', rank)
    requires a < |clones|
    requires a + 1 < |clones| ==> clones[a + 1] in rank' && rank'[clones[a + 1]] == top - a - 1
    ensures FieldsOk(clones[a].fields, rank', top - a)
  {
    var level := Level(root, keys, a, rank);
    LevelFitsUnder(root, keys, a, rank, rank', top - a);
    if a < |clones| - 1 {
      assert Pruned(root, keys, rank, clones, a);
    }
    if a == |clones| - 1 || |clones[a + 1].fields| == 0 {
      assert clones[a].fields == level - {keys[a]};
    } else {
      assert clones[a].fields == level[keys[a] := Ref(clones[a + 1])];
      FieldsOkUpdate(level, keys[a], Ref(clones[a + 1]), rank', top - a);
    }
  }

  /** The ranking that places the copies above everything they refer to
      is acyclic, and the first copy stands for the reference delete. */
  lemma DeleteResult(root: Obj, keys: seq<string>,
                     rank: map<Obj, nat>, rank': map<Obj, nat>, clones: seq<Obj>, top: nat)
    requires Acyclic(rank) && root in rank
    requires SpreadableAlong(Model(root, rank), keys)
    requires PrunedFrom(root, keys, rank, clones, 0)
    requires top == rank[root] + |keys| + 1
    requires Extends(rank', rank)
    requires forall x :: x in rank' ==> x in rank || x in clones
    requires forall a :: 0 <= a < |clones| ==> clones[a] in rank' && rank'[clones[a]] == top - a
    ensures Acyclic(rank')
    ensures Model(root, rank') == Model(root, rank)
    ensures Model(clones[0], rank') == DeletePath(Model(root, rank), keys)
  {
    forall a | 0 <= a < |clones| ensures FieldsOk(clones[a].fields, rank', rank'[clones[a]]) {
      PrunedCloneFits(root, keys, rank, rank', clones, top, a);
    }
    AcyclicExtension(rank, rank', clones);
    ModelIndependent(root, rank, rank');
    DeleteChain(root, keys, rank, rank', clones, 0);
    assert keys[..0] == [] && keys[0..] == keys;
  }

  /** The loops' pruned form, on the copies' linked entries, is the
      pruned chain. */
  lemma PrunedOfLinked(root: Obj, keys: seq<string>, rank: map<Obj, nat>, clones: seq<Obj>,
                       levels: seq<map<string, Val>>)
    requires Acyclic(rank) && root in rank
    requires |keys| >= 1 && |clones| == |keys| && levels == Levels(root, keys, |keys|, rank)
    requires forall a :: 0 <= a < |clones| - 1 ==>
      clones[a].fields == if |clones[a + 1].fields| == 0 then levels[a][keys[a] := Ref(clones[a + 1])] - {keys[a]}
                          else levels[a][keys[a] := Ref(clones[a + 1])]
    requires clones[|keys| - 1].fields == levels[|keys| - 1] - {keys[|keys| - 1]}
    ensures PrunedFrom(root, keys, rank, clones, 0)
  {
    forall a | 0 <= a < |clones| - 1 ensures Pruned(root, keys, rank, clones, a) {
      assert levels[a] == Level(root, keys, a, rank);
      RemoveAfterSet(levels[a], keys[a], Ref(clones[a + 1]));
    }
    assert levels[|keys| - 1] == Level(root, keys, |keys| - 1, rank);
  }

  /** Setting or removing `key` leaves every other entry as it was. */
  lemma OthersKept(m: map<string, Val>, m': map<string, Val>, key: string, v: Val)
    requires m' == m - {key} || m' == m[key := v] - {key} || m' == m[key := v]
    ensures forall k :: k in m && k != key ==> k in m' && m'[k] == m[k]
  {
  }

  /** The state the loops of `DeleteNestedPropertyByPath` leave, stated on
      the levels taken before them, is the pruned chain. */
  lemma DeleteFinish(root: Obj, keys: seq<string>,
                     rank: map<Obj, nat>, rank': map<Obj, nat>, clones: seq<Obj>, top: nat,
                     levels: seq<map<string, Val>>)
    requires Acyclic(rank) && root in rank
    requires SpreadableAlong(Model(root, rank), keys)
    requires |keys| >= 1 && |clones| == |keys| && levels == Levels(root, keys, |keys|, rank)
    requires forall a :: 0 <= a < |clones| - 1 ==>
      clones[a].fields == if |clones[a + 1].fields| == 0 then levels[a][keys[a] := Ref(clones[a + 1])] - {keys[a]}
                          else levels[a][keys[a] := Ref(clones[a + 1])]
    requires clones[|keys| - 1].fields == levels[|keys| - 1] - {keys[|keys| - 1]}
    requires top == rank[root] + |keys| + 1
    requires Extends(rank', rank)
    requires forall x :: x in rank' ==> x in rank || x in clones
    requires forall a :: 0 <= a < |clones| ==> clones[a] in rank' && rank'[clones[a]] == top - a
    ensures Acyclic(rank')
    ensures Model(root, rank') == Model(root, rank)
    ensures Model(clones[0], rank') == DeletePath(Model(root, rank), keys)
    ensures forall k :: k in root.fields && k != keys[0] ==> k in clones[0].fields && clones[0].fields[k] == root.fields[k]
  {
    PrunedOfLinked(root, keys, rank, clones, levels);
    DeleteResult(root, keys, rank, rank', clones, top);
    assert levels[0] == root.fields;
    if |keys| == 1 {
      OthersKept(root.fields, clones[0].fields, keys[0], Prim(JNull));
    } else {
      OthersKept(root.fields, clones[0].fields, keys[0], Ref(clones[1]));
    }
  }

  /** What `DeleteNestedPropertyByPath` leaves, stated against the state it
      started from: the inputs read as before, and the copies, ranked
      above them, stand for the pruned tree and share the entries off the
      first segment. */
  twostate lemma DeleteOutcome(new root: Obj, new keys: seq<string>, new rank: map<Obj, nat>,
                               new clones: seq<Obj>, new levels: seq<map<string, Val>>)
    returns (rank': map<Obj, nat>)
    requires old(allocated(root)) && old(allocated(rank))
    requires old(Acyclic(rank)) && root in rank
    requires old(SpreadableAlong(Model(root, rank), keys))
    requires unchanged(rank.Keys)
    requires |keys| >= 1 && |clones| == |keys| && levels == old(Levels(root, keys, |keys|, rank))
    requires forall a :: 0 <= a < |clones| ==> clones[a] !in rank
    requires forall a, b :: 0 <= a < b < |clones| ==> clones[a] != clones[b]
    requires forall a :: 0 <= a < |clones| - 1 ==>
      clones[a].fields == if |clones[a + 1].fields| == 0 then levels[a][keys[a] := Ref(clones[a + 1])] - {keys[a]}
                          else levels[a][keys[a] := Ref(clones[a + 1])]
    requires clones[|keys| - 1].fields == levels[|keys| - 1] - {keys[|keys| - 1]}
    ensures Acyclic(rank') && Extends(rank', rank) && clones[0] in rank'
    ensures Model(root, rank') == old(Model(root, rank))
    ensures Model(clones[0], rank') == DeletePath(old(Model(root, rank)), keys)
    ensures forall k :: k in root.fields && k != keys[0] ==> k in clones[0].fields && clones[0].fields[k] == root.fields[k]
  {
    var top := rank[root] + |keys| + 1;
    rank' := RankCopies(rank, clones, top);
    DeleteFinish(root, keys, rank, rank', clones, top, levels);
  }

  /** One step of the first loop of `deleteNestedPropertyByPath`: push
      the current copy, then link a spread copy of its entry under `key`
      into it. */
  method PushAndCopy(current: Obj, key: string, stack: seq<Obj>) returns (child: Obj, stack': seq<Obj>)
    modifies current
    ensures fresh(child) && stack' == stack + [current]
    ensures child.fields == old(SpreadVal(Get(current.fields, key)))
    ensures current.fields == old(current.fields)[key := Ref(child)]
  {
    stack' := stack + [current];
    child := new Obj(SpreadVal(Get(current.fields, key)));
    current.fields := current.fields[key := Ref(child)];
  }

  /** The first loop of `deleteNestedPropertyByPath` and the removal that
      follows it: the spread copy of the root, then, for every segment but
      the last, the copy pushed on the stack and a spread copy of the entry
      under it linked into it; finally the last segment is removed from
      the deepest copy. */
  method CopyAndStack(obj: Obj, keys: seq<string>, ghost rank: map<Obj, nat>, ghost levels: seq<map<string, Val>>)
    returns (newObject: Obj, current: Obj, stack: seq<Obj>, ghost clones: seq<Obj>)
    requires Acyclic(rank) && obj in rank && |keys| >= 1
    requires |levels| == |keys| && levels[0] == obj.fields
    requires forall a :: 0 <= a < |keys| - 1 ==> levels[a + 1] == SpreadVal(Get(levels[a], keys[a]))
    requires forall a :: 0 <= a < |keys| ==> FieldsOk(levels[a], rank, rank[obj])
    ensures |clones| == |keys| && clones[0] == newObject && current == clones[|keys| - 1]
    ensures stack == clones[..|keys| - 1]
    ensures forall a :: 0 <= a < |clones| ==> fresh(clones[a])
    ensures forall a, b :: 0 <= a < b < |clones| ==> clones[a] != clones[b]
    ensures forall a :: 0 <= a < |keys| - 1 ==> clones[a].fields == levels[a][keys[a] := Ref(clones[a + 1])]
    ensures current.fields == levels[|keys| - 1] - {keys[|keys| - 1]}
    ensures forall a :: 0 <= a < |keys| - 1 ==>
      keys[a] in clones[a].fields && clones[a].fields[keys[a]] == Ref(clones[a + 1])
  {
    newObject := new Obj(obj.fields);
    current := newObject;
    stack := [];
    clones := [newObject];
    var i := 0;
    while i < |keys| - 1
      invariant 0 <= i <= |keys| - 1
      invariant |clones| == i + 1
      invariant clones[0] == newObject
      invariant current == clones[i] && clones == stack + [current]
      invariant forall a :: 0 <= a < |clones| ==> fresh(clones[a])
      invariant forall a, b :: 0 <= a < b < |clones| ==> clones[a] != clones[b]
      invariant forall a :: 0 <= a < i ==> clones[a].fields == levels[a][keys[a] := Ref(clones[a + 1])]
      invariant clones[i].fields == levels[i]
    {
      assert SpreadVal(Get(current.fields, keys[i])) == levels[i + 1] by {
        assert FieldsOk(levels[i], rank, rank[obj]);
      }
      var child;
      child, stack := PushAndCopy(current, keys[i], stack);
      clones := clones + [child];
      current := child;
      i := i + 1;
    }
    current.fields := current.fields - {keys[|keys| - 1]};
    forall a | 0 <= a < |keys| - 1 ensures keys[a] in clones[a].fields && clones[a].fields[keys[a]] == Ref(clones[a + 1]) {
      assert clones[a].fields == levels[a][keys[a] := Ref(clones[a + 1])];
    }
  }

  /** The second loop's outcome, stated on the levels: each copy on the
      stack had its level's entries with the segment linked to the next
      copy, and keeps them unless that copy was left empty. */
  twostate lemma PrunedLinks(new keys: seq<string>, clones: seq<Obj>, new levels: seq<map<string, Val>>)
    requires |keys| >= 1 && |clones| == |keys| && |levels| == |keys|
    requires forall a :: 0 <= a < |keys| - 1 ==> old(clones[a].fields) == levels[a][keys[a] := Ref(clones[a + 1])]
    requires old(clones[|keys| - 1].fields) == levels[|keys| - 1] - {keys[|keys| - 1]}
    requires forall a :: 0 <= a < |keys| - 1 ==>
      clones[a].fields == if |clones[a + 1].fields| == 0 then old(clones[a].fields) - {keys[a]} else old(clones[a].fields)
    requires clones[|keys| - 1].fields == old(clones[|keys| - 1].fields)
    ensures forall a :: 0 <= a < |clones| - 1 ==>
      clones[a].fields == if |clones[a + 1].fields| == 0 then levels[a][keys[a] := Ref(clones[a + 1])] - {keys[a]}
                          else levels[a][keys[a] := Ref(clones[a + 1])]
    ensures clones[|keys| - 1].fields == levels[|keys| - 1] - {keys[|keys| - 1]}
  {
    forall a | 0 <= a < |keys| - 1
      ensures clones[a].fields == if |clones[a + 1].fields| == 0 then levels[a][keys[a] := Ref(clones[a + 1])] - {keys[a]}
                                  else levels[a][keys[a] := Ref(clones[a + 1])]
    {
      ghost var linked := levels[a][keys[a] := Ref(clones[a + 1])];
      assert old(clones[a].fields) == linked;
      assert clones[a].fields == if |clones[a + 1].fields| == 0 then linked - {keys[a]} else linked;
    }
  }

  /** The second loop's state, on the copies' entries `cur`, once it has
      handled the copies below depth `i`: the copies down to depth `i`
      and the deepest copy still hold their entries `orig`, and each copy
      below depth `i` lost its segment exactly when the next copy was left
      without entries. */
  predicate PrunedBelow(keys: seq<string>, cur: seq<map<string, Val>>, orig: seq<map<string, Val>>, i: int)
    requires |cur| == |keys| == |orig| >= 1 && -1 <= i < |keys|
  {
    && (forall a :: 0 <= a <= i ==> cur[a] == orig[a])
    && cur[|keys| - 1] == orig[|keys| - 1]
    && (forall a :: i < a < |keys| - 1 ==> cur[a] == if |cur[a + 1]| == 0 then orig[a] - {keys[a]} else orig[a])
  }

  /** One step of the second loop keeps its state: the copy at depth `i`
      loses its segment exactly when the next copy has no entries. */
  lemma PruneStep(keys: seq<string>, cur: seq<map<string, Val>>, orig: seq<map<string, Val>>, i: int,
                  entries: map<string, Val>)
    requires |cur| == |keys| == |orig| && 0 <= i < |keys| - 1
    requires PrunedBelow(keys, cur, orig, i)
    requires entries == if |cur[i + 1]| == 0 then orig[i] - {keys[i]} else orig[i]
    ensures PrunedBelow(keys, cur[i := entries], orig, i - 1)
  {
    var cur' := cur[i := entries];
    forall a | i - 1 < a < |keys| - 1
      ensures cur'[a] == if |cur'[a + 1]| == 0 then orig[a] - {keys[a]} else orig[a]
    {
      if a != i {
        assert cur'[a] == cur[a] && cur'[a + 1] == cur[a + 1];
      }
    }
  }

  /** The second loop of `deleteNestedPropertyByPath`: popping the copies
      from the stack, deepest first, and removing the segment from each
      whose next copy has been left without entries. Only the copies on
      the stack change. */
  method PruneAlongStack(keys: seq<string>, pushed: seq<Obj>, ghost clones: seq<Obj>)
    requires |keys| >= 1 && |clones| == |keys|
    requires pushed == clones[..|keys| - 1]
    requires forall a, b :: 0 <= a < b < |clones| ==> clones[a] != clones[b]
    requires forall a :: 0 <= a < |keys| - 1 ==>
      keys[a] in clones[a].fields && clones[a].fields[keys[a]] == Ref(clones[a + 1])
    modifies pushed
    ensures forall a :: 0 <= a < |keys| - 1 ==>
      clones[a].fields == if |clones[a + 1].fields| == 0 then old(clones[a].fields) - {keys[a]} else old(clones[a].fields)
    ensures clones[|keys| - 1].fields == old(clones[|keys| - 1].fields)
  {
    ghost var orig := seq(|clones|, a requires 0 <= a < |clones| reads clones => clones[a].fields);
    ghost var cur := orig;
    var stack := pushed;
    var current: Obj;
    var i := |keys| - 2;
    while i >= 0
      invariant -1 <= i <= |keys| - 2
      invariant stack == pushed[..i + 1]
      invariant |cur| == |orig| == |keys|
      invariant forall a :: 0 <= a < |clones| ==> clones[a].fields == cur[a]
      invariant forall a :: 0 <= a < |clones| ==> old(clones[a].fields) == orig[a]
      invariant PrunedBelow(keys, cur, orig, i)
    {
      var key := keys[i];
      current := stack[|stack| - 1];
      stack := stack[..|stack| - 1];
      assert current == clones[i] && current.fields == orig[i] && current.fields[key] == Ref(clones[i + 1]);
      assert clones[i + 1].fields == cur[i + 1];
      if |current.fields[key].obj.fields| == 0 {
        current.fields := current.fields - {key};
      }
      PruneStep(keys, cur, orig, i, current.fields);
      cur := cur[i := current.fields];
      forall a | 0 <= a < |clones| ensures clones[a].fields == cur[a] {
        if a != i {
          assert clones[a] != current;
        }
      }
      i := i - 1;
    }
    forall a | 0 <= a < |keys| - 1
      ensures clones[a].fields == if |clones[a + 1].fields| == 0 then old(clones[a].fields) - {keys[a]} else old(clones[a].fields)
    {
      assert clones[a].fields == cur[a] && clones[a + 1].fields == cur[a + 1];
    }
  }

  /** `deleteNestedPropertyByPath(obj, path)`. The input objects are not
      modified; the result is a fresh object whose model is the reference
      delete of the input's model, and whose entries off the first segment
      are the input's entries, shared by reference. The source's guard for
      an empty list of segments has no counterpart: a split is never empty. */
  method DeleteNestedPropertyByPath(obj: Obj, path: string, ghost rank: map<Obj, nat>)
    returns (newObject: Obj, ghost rank': map<Obj, nat>)
    requires Acyclic(rank) && obj in rank
    requires SpreadableAlong(Model(obj, rank), Split(path))
    ensures fresh(newObject)
    ensures Acyclic(rank') && Extends(rank', rank) && newObject in rank'
    ensures Model(obj, rank') == old(Model(obj, rank))
    ensures Model(newObject, rank') == DeletePath(old(Model(obj, rank)), Split(path))
    ensures forall k :: k in obj.fields && k != Split(path)[0] ==> k in newObject.fields && newObject.fields[k] == obj.fields[k]
  {
    var keys := Split(path);
    ghost var levels := Levels(obj, keys, |keys|, rank);
    var current, stack;
    ghost var clones;
    newObject, current, stack, clones := CopyAndStack(obj, keys, rank, levels);
    label copied:
    PruneAlongStack(keys, stack, clones);
    PrunedLinks@copied(keys, clones, levels);
    rank' := DeleteOutcome(obj, keys, rank, clones, levels);
  }
}
