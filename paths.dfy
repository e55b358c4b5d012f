/** Dot-delimited paths: `path.split('.')` and `generatePath`
    (src/utils.ts:51-56). */
module Paths {

  /** The number of dots in `s`. */
  function DotCount(s: string): nat
  {
    if s == "" then 0 else (if s[0] == '.' then 1 else 0) + DotCount(s[1..])
  }

  /** JavaScript `s.split('.')`: the maximal dot-free pieces between the
      dots, so `Split("")` is `[""]` and `Split("a..b")` is `["a", "", "b"]`. */
  function Split(s: string): (segments: seq<string>)
    ensures |segments| == DotCount(s) + 1
    ensures forall i :: 0 <= i < |segments| ==> '.' !in segments[i]
  {
    if s == "" then [""]
    else
      var rest := Split(s[1..]);
      if s[0] == '.' then [""] + rest
      else [[s[0]] + rest[0]] + rest[1..]
  }

  /** `segments.join('.')`, the inverse of `Split`. */
  function Join(segments: seq<string>): string
    requires |segments| >= 1
  {
    if |segments| == 1 then segments[0] else segments[0] + "." + Join(segments[1..])
  }

  /** `generatePath(parentPath, fieldName)`: the field itself under the
      root, otherwise the parent, a dot and the field. */
  function GeneratePath(parentPath: string, fieldName: string): (path: string)
    ensures |path| == |parentPath| + |fieldName| + (if parentPath == "" then 0 else 1)
    ensures path[..|parentPath|] == parentPath && path[|path| - |fieldName|..] == fieldName
    ensures parentPath != "" ==> path[|parentPath|] == '.'
  {
    var path := if |parentPath| > 0 then parentPath + "." else parentPath;
    path + fieldName
  }

  /** Joining the pieces of a split gives back the path. */
  lemma {:induction false} JoinSplit(s: string)
    ensures Join(Split(s)) == s
  {
    if s != "" {
      var rest := Split(s[1..]);
      JoinSplit(s[1..]);
      if s[0] == '.' {
        assert Split(s) == [""] + rest;
        assert ([""] + rest)[1..] == rest;
      } else {
        assert Split(s) == [[s[0]] + rest[0]] + rest[1..];
        if |rest| == 1 {
          assert Join(rest) == rest[0];
        } else {
          assert Join(rest) == rest[0] + "." + Join(rest[1..]);
          assert ([[s[0]] + rest[0]] + rest[1..])[1..] == rest[1..];
        }
        assert s == [s[0]] + s[1..];
      }
    }
  }

  /** A dot-free string splits to itself alone. */
  lemma {:induction false} SplitDotFree(s: string)
    requires '.' !in s
    ensures Split(s) == [s]
  {
    if s != "" {
      assert '.' !in s[1..] by {
        forall i | 0 <= i < |s[1..]| ensures s[1..][i] != '.' { assert s[1..][i] == s[i + 1]; }
      }
      SplitDotFree(s[1..]);
      assert s[0] != '.' by { assert s[0] in s; }
      assert s == [s[0]] + s[1..];
    }
  }

  /** Concatenation regroups freely. */
  lemma AppendAssoc<T>(x: seq<T>, y: seq<T>, z: seq<T>)
    ensures x + y + z == x + (y + z)
  {
  }

  /** Dropping the first element of a concatenation drops it from the left part. */
  lemma DropAppend<T>(x: seq<T>, y: seq<T>)
    requires |x| >= 1
    ensures (x + y)[1..] == x[1..] + y
  {
  }

  /** Splitting at a dot splits the two sides independently. */
  lemma {:induction false} SplitAtDot(a: string, b: string)
    ensures Split(a + "." + b) == Split(a) + Split(b)
  {
    var s := a + "." + b;
    var tail := Split(b);
    AppendAssoc(a, ".", b);
    if a == "" {
      assert s == "." + b;
      DropAppend(".", b);
      assert s[0] == '.' && s[1..] == b;
    } else {
      DropAppend(a, "." + b);
      assert s[0] == a[0] && s[1..] == a[1..] + "." + b;
      SplitAtDot(a[1..], b);
      var rest := Split(a[1..]);
      if a[0] == '.' {
        AppendAssoc([""], rest, tail);
      } else {
        DropAppend(rest, tail);
        AppendAssoc([[a[0]] + rest[0]], rest[1..], tail);
      }
    }
  }

  /** Splitting a join of dot-free segments gives back the segments. */
  lemma {:induction false} SplitJoin(segments: seq<string>)
    requires |segments| >= 1
    requires forall i :: 0 <= i < |segments| ==> '.' !in segments[i]
    ensures Split(Join(segments)) == segments
  {
    SplitDotFree(segments[0]);
    if |segments| > 1 {
      SplitJoin(segments[1..]);
      SplitAtDot(segments[0], Join(segments[1..]));
      assert segments == [segments[0]] + segments[1..];
    }
  }

  /** `generatePath` appends the field's pieces to the parent's: under
      the root the field's path is the field itself, otherwise the parent
      and the field meet at one new dot. A dot-free field name therefore
      adds exactly one segment. */
  lemma GeneratePathSplits(parentPath: string, fieldName: string)
    ensures parentPath == "" ==> Split(GeneratePath(parentPath, fieldName)) == Split(fieldName)
    ensures parentPath != "" ==> Split(GeneratePath(parentPath, fieldName)) == Split(parentPath) + Split(fieldName)
    ensures '.' !in fieldName && parentPath == "" ==> Split(GeneratePath(parentPath, fieldName)) == [fieldName]
    ensures '.' !in fieldName && parentPath != "" ==>
      Split(GeneratePath(parentPath, fieldName)) == Split(parentPath) + [fieldName]
  {
    if '.' !in fieldName {
      SplitDotFree(fieldName);
    }
    if parentPath != "" {
      assert GeneratePath(parentPath, fieldName) == parentPath + "." + fieldName;
      SplitAtDot(parentPath, fieldName);
    } else {
      assert GeneratePath(parentPath, fieldName) == fieldName;
    }
  }

  /** The schema's child paths: `generatePath(path, generatePath('properties', name))`
      (src/components/SchemaPreview.tsx:327) steps into `properties` and
      then the pieces of the property's name, and `generatePath(path, 'items')`
      (src/components/SchemaPreview.tsx:357) steps into `items`; under the
      root there are no parent pieces in front. */
  lemma SchemaChildPaths(path: string, name: string)
    ensures path == "" ==> Split(GeneratePath(path, GeneratePath("properties", name))) == ["properties"] + Split(name)
    ensures path != "" ==>
      Split(GeneratePath(path, GeneratePath("properties", name))) == Split(path) + ["properties"] + Split(name)
    ensures '.' !in name ==> Split(GeneratePath("properties", name)) == ["properties", name]
    ensures path == "" ==> Split(GeneratePath(path, "items")) == ["items"]
    ensures path != "" ==> Split(GeneratePath(path, "items")) == Split(path) + ["items"]
  {
    var child := GeneratePath("properties", name);
    var pieces := ["properties"] + Split(name);
    assert Split(child) == pieces by {
      GeneratePathSplits("properties", name);
      SplitDotFree("properties");
    }
    if '.' !in name {
      SplitDotFree(name);
    }
    GeneratePathSplits(path, child);
    if path != "" {
      AppendAssoc(Split(path), ["properties"], Split(name));
    }
    assert Split(GeneratePath(path, "items")) == (if path == "" then [] else Split(path)) + ["items"] by {
      GeneratePathSplits(path, "items");
      SplitDotFree("items");
    }
  }

  /** Worked values of the two path helpers. */
  lemma PathExamples()
    ensures GeneratePath("", "a") == "a"
    ensures GeneratePath("a", "b") == "a.b"
    ensures Split("a.b.c") == ["a", "b", "c"]
    ensures Split("") == [""]
  {
    assert "a.b.c" == "a" + "." + ("b" + "." + "c");
    SplitAtDot("a", "b" + "." + "c");
    SplitAtDot("b", "c");
    SplitDotFree("a");
    SplitDotFree("b");
    SplitDotFree("c");
  }

  /** A path of two dot-free segments. */
  lemma SplitTwo(a: string, b: string)
    requires '.' !in a && '.' !in b
    ensures Split(a + "." + b) == [a, b]
  {
    SplitAtDot(a, b);
    SplitDotFree(a);
    SplitDotFree(b);
  }
}
