/** Configuration parameters by dotted path, and the nested tree that they stand for. */
module ConfigSpec {
  import opened Wrappers

  type ParamPath = string

  /** A JSON value; `Object` is a nested part of the loaded tree. */
  datatype Value =
    | Null
    | Bool(b: bool)
    | Integer(n: int)
    | Float(x: real)
    | Text(text: string)
    | Array(items: seq<Value>)
    | Object(fields: map<string, Value>)

  type ConfigMap = map<ParamPath, Value>

  // ----- Paths -----

  /** `a` names a part of the configuration that `b` lies inside. */
  predicate PathPrefix(a: ParamPath, b: ParamPath) {
    a + "." <= b
  }

  ghost predicate PrefixFree(paths: set<ParamPath>) {
    forall a <- paths, b <- paths :: !PathPrefix(a, b)
  }

  /** The names of a path, split at its dots. */
  function Split(s: string): (names: seq<string>)
    ensures |names| >= 1
  {
    if s == "" then [""]
    else Extend(s[0], Split(s[1..]))
  }

  /** The names with one more character in front: a dot starts a new name. */
  function Extend(c: char, names: seq<string>): (r: seq<string>)
    requires |names| >= 1
    ensures |r| >= 1
  {
    if c == '.' then [""] + names else [[c] + names[0]] + names[1..]
  }

  function Join(names: seq<string>): string
    requires |names| >= 1
  {
    if |names| == 1 then names[0] else names[0] + "." + Join(names[1..])
  }

  lemma {:induction false} JoinSplit(s: string)
    ensures Join(Split(s)) == s
  {
    if s != "" {
      JoinSplit(s[1..]);
      var rest := Split(s[1..]);
      if s[0] == '.' {
        assert ([""] + rest)[1..] == rest;
        assert "" + "." + s[1..] == s;
      } else {
        var names := [[s[0]] + rest[0]] + rest[1..];
        assert names[1..] == rest[1..];
        assert [s[0]] + s[1..] == s;
        if |rest| > 1 {
          assert [s[0]] + rest[0] + "." + Join(rest[1..]) == [s[0]] + (rest[0] + "." + Join(rest[1..]));
        }
      }
    }
  }

  lemma ExtendConcat(c: char, a: seq<string>, b: seq<string>)
    requires |a| >= 1
    ensures Extend(c, a + b) == Extend(c, a) + b
  {
    assert (a + b)[0] == a[0] && (a + b)[1..] == a[1..] + b;
  }

  lemma {:induction false} SplitConcat(a: string, b: string)
    ensures Split(a + "." + b) == Split(a) + Split(b)
  {
    var s := a + "." + b;
    if a == "" {
      assert s[0] == '.' && s[1..] == b;
    } else {
      SplitConcat(a[1..], b);
      assert s[0] == a[0] && s[1..] == a[1..] + "." + b;
      ExtendConcat(a[0], Split(a[1..]), Split(b));
    }
  }

  lemma {:induction false} JoinConcat(a: seq<string>, b: seq<string>)
    requires |a| >= 1 && |b| >= 1
    ensures Join(a + b) == Join(a) + "." + Join(b)
  {
    if |a| == 1 {
      assert (a + b)[1..] == b;
    } else {
      JoinConcat(a[1..], b);
      assert (a + b)[1..] == a[1..] + b && (a + b)[0] == a[0];
      assert a[0] + "." + (Join(a[1..]) + "." + Join(b)) == (a[0] + "." + Join(a[1..])) + "." + Join(b);
    }
  }

  /** One path lies inside another exactly when its names continue the other's names. */
  lemma {:induction false} PathPrefixIff(a: ParamPath, b: ParamPath)
    ensures PathPrefix(a, b) <==> Split(a) < Split(b)
  {
    if PathPrefix(a, b) {
      var rest := b[|a| + 1..];
      assert b == a + "." + rest;
      SplitConcat(a, rest);
    }
    if Split(a) < Split(b) {
      var rest := Split(b)[|Split(a)|..];
      assert Split(b) == Split(a) + rest;
      JoinConcat(Split(a), rest);
      JoinSplit(a);
      JoinSplit(b);
      assert a + "." <= a + "." + Join(rest);
    }
  }

  lemma {:induction false} SplitInjective(a: ParamPath, b: ParamPath)
    requires Split(a) == Split(b)
    ensures a == b
  {
    JoinSplit(a);
    JoinSplit(b);
  }

  // ----- The nested tree -----

  /** What a path reads from a tree. */
  function Get(t: Value, path: seq<string>): Option<Value>
    decreases |path|
  {
    if path == [] then Some(t)
    else if t.Object? && path[0] in t.fields then Get(t.fields[path[0]], path[1..])
    else None
  }

  /** Mutable indexing along a path, then assignment: null becomes an object, other leaves panic. */
  function Insert(t: Value, path: seq<string>, v: Value): Option<Value>
    decreases |path|
  {
    if path == [] then Some(v)
    else if !t.Null? && !t.Object? then None
    else
      var fields := if t.Object? then t.fields else map[];
      var child := if path[0] in fields then fields[path[0]] else Null;
      var inner := Insert(child, path[1..], v);
      if inner.None? then None else Some(Object(fields[path[0] := inner.value]))
  }

  /** Assigning a path changes what is read at the path, above it and below it, and nothing else. */
  lemma {:induction false} GetInsert(t: Value, path: seq<string>, v: Value, q: seq<string>)
    requires Insert(t, path, v).Some?
    ensures var t' := Insert(t, path, v).value;
            && (path <= q ==> Get(t', q) == Get(v, q[|path|..]))
            && (q < path ==> Get(t', q).Some? && Get(t', q).value.Object?)
            && (!(path <= q) && !(q <= path) ==> Get(t', q) == Get(t, q))
    decreases |path|
  {
    if path == [] {
      assert q[0..] == q;
    } else if q != [] {
      var fields := if t.Object? then t.fields else map[];
      var child := if path[0] in fields then fields[path[0]] else Null;
      GetInsert(child, path[1..], v, q[1..]);
      ConsPrefix(path, q);
      if path <= q {
        assert q[1..][|path| - 1..] == q[|path|..];
      }
    }
  }

  lemma ConsPrefix(a: seq<string>, b: seq<string>)
    requires a != [] && b != []
    ensures a <= b <==> a[0] == b[0] && a[1..] <= b[1..]
    ensures b <= a <==> a[0] == b[0] && b[1..] <= a[1..]
    ensures b < a <==> a[0] == b[0] && b[1..] < a[1..]
  {
    assert a == [a[0]] + a[1..] && b == [b[0]] + b[1..];
  }

  /** An assignment goes through when no leaf other than null is met on the way. */
  lemma {:induction false} InsertSucceeds(t: Value, path: seq<string>, v: Value)
    requires forall q :: q < path && Get(t, q).Some? ==> Get(t, q).value.Null? || Get(t, q).value.Object?
    ensures Insert(t, path, v).Some?
    decreases |path|
  {
    if path != [] {
      assert [] < path && Get(t, []) == Some(t);
      var fields := if t.Object? then t.fields else map[];
      var child := if path[0] in fields then fields[path[0]] else Null;
      forall q | q < path[1..] && Get(child, q).Some? ensures Get(child, q).value.Null? || Get(child, q).value.Object? {
        if path[0] in fields {
          var longer := [path[0]] + q;
          assert longer[1..] == q && longer < path;
          assert Get(t, longer) == Get(child, q);
        } else {
          assert q == [];
        }
      }
      InsertSucceeds(child, path[1..], v);
    }
  }

  // ----- Reading back what was loaded -----

  ghost predicate ReadsBack(t: Value, m: ConfigMap) {
    forall k <- m :: Get(t, Split(k)) == Some(m[k])
  }

  ghost predicate IsLeafOf(m: ConfigMap, path: seq<string>) {
    exists k <- m :: Split(k) == path
  }

  /** Every leaf of the tree was put there by a parameter. */
  ghost predicate LeavesAre(t: Value, m: ConfigMap) {
    forall path :: Get(t, path).Some? && !Get(t, path).value.Object? ==> IsLeafOf(m, path)
  }

  ghost predicate NoObjects(m: ConfigMap) {
    forall k <- m :: !m[k].Object?
  }

  lemma {:induction false} GetThrough(t: Value, a: seq<string>, b: seq<string>)
    requires a < b && Get(t, b).Some?
    ensures Get(t, a).Some? && Get(t, a).value.Object?
    decreases |a|
  {
    if a != [] {
      ConsPrefix(b, a);
      GetThrough(t.fields[a[0]], a[1..], b[1..]);
    }
  }

  /** A tree that reads back every parameter shows that no parameter lies inside another. */
  lemma {:induction false} ReadsBackOnlyPrefixFree(t: Value, m: ConfigMap)
    requires ReadsBack(t, m) && NoObjects(m)
    ensures PrefixFree(m.Keys)
  {
    forall a <- m.Keys, b <- m.Keys ensures !PathPrefix(a, b) {
      PathPrefixIff(a, b);
      if Split(a) < Split(b) {
        GetThrough(t, Split(a), Split(b));
      }
    }
  }

  /** One turn of the loop of `load`: a parameter that is not inside or around a loaded one. */
  lemma {:induction false} LoadStep(t: Value, m: ConfigMap, k: ParamPath, v: Value)
    requires ReadsBack(t, m) && LeavesAre(t, m) && k !in m && PrefixFree(m.Keys + {k}) && !v.Object?
    ensures Insert(t, Split(k), v).Some?
    ensures var t' := Insert(t, Split(k), v).value;
            ReadsBack(t', m[k := v]) && LeavesAre(t', m[k := v])
  {
    var path := Split(k);
    forall q | q < path && Get(t, q).Some? ensures Get(t, q).value.Object? {
      if !Get(t, q).value.Object? {
        var j :| j in m && Split(j) == q;
        PathPrefixIff(j, k);
      }
    }
    InsertSucceeds(t, path, v);
    var t' := Insert(t, path, v).value;
    forall j <- m ensures Get(t', Split(j)) == Some(m[j]) {
      PathPrefixIff(j, k);
      PathPrefixIff(k, j);
      if Split(j) == path {
        SplitInjective(j, k);
      }
      GetInsert(t, path, v, Split(j));
    }
    GetInsert(t, path, v, path);
    assert path[|path|..] == [];
    forall q | Get(t', q).Some? && !Get(t', q).value.Object? ensures IsLeafOf(m[k := v], q) {
      NewLeaf(t, m, k, v, q);
    }
  }

  lemma {:induction false} NewLeaf(t: Value, m: ConfigMap, k: ParamPath, v: Value, q: seq<string>)
    requires LeavesAre(t, m) && Insert(t, Split(k), v).Some? && !v.Object?
    requires var t' := Insert(t, Split(k), v).value; Get(t', q).Some? && !Get(t', q).value.Object?
    ensures IsLeafOf(m[k := v], q)
  {
    var path := Split(k);
    GetInsert(t, path, v, q);
    if path <= q {
      assert q[|path|..] == [];
      assert q == path;
      assert k in m[k := v];
    } else {
      var j :| j in m && Split(j) == q;
      assert j in m[k := v];
    }
  }
}
