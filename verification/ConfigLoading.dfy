/** From a flat configuration dump to the loaded tree: pointers, optional values, nesting. */
module ConfigLoading {
  import opened Wrappers
  import opened ConfigSpec

  // ----- Pointers -----

  datatype SerializationType = Boolean | FloatNumber | NegativeInteger | PositiveInteger | String

  datatype SerializedContent = DefaultValue(value: Value) | PointerTarget(target: ParamPath) | ParamType(type_: SerializationType)

  datatype ConfigError =
    | PointerTargetNotFound(targetParam: ParamPath)
    | ParamNotFound(paramPath: ParamPath)
    | ChangeRequiredParamType(paramPath: ParamPath, required: SerializationType)

  /** A pointer parameter and the parameter it takes its value from. */
  datatype Pointer = Pointer(param: ParamPath, target: ParamPath)

  /** The byte order of strings, in which ordered maps are iterated. */
  predicate Less(a: string, b: string) {
    if b == "" then false
    else if a == "" then true
    else if a[0] != b[0] then a[0] < b[0]
    else Less(a[1..], b[1..])
  }

  /** The entries of an ordered pointer map, in the order of iteration. */
  ghost predicate Ascending(ps: seq<Pointer>) {
    forall i, j :: 0 <= i < j < |ps| ==> Less(ps[i].param, ps[j].param)
  }

  /** The parameters of the first `n` pointers. */
  function Params(ps: seq<Pointer>, n: nat): set<ParamPath>
    requires n <= |ps|
  {
    if n == 0 then {} else Params(ps, n - 1) + {ps[n - 1].param}
  }

  /** Which of the first `n` pointers has the given parameter. */
  function Find(ps: seq<Pointer>, n: nat, param: ParamPath): (r: Option<nat>)
    requires n <= |ps|
    ensures r.Some? ==> r.value < n && ps[r.value].param == param
    ensures r.Some? <==> param in Params(ps, n)
  {
    if n == 0 then None
    else if ps[n - 1].param == param then Some(n - 1)
    else Find(ps, n - 1, param)
  }

  lemma {:induction false} InParams(ps: seq<Pointer>, n: nat, i: nat)
    requires i < n <= |ps|
    ensures ps[i].param in Params(ps, n)
  {
    if i < n - 1 {
      InParams(ps, n - 1, i);
    }
  }

  /** The pointers in the order of the map that holds them. */
  ghost predicate IsOrderOf(ps: seq<Pointer>, pointers: map<ParamPath, ParamPath>) {
    && Ascending(ps)
    && Params(ps, |ps|) == pointers.Keys
    && forall i :: 0 <= i < |ps| ==> ps[i].param in pointers && pointers[ps[i].param] == ps[i].target
  }

  /** Separates the pointer parameters from those with content of their own. */
  method SplitPointersMap(json: map<ParamPath, SerializedContent>)
    returns (config: map<ParamPath, SerializedContent>, pointers: map<ParamPath, ParamPath>)
    ensures config.Keys + pointers.Keys == json.Keys && config.Keys !! pointers.Keys
    ensures forall k <- config :: config[k] == json[k] && !json[k].PointerTarget?
    ensures forall k <- pointers :: json[k] == PointerTarget(pointers[k])
  {
    config, pointers := map[], map[];
    var left := json.Keys;
    while left != {}
      invariant left <= json.Keys && left !! (config.Keys + pointers.Keys)
      invariant left + config.Keys + pointers.Keys == json.Keys
      invariant forall k <- config :: k in json && config[k] == json[k] && !json[k].PointerTarget?
      invariant forall k <- pointers :: k in json && json[k] == PointerTarget(pointers[k])
      decreases left
    {
      var k :| k in left;
      left := left - {k};
      match json[k] {
        case PointerTarget(target) => pointers := pointers[k := target];
        case _ => config := config[k := json[k]];
      }
    }
  }

  /** The strings differ first at place `i`, where `a` has the smaller character or ends. */
  ghost predicate SmallerAt(a: string, b: string, i: nat) {
    && i <= |a| && i < |b| && a[..i] == b[..i]
    && (i < |a| ==> a[i] < b[i])
  }

  /** The order of strings is the order of the first place where they differ. */
  lemma {:induction false} LessIff(a: string, b: string)
    ensures Less(a, b) <==> exists i: nat :: SmallerAt(a, b, i)
  {
    if b != "" {
      if a == "" {
        assert SmallerAt(a, b, 0);
      } else if a[0] != b[0] {
        if Less(a, b) {
          assert SmallerAt(a, b, 0);
        }
        forall i: nat | SmallerAt(a, b, i) ensures i == 0 {
        }
      } else {
        LessIff(a[1..], b[1..]);
        forall i: nat ensures SmallerAt(a[1..], b[1..], i) <==> SmallerAt(a, b, i + 1) {
          SmallerInTail(a, b, i);
        }
        if i: nat :| SmallerAt(a, b, i) {
          assert SmallerAt(a[1..], b[1..], i - 1);
        }
      }
    }
  }

  lemma {:induction false} SmallerInTail(a: string, b: string, i: nat)
    requires a != "" && b != "" && a[0] == b[0]
    ensures SmallerAt(a[1..], b[1..], i) <==> SmallerAt(a, b, i + 1)
  {
    if i + 1 <= |a| && i + 1 <= |b| {
      assert a[..i + 1] == [a[0]] + a[1..][..i] && b[..i + 1] == [b[0]] + b[1..][..i];
    }
  }

  lemma {:induction false} LessAsymmetric(a: string, b: string)
    ensures !(Less(a, b) && Less(b, a))
  {
    if a != "" && b != "" && a[0] == b[0] {
      LessAsymmetric(a[1..], b[1..]);
    }
  }

  lemma {:induction false} LessTotal(a: string, b: string)
    ensures a == b || Less(a, b) || Less(b, a)
  {
    if a != "" && b != "" && a[0] == b[0] {
      LessTotal(a[1..], b[1..]);
      assert a == [a[0]] + a[1..] && b == [b[0]] + b[1..];
    }
  }

  lemma {:induction false} LessTransitive(a: string, b: string, c: string)
    requires Less(a, b) && Less(b, c)
    ensures Less(a, c)
  {
    if a != "" && a[0] == b[0] == c[0] {
      LessTransitive(a[1..], b[1..], c[1..]);
    }
  }

  method Least(keys: set<ParamPath>) returns (k: ParamPath)
    requires keys != {}
    ensures k in keys && forall j <- keys :: j == k || Less(k, j)
  {
    k :| k in keys;
    var left := keys - {k};
    while left != {}
      invariant left <= keys && k in keys
      invariant forall j <- keys :: j in left || j == k || Less(k, j)
      decreases left
    {
      var j :| j in left;
      left := left - {j};
      LessTotal(j, k);
      if Less(j, k) {
        forall i <- keys | Less(k, i) ensures Less(j, i) {
          LessTransitive(j, k, i);
        }
        k := j;
      }
    }
  }

  /** Iteration over an ordered map. */
  method OrderedEntries(pointers: map<ParamPath, ParamPath>) returns (ps: seq<Pointer>)
    ensures IsOrderOf(ps, pointers)
  {
    ps := [];
    var left := pointers.Keys;
    while left != {}
      invariant left <= pointers.Keys && Ascending(ps)
      invariant forall i, k :: 0 <= i < |ps| && k in left ==> Less(ps[i].param, k)
      invariant Params(ps, |ps|) + left == pointers.Keys
      invariant forall i :: 0 <= i < |ps| ==> ps[i].param in pointers && pointers[ps[i].param] == ps[i].target
      decreases left
    {
      var k := Least(left);
      ParamsSnoc(ps, Pointer(k, pointers[k]));
      ps := ps + [Pointer(k, pointers[k])];
      left := left - {k};
    }
  }

  lemma {:induction false} ParamsOfPrefix(ps: seq<Pointer>, p: Pointer, n: nat)
    requires n <= |ps|
    ensures Params(ps + [p], n) == Params(ps, n)
  {
    if n > 0 {
      ParamsOfPrefix(ps, p, n - 1);
    }
  }

  lemma {:induction false} ParamsSnoc(ps: seq<Pointer>, p: Pointer)
    ensures Params(ps + [p], |ps| + 1) == Params(ps, |ps|) + {p.param}
  {
    ParamsOfPrefix(ps, p, |ps|);
  }

  /** A target has a value when its turn comes: it is stored, or is a pointer that sorts before. */
  ghost predicate Resolvable(m: ConfigMap, ps: seq<Pointer>, i: nat)
    requires i < |ps|
  {
    ps[i].target in m || (ps[i].target in Params(ps, |ps|) && Less(ps[i].target, ps[i].param))
  }

  /** The first `n` pointers have the values of their targets, and nothing stored has changed. */
  ghost predicate IsResolution(m: ConfigMap, ps: seq<Pointer>, n: nat, result: ConfigMap)
    requires n <= |ps|
  {
    && result.Keys == m.Keys + Params(ps, n)
    && (forall i :: 0 <= i < n ==>
          ps[i].param in result && ps[i].target in result && result[ps[i].param] == result[ps[i].target])
    && (forall k <- m :: result[k] == m[k])
  }

  lemma {:induction false} SortsBefore(ps: seq<Pointer>, i: nat, target: ParamPath)
    requires Ascending(ps) && i < |ps|
    ensures target in Params(ps, i) <==> target in Params(ps, |ps|) && Less(target, ps[i].param)
  {
    if target in Params(ps, i) {
      InParams(ps, |ps|, Find(ps, i, target).value);
    }
    if target in Params(ps, |ps|) && Less(target, ps[i].param) {
      var j := Find(ps, |ps|, target).value;
      LessAsymmetric(ps[j].param, ps[i].param);
      InParams(ps, i, j);
    }
  }

  lemma {:induction false} ResolveStep(m: ConfigMap, ps: seq<Pointer>, i: nat, result: ConfigMap)
    requires Ascending(ps) && i < |ps| && m.Keys !! Params(ps, |ps|)
    requires IsResolution(m, ps, i, result) && ps[i].target in result
    ensures IsResolution(m, ps, i + 1, result[ps[i].param := result[ps[i].target]])
  {
    InParams(ps, |ps|, i);
    LessAsymmetric(ps[i].param, ps[i].param);
    SortsBefore(ps, i, ps[i].param);
    assert ps[i].param !in result;
  }

  /** Gives each pointer its target's value, in the order of the pointer map. */
  method UpdateByPointers(m: ConfigMap, ps: seq<Pointer>) returns (r: Result<ConfigMap, ConfigError>)
    requires Ascending(ps) && m.Keys !! Params(ps, |ps|)
    ensures r.Ok? <==> forall i :: 0 <= i < |ps| ==> Resolvable(m, ps, i)
    ensures r.Ok? ==> IsResolution(m, ps, |ps|, r.value)
    ensures r.Err? ==>
              exists i :: 0 <= i < |ps| && !Resolvable(m, ps, i) && r.error == PointerTargetNotFound(ps[i].target)
                          && forall j :: 0 <= j < i ==> Resolvable(m, ps, j)
  {
    var config := m;
    for i := 0 to |ps|
      invariant IsResolution(m, ps, i, config)
      invariant forall j :: 0 <= j < i ==> Resolvable(m, ps, j)
    {
      SortsBefore(ps, i, ps[i].target);
      if ps[i].target !in config {
        assert !Resolvable(m, ps, i);
        return Err(PointerTargetNotFound(ps[i].target));
      }
      ResolveStep(m, ps, i, config);
      config := config[ps[i].param := config[ps[i].target]];
    }
    r := Ok(config);
  }

  /** The stored parameter at the end of a chain of pointers. */
  ghost function Root(m: ConfigMap, ps: seq<Pointer>, i: nat): ParamPath
    requires i < |ps|
    decreases i
  {
    var earlier := Find(ps, i, ps[i].target);
    if ps[i].target in m || earlier.None? then ps[i].target else Root(m, ps, earlier.value)
  }

  /** Through any chain of pointers, a parameter ends with the value of the stored one at its end. */
  lemma {:induction false} ChainEndsAtRoot(m: ConfigMap, ps: seq<Pointer>, result: ConfigMap, i: nat)
    requires Ascending(ps) && i < |ps| && IsResolution(m, ps, |ps|, result)
    requires forall j :: 0 <= j < |ps| ==> Resolvable(m, ps, j)
    ensures Root(m, ps, i) in m && result[ps[i].param] == m[Root(m, ps, i)]
    decreases i
  {
    assert Resolvable(m, ps, i);
    if ps[i].target !in m {
      SortsBefore(ps, i, ps[i].target);
      ChainEndsAtRoot(m, ps, result, Find(ps, i, ps[i].target).value);
    }
  }

  /** The final values are determined by the stored values and the pointers. */
  lemma {:induction false} ResolutionIsUnique(m: ConfigMap, ps: seq<Pointer>, a: ConfigMap, b: ConfigMap)
    requires Ascending(ps) && forall i :: 0 <= i < |ps| ==> Resolvable(m, ps, i)
    requires IsResolution(m, ps, |ps|, a) && IsResolution(m, ps, |ps|, b)
    ensures a == b
  {
    forall k <- a ensures a[k] == b[k] {
      if k !in m {
        var i := Find(ps, |ps|, k).value;
        ChainEndsAtRoot(m, ps, a, i);
        ChainEndsAtRoot(m, ps, b, i);
      }
    }
  }

  // ----- Optional values -----

  const MARK: string := ".#is_none"

  predicate IsMark(k: ParamPath) {
    |k| >= |MARK| && k[|k| - |MARK|..] == MARK
  }

  /** The optional parameter that a mark is about. */
  function Stem(k: ParamPath): ParamPath
    requires IsMark(k)
  {
    k[..|k| - |MARK|]
  }

  function OptionalParams(m: ConfigMap): set<ParamPath> {
    set k | k in m && IsMark(k) :: Stem(k)
  }

  function NoneParams(m: ConfigMap): set<ParamPath> {
    set k | k in m && IsMark(k) && m[k] == Bool(true) :: Stem(k)
  }

  /** A parameter is None exactly when its mark is there and says true. */
  lemma {:induction false} NoneParamIff(m: ConfigMap, p: ParamPath)
    ensures p in NoneParams(m) <==> p + ".#is_none" in m && m[p + ".#is_none"] == Bool(true)
    ensures p in OptionalParams(m) <==> p + ".#is_none" in m
  {
    var k := p + MARK;
    assert k[|k| - |MARK|..] == MARK && k[..|k| - |MARK|] == p;
    forall j | IsMark(j) && Stem(j) == p ensures j == k {
      assert j == j[..|j| - |MARK|] + j[|j| - |MARK|..];
    }
  }

  /** Some None parameter is a string prefix of the key. */
  predicate Covered(nones: set<ParamPath>, k: ParamPath) {
    exists n <- nones :: n <= k
  }

  /** Some other None parameter is a string prefix of the parameter. */
  predicate Nested(nones: set<ParamPath>, n: ParamPath) {
    exists o <- nones :: o <= n && o != n
  }

  /** The None parameters that are not nested in another. */
  function Outermost(nones: set<ParamPath>): set<ParamPath> {
    set n | n in nones && !Nested(nones, n)
  }

  function NullAt(params: set<ParamPath>): ConfigMap {
    map n | n in params :: Null
  }

  function Uncovered(m: ConfigMap, nones: set<ParamPath>): ConfigMap {
    map k | k in m && !Covered(nones, k) :: m[k]
  }

  function WithoutMarks(m: ConfigMap): ConfigMap {
    map k | k in m && !IsMark(k) :: m[k]
  }

  /** What `update_optional_values` leaves. */
  function OptionalValues(m: ConfigMap): ConfigMap {
    Uncovered(WithoutMarks(m), NoneParams(m)) + NullAt(Outermost(NoneParams(m)))
  }

  /** Takes the marks out of the map; returns the parameters marked as None. */
  method RemoveMarks(m: ConfigMap) returns (config: ConfigMap, nones: set<ParamPath>)
    ensures config == WithoutMarks(m)
    ensures nones == NoneParams(m)
  {
    config, nones := m, {};
    var left := set k | k in m && IsMark(k);
    ghost var done: set<ParamPath> := {};
    while left != {}
      invariant left + done == (set k | k in m && IsMark(k)) && left !! done
      invariant config == map k | k in m && k !in done :: m[k]
      invariant nones == set k | k in done && k in m && IsMark(k) && m[k] == Bool(true) :: Stem(k)
      decreases left
    {
      var k :| k in left;
      left, done := left - {k}, done + {k};
      var value := config[k];
      config := config - {k};
      if value == Bool(true) {
        nones := nones + {Stem(k)};
      }
    }
  }

  lemma NullStep(kept: ConfigMap, done: set<ParamPath>, n: ParamPath)
    ensures (kept + NullAt(done))[n := Null] == kept + NullAt(done + {n})
  {
  }

  method SetNulls(kept: ConfigMap, nones: set<ParamPath>) returns (config: ConfigMap)
    ensures config == kept + NullAt(Outermost(nones))
  {
    config := kept;
    var left := nones;
    ghost var done: set<ParamPath> := {};
    while left != {}
      invariant left <= nones && done == Outermost(nones) - left
      invariant config == kept + NullAt(done)
      decreases left
    {
      var n :| n in left;
      left := left - {n};
      if Nested(nones, n) {
        continue;
      }
      NullStep(kept, done, n);
      done := done + {n};
      config := config[n := Null];
    }
    assert done == Outermost(nones);
  }

  method UpdateOptionalValues(m: ConfigMap) returns (config: ConfigMap)
    ensures config == OptionalValues(m)
  {
    var kept, nones := RemoveMarks(m);
    config := SetNulls(Uncovered(kept, nones), nones);
  }

  // ----- What the optional values come to -----

  /** A dump: marks aside, no parameter lies inside another, and no optional part lies inside one. */
  ghost predicate IsDump(m: ConfigMap) {
    && PrefixFree(WithoutMarks(m).Keys)
    && forall k <- WithoutMarks(m), p <- OptionalParams(m) :: !PathPrefix(k, p)
  }

  /** Null stands at the outermost None parameters; every other key keeps its value and avoids all of them. */
  lemma OptionalValueAt(m: ConfigMap, k: ParamPath)
    ensures k in Outermost(NoneParams(m)) ==> k in OptionalValues(m) && OptionalValues(m)[k] == Null
    ensures k !in Outermost(NoneParams(m)) ==>
              && (k in OptionalValues(m) <==> k in m && !IsMark(k) && forall n <- NoneParams(m) :: !(n <= k))
              && (k in OptionalValues(m) ==> OptionalValues(m)[k] == m[k])
  {
  }

  /** A None parameter is outermost exactly when no other None parameter is a string prefix of it. */
  lemma {:induction false} OutermostIff(m: ConfigMap, n: ParamPath)
    ensures n in Outermost(NoneParams(m)) <==>
            && n + ".#is_none" in m && m[n + ".#is_none"] == Bool(true)
            && forall o: ParamPath :: o + ".#is_none" in m && m[o + ".#is_none"] == Bool(true) && o <= n ==> o == n
  {
    NoneParamIff(m, n);
    forall o: ParamPath ensures o in NoneParams(m) <==> o + ".#is_none" in m && m[o + ".#is_none"] == Bool(true) {
      NoneParamIff(m, o);
    }
  }

  lemma PathPrefixIsPrefix(a: ParamPath, b: ParamPath)
    requires PathPrefix(a, b)
    ensures a <= b && a != b
  {
    assert a <= a + "." <= b;
  }

  /** From a dump, the optional values leave no parameter inside another. */
  lemma {:induction false} OptionalValuesPrefixFree(m: ConfigMap)
    requires IsDump(m)
    ensures PrefixFree(OptionalValues(m).Keys)
  {
    var nones := NoneParams(m);
    forall a <- OptionalValues(m).Keys, b <- OptionalValues(m).Keys ensures !PathPrefix(a, b) {
      OptionalValueAt(m, a);
      OptionalValueAt(m, b);
      if PathPrefix(a, b) {
        PathPrefixIsPrefix(a, b);
      }
    }
  }

  /** No mark is left exactly when no outermost None parameter is itself named like a mark. */
  lemma NoMarksLeftIff(m: ConfigMap)
    ensures (forall k <- OptionalValues(m) :: !IsMark(k)) <==> (forall n <- Outermost(NoneParams(m)) :: !IsMark(n))
  {
    forall k ensures k in OptionalValues(m) && k !in Outermost(NoneParams(m)) ==> !IsMark(k) {
      OptionalValueAt(m, k);
    }
    forall n <- Outermost(NoneParams(m)) ensures n in OptionalValues(m) {
      OptionalValueAt(m, n);
    }
  }

  /** An optional parameter that is itself named like a mark: the mark stays as a key. */
  lemma MarkIsLeft()
    ensures var m := map["a" + MARK + MARK := Bool(true)];
            IsDump(m) && "a" + MARK in OptionalValues(m) && IsMark("a" + MARK)
  {
    var k := "a" + MARK + MARK;
    var m := map[k := Bool(true)];
    assert IsMark(k) && Stem(k) == "a" + MARK;
    assert k in m;
    assert NoneParams(m) == {"a" + MARK};
    OptionalValueAt(m, "a" + MARK);
  }

  // ----- String prefixes against path prefixes -----

  /** The key is a None parameter or lies inside one. */
  predicate InsideNone(nones: set<ParamPath>, k: ParamPath) {
    exists n <- nones :: n == k || PathPrefix(n, k)
  }

  predicate PathNested(nones: set<ParamPath>, n: ParamPath) {
    exists o <- nones :: PathPrefix(o, n)
  }

  /** What the optional values are meant to be: only what lies inside a None parameter goes. */
  function IntendedValues(m: ConfigMap): ConfigMap {
    var nones := NoneParams(m);
    (map k | k in WithoutMarks(m) && !InsideNone(nones, k) :: m[k])
    + NullAt(set n | n in nones && !PathNested(nones, n))
  }

  lemma InsideIsCovered(nones: set<ParamPath>, k: ParamPath)
    ensures InsideNone(nones, k) ==> Covered(nones, k)
    ensures PathNested(nones, k) ==> Nested(nones, k)
  {
    forall n <- nones | PathPrefix(n, k) ensures n <= k && n != k {
      PathPrefixIsPrefix(n, k);
    }
  }

  /** Whatever has a None parameter as a string prefix really lies inside a None parameter. */
  ghost predicate NoLookalikes(m: ConfigMap) {
    var nones := NoneParams(m);
    && (forall k <- WithoutMarks(m) :: Covered(nones, k) ==> InsideNone(nones, k))
    && (forall n <- nones :: Nested(nones, n) ==> PathNested(nones, n))
  }

  lemma {:induction false} LookalikesDiffer(m: ConfigMap, k: ParamPath)
    requires var nones := NoneParams(m);
             || (k in WithoutMarks(m) && Covered(nones, k) && !InsideNone(nones, k))
             || (k in nones && Nested(nones, k) && !PathNested(nones, k))
    ensures k in IntendedValues(m) && k !in OptionalValues(m)
  {
    OptionalValueAt(m, k);
    InsideIsCovered(NoneParams(m), k);
  }

  /** The code drops exactly what is meant to be dropped when no key merely looks like being inside. */
  lemma {:induction false} DropsAsIntendedIff(m: ConfigMap)
    ensures OptionalValues(m) == IntendedValues(m) <==> NoLookalikes(m)
  {
    var nones := NoneParams(m);
    if NoLookalikes(m) {
      forall k ensures InsideNone(nones, k) ==> Covered(nones, k) {
        InsideIsCovered(nones, k);
      }
      forall n ensures PathNested(nones, n) ==> Nested(nones, n) {
        InsideIsCovered(nones, n);
      }
      assert Outermost(nones) == set n | n in nones && !PathNested(nones, n);
    } else if k :| k in WithoutMarks(m) && Covered(nones, k) && !InsideNone(nones, k) {
      LookalikesDiffer(m, k);
    } else {
      var n :| n in nones && Nested(nones, n) && !PathNested(nones, n);
      LookalikesDiffer(m, n);
    }
  }

  /** A parameter whose name merely starts with that of a None parameter is lost. */
  lemma SiblingIsLost(v: Value)
    ensures var m := map["a" + MARK := Bool(true), "ab" := v];
            "ab" in IntendedValues(m) && "ab" !in OptionalValues(m)
  {
    var m := map["a" + MARK := Bool(true), "ab" := v];
    assert IsMark("a" + MARK) && Stem("a" + MARK) == "a";
    assert "a" + MARK in m;
    assert NoneParams(m) == {"a"};
    assert "a" <= "ab";
    assert Covered(NoneParams(m), "ab");
    assert !PathPrefix("a", "ab") by {
      assert ("a" + ".")[1] == '.' && "ab"[1] == 'b';
    }
    LookalikesDiffer(m, "ab");
  }

  // ----- Loading -----

  datatype LoadError = Refused(error: ConfigError) | Panicked

  /** Builds the nested tree; returns none where mutable indexing panics. */
  method Load(m: ConfigMap) returns (tree: Option<Value>)
    ensures NoObjects(m) ==> (tree.Some? && ReadsBack(tree.value, m) <==> PrefixFree(m.Keys))
    ensures NoObjects(m) && PrefixFree(m.Keys) ==> LeavesAre(tree.value, m)
  {
    var nested := Object(map[]);
    var left := m.Keys;
    ghost var done: ConfigMap := map[];
    EmptyTree();
    while left != {}
      invariant left <= m.Keys && done == map k | k in m && k !in left :: m[k]
      invariant NoObjects(m) && PrefixFree(m.Keys) ==> ReadsBack(nested, done) && LeavesAre(nested, done)
      decreases left
    {
      var k :| k in left;
      left := left - {k};
      if NoObjects(m) && PrefixFree(m.Keys) {
        LoadStep(nested, done, k, m[k]);
      }
      var next := Insert(nested, Split(k), m[k]);
      if next.None? {
        return None;
      }
      done := done[k := m[k]];
      nested := next.value;
    }
    assert done == m;
    if ReadsBack(nested, m) && NoObjects(m) {
      ReadsBackOnlyPrefixFree(nested, m);
    }
    tree := Some(nested);
  }

  lemma EmptyTree()
    ensures LeavesAre(Object(map[]), map[])
  {
    forall path | Get(Object(map[]), path).Some? ensures Get(Object(map[]), path).value.Object? {
    }
  }

  // ----- From the dump to the tree -----

  function TypeOf(content: SerializedContent): Option<SerializationType> {
    match content
    case PointerTarget(_) => None
    case ParamType(t) => Some(t)
    case DefaultValue(v) =>
      match v
      case Bool(_) => Some(Boolean)
      case Integer(n) => Some(if n >= 0 then PositiveInteger else NegativeInteger)
      case Float(_) => Some(FloatNumber)
      case Text(_) => Some(String)
      case _ => None
  }

  /** The parameters that have a type, with or without a value. */
  function Types(json: map<ParamPath, SerializedContent>): map<ParamPath, SerializationType> {
    map k | k in json && TypeOf(json[k]).Some? :: TypeOf(json[k]).value
  }

  function Defaults(json: map<ParamPath, SerializedContent>): ConfigMap {
    map k | k in json && json[k].DefaultValue? && TypeOf(json[k]).Some? :: json[k].value
  }

  function PointersOf(json: map<ParamPath, SerializedContent>): map<ParamPath, ParamPath> {
    map k | k in json && json[k].PointerTarget? :: json[k].target
  }

  predicate Matches(t: SerializationType, v: Value) {
    match t
    case Boolean => v.Bool?
    case String => v.Text?
    case _ => v.Integer? || v.Float?
  }

  /** A custom value for a parameter. */
  datatype Override = Override(path: ParamPath, value: Value)

  predicate Allowed(types: map<ParamPath, SerializationType>, o: Override) {
    o.path in types && Matches(types[o.path], o.value)
  }

  /** Why an override is refused: its parameter is unknown, or of another type. */
  ghost predicate RefusalOf(types: map<ParamPath, SerializationType>, o: Override, e: ConfigError) {
    if o.path in types then e == ChangeRequiredParamType(o.path, types[o.path]) else e == ParamNotFound(o.path)
  }

  ghost predicate FirstRefused(types: map<ParamPath, SerializationType>, overrides: seq<Override>, i: nat) {
    i < |overrides| && !Allowed(types, overrides[i]) && forall j :: 0 <= j < i ==> Allowed(types, overrides[j])
  }

  /** The values with the overrides in force, the last one for a parameter counting. */
  function Overridden(values: ConfigMap, overrides: seq<Override>): ConfigMap {
    if overrides == [] then values
    else
      var last := overrides[|overrides| - 1];
      Overridden(values, overrides[..|overrides| - 1])[last.path := last.value]
  }

  /** Override `i` is the last one that names `k`. */
  ghost predicate LastFor(overrides: seq<Override>, k: ParamPath, i: nat) {
    i < |overrides| && overrides[i].path == k && forall j :: i < j < |overrides| ==> overrides[j].path != k
  }

  ghost predicate NoneFor(overrides: seq<Override>, k: ParamPath) {
    forall j :: 0 <= j < |overrides| ==> overrides[j].path != k
  }

  /** The value of a parameter is that of the last override that names it, and otherwise what it was. */
  ghost predicate InForce(values: ConfigMap, overrides: seq<Override>, result: ConfigMap, k: ParamPath) {
    && (forall i: nat :: LastFor(overrides, k, i) ==> k in result && result[k] == overrides[i].value)
    && (NoneFor(overrides, k) ==> (k in result <==> k in values) && (k in values ==> result[k] == values[k]))
  }

  lemma {:induction false} NoneForSnoc(overrides: seq<Override>, k: ParamPath)
    requires overrides != []
    ensures var n := |overrides| - 1;
            NoneFor(overrides, k) <==> overrides[n].path != k && NoneFor(overrides[..n], k)
  {
    var n := |overrides| - 1;
    assert forall j :: 0 <= j < n ==> overrides[..n][j] == overrides[j];
  }

  lemma {:induction false} LastForSnoc(overrides: seq<Override>, k: ParamPath, i: nat)
    requires overrides != []
    ensures var n := |overrides| - 1;
            LastFor(overrides, k, i) <==> if overrides[n].path == k then i == n else LastFor(overrides[..n], k, i)
  {
    var n := |overrides| - 1;
    assert forall j :: 0 <= j < n ==> overrides[..n][j] == overrides[j];
  }

  /** Every parameter is named by no override or has a last one that names it. */
  lemma {:induction false} LastForExists(overrides: seq<Override>, k: ParamPath)
    ensures NoneFor(overrides, k) || exists i: nat :: LastFor(overrides, k, i)
  {
    if overrides != [] {
      var n := |overrides| - 1;
      LastForExists(overrides[..n], k);
      NoneForSnoc(overrides, k);
      LastForSnoc(overrides, k, n);
      if i: nat :| LastFor(overrides[..n], k, i) {
        LastForSnoc(overrides, k, i);
      }
    }
  }

  lemma {:induction false} OverriddenAt(values: ConfigMap, overrides: seq<Override>, k: ParamPath)
    ensures InForce(values, overrides, Overridden(values, overrides), k)
    ensures NoneFor(overrides, k) || exists i: nat :: LastFor(overrides, k, i)
  {
    LastForExists(overrides, k);
    if overrides != [] {
      OverriddenAt(values, overrides[..|overrides| - 1], k);
      NoneForSnoc(overrides, k);
      forall i: nat | LastFor(overrides, k, i)
        ensures k in Overridden(values, overrides) && Overridden(values, overrides)[k] == overrides[i].value
      {
        LastForSnoc(overrides, k, i);
      }
    }
  }

  predicate IsNumber(v: Value) {
    v.Integer? || v.Float?
  }

  /** An override is allowed for a parameter of its kind: by its declared type, or by its default value. */
  lemma {:induction false} AllowedIff(json: map<ParamPath, SerializedContent>, o: Override)
    ensures Allowed(Types(json), o) <==>
            && o.path in json
            && match json[o.path]
               case PointerTarget(_) => false
               case ParamType(t) =>
                 if t == Boolean then o.value.Bool? else if t == String then o.value.Text? else IsNumber(o.value)
               case DefaultValue(v) =>
                 (v.Bool? && o.value.Bool?) || (v.Text? && o.value.Text?) || (IsNumber(v) && IsNumber(o.value))
  {
  }

  /** The type of a parameter with an integer default says whether the integer is negative. */
  lemma {:induction false} IntegerTypes(json: map<ParamPath, SerializedContent>, k: ParamPath)
    requires k in json && json[k].DefaultValue? && json[k].value.Integer?
    ensures k in Types(json)
    ensures Types(json)[k] == NegativeInteger <==> json[k].value.n < 0
    ensures Types(json)[k] == PositiveInteger <==> json[k].value.n >= 0
  {
  }

  /** The values before any override: the default values that are numbers, texts or booleans. */
  lemma {:induction false} DefaultAt(json: map<ParamPath, SerializedContent>, k: ParamPath, v: Value)
    ensures k in Defaults(json) && Defaults(json)[k] == v <==>
            k in json && json[k] == DefaultValue(v) && (v.Bool? || v.Text? || IsNumber(v))
  {
  }

  /** Custom files and arguments, in their order; the first that is not allowed ends the loading. */
  method UpdateConfigMap(values: ConfigMap, types: map<ParamPath, SerializationType>, overrides: seq<Override>)
    returns (r: Result<ConfigMap, ConfigError>)
    ensures r.Ok? <==> forall o <- overrides :: Allowed(types, o)
    ensures r.Ok? ==> r.value == Overridden(values, overrides)
    ensures r.Ok? ==> forall k :: InForce(values, overrides, r.value, k)
    ensures r.Err? ==> exists i: nat :: FirstRefused(types, overrides, i) && RefusalOf(types, overrides[i], r.error)
  {
    var config := values;
    for i := 0 to |overrides|
      invariant config == Overridden(values, overrides[..i])
      invariant forall o <- overrides[..i] :: Allowed(types, o)
      invariant forall j :: 0 <= j < i ==> Allowed(types, overrides[j])
    {
      var o := overrides[i];
      assert o in overrides && overrides[..i + 1] == overrides[..i] + [o] && overrides[..i + 1][..i] == overrides[..i];
      assert !Allowed(types, o) ==> FirstRefused(types, overrides, i);
      if o.path !in types {
        return Err(ParamNotFound(o.path));
      }
      if !Matches(types[o.path], o.value) {
        return Err(ChangeRequiredParamType(o.path, types[o.path]));
      }
      config := config[o.path := o.value];
    }
    assert overrides[..|overrides|] == overrides;
    forall k ensures InForce(values, overrides, config, k) {
      OverriddenAt(values, overrides, k);
    }
    r := Ok(config);
  }

  /** Overrides only reach parameters with a type, so never a pointer, and never bring an object. */
  lemma {:induction false} OverriddenIsFlat(json: map<ParamPath, SerializedContent>, overrides: seq<Override>)
    requires forall o <- overrides :: Allowed(Types(json), o)
    ensures NoObjects(Overridden(Defaults(json), overrides))
    ensures Overridden(Defaults(json), overrides).Keys !! PointersOf(json).Keys
  {
    if overrides != [] {
      var init := overrides[..|overrides| - 1];
      assert overrides[|overrides| - 1] in overrides && forall o <- init :: o in overrides;
      OverriddenIsFlat(json, init);
    }
  }

  lemma {:induction false} ResolutionHasNoObjects(m: ConfigMap, ps: seq<Pointer>, result: ConfigMap)
    requires Ascending(ps) && NoObjects(m) && IsResolution(m, ps, |ps|, result)
    requires forall i :: 0 <= i < |ps| ==> Resolvable(m, ps, i)
    ensures NoObjects(result)
  {
    forall k <- result ensures !result[k].Object? {
      if k !in m {
        ChainEndsAtRoot(m, ps, result, Find(ps, |ps|, k).value);
      }
    }
  }

  /** The value that the overrides and the defaults give a parameter of its own. */
  ghost predicate Configured(json: map<ParamPath, SerializedContent>, overrides: seq<Override>, k: ParamPath, v: Value) {
    || (exists i: nat :: LastFor(overrides, k, i) && overrides[i].value == v)
    || (NoneFor(overrides, k) && k in json && json[k] == DefaultValue(v) && (v.Bool? || v.Text? || IsNumber(v)))
  }

  /** The parameter is no mark and no None parameter is a string prefix of it. */
  ghost predicate Kept(resolved: ConfigMap, k: ParamPath) {
    !IsMark(k) && forall n <- NoneParams(resolved) :: !(n <= k)
  }

  /** A configured value is the one after the overrides, and no pointer's. */
  lemma {:induction false} ConfiguredIs(json: map<ParamPath, SerializedContent>, overrides: seq<Override>, k: ParamPath, v: Value)
    requires Configured(json, overrides, k, v)
    ensures var values := Overridden(Defaults(json), overrides);
            k in values && values[k] == v
  {
    OverriddenAt(Defaults(json), overrides, k);
    if NoneFor(overrides, k) {
      DefaultAt(json, k, v);
    }
  }

  /** A kept parameter of the resolved values reads its value from the tree. */
  lemma {:induction false} KeptReadsBack(resolved: ConfigMap, tree: Value, k: ParamPath)
    requires ReadsBack(tree, OptionalValues(resolved)) && k in resolved && Kept(resolved, k)
    ensures Get(tree, Split(k)) == Some(resolved[k])
  {
    assert k <= k;
    OptionalValueAt(resolved, k);
  }

  /**
   What the tree holds: at every kept parameter its configured value, and at every kept pointer the
   configured value of the parameter at the end of its chain.
   */
  ghost predicate HoldsConfigured(json: map<ParamPath, SerializedContent>, overrides: seq<Override>, ps: seq<Pointer>,
                                  resolved: ConfigMap, tree: Value) {
    var values := Overridden(Defaults(json), overrides);
    && (forall k, v | Configured(json, overrides, k, v) && Kept(resolved, k) :: Get(tree, Split(k)) == Some(v))
    && (forall i: nat, v | i < |ps| && Kept(resolved, ps[i].param) && Configured(json, overrides, Root(values, ps, i), v) ::
          Get(tree, Split(ps[i].param)) == Some(v))
  }

  lemma {:induction false} TreeHoldsConfigured(json: map<ParamPath, SerializedContent>, overrides: seq<Override>,
                                               ps: seq<Pointer>, resolved: ConfigMap, tree: Value)
    requires var values := Overridden(Defaults(json), overrides);
             Ascending(ps) && IsResolution(values, ps, |ps|, resolved) && forall i :: 0 <= i < |ps| ==> Resolvable(values, ps, i)
    requires ReadsBack(tree, OptionalValues(resolved))
    ensures HoldsConfigured(json, overrides, ps, resolved, tree)
  {
    var values := Overridden(Defaults(json), overrides);
    forall k, v | Configured(json, overrides, k, v) && Kept(resolved, k) ensures Get(tree, Split(k)) == Some(v) {
      ConfiguredIs(json, overrides, k, v);
      KeptReadsBack(resolved, tree, k);
    }
    forall i: nat, v | i < |ps| && Kept(resolved, ps[i].param) && Configured(json, overrides, Root(values, ps, i), v)
      ensures Get(tree, Split(ps[i].param)) == Some(v)
    {
      ChainEndsAtRoot(values, ps, resolved, i);
      ConfiguredIs(json, overrides, Root(values, ps, i), v);
      KeptReadsBack(resolved, tree, ps[i].param);
    }
  }

  /**
   Splits off the pointers, applies the overrides, resolves the pointers, sets the optional values
   and builds the tree. `resolved` are the values after the pointers, `ps` the order of the pointers.
   */
  method ProcessConfig(json: map<ParamPath, SerializedContent>, overrides: seq<Override>)
    returns (r: Result<Value, LoadError>, ghost ps: seq<Pointer>, ghost resolved: ConfigMap)
    ensures IsOrderOf(ps, PointersOf(json))
    ensures !(forall o <- overrides :: Allowed(Types(json), o)) ==>
              && r.Err? && r.error.Refused?
              && exists i: nat :: FirstRefused(Types(json), overrides, i) && RefusalOf(Types(json), overrides[i], r.error.error)
    ensures (forall o <- overrides :: Allowed(Types(json), o)) ==>
              var values := Overridden(Defaults(json), overrides);
              if forall i :: 0 <= i < |ps| ==> Resolvable(values, ps, i) then
                && IsResolution(values, ps, |ps|, resolved)
                && (IsDump(resolved) ==> r.Ok? && ReadsBack(r.value, OptionalValues(resolved)))
                && (r.Ok? && ReadsBack(r.value, OptionalValues(resolved))
                    <==> PrefixFree(OptionalValues(resolved).Keys))
                && (PrefixFree(OptionalValues(resolved).Keys) ==> HoldsConfigured(json, overrides, ps, resolved, r.value))
              else r.Err? && r.error.Refused? && r.error.error.PointerTargetNotFound?
  {
    resolved := map[];
    var config, pointers := SplitPointersMap(json);
    SplitIsPointersOf(json, config, pointers);
    var order := OrderedEntries(pointers);
    ps := order;
    var values := UpdateConfigMap(Defaults(config), Types(config), overrides);
    if values.Err? {
      return Err(Refused(values.error)), ps, resolved;
    }
    OverriddenIsFlat(json, overrides);
    var pointed := UpdateByPointers(values.value, order);
    if pointed.Err? {
      return Err(Refused(pointed.error)), ps, resolved;
    }
    resolved := pointed.value;
    ResolutionHasNoObjects(values.value, ps, resolved);
    r := LoadFlat(pointed.value);
    if PrefixFree(OptionalValues(resolved).Keys) {
      TreeHoldsConfigured(json, overrides, ps, resolved, r.value);
    }
  }

  method LoadFlat(values: ConfigMap) returns (r: Result<Value, LoadError>)
    requires NoObjects(values)
    ensures IsDump(values) ==> r.Ok? && ReadsBack(r.value, OptionalValues(values))
    ensures r.Ok? && ReadsBack(r.value, OptionalValues(values)) <==> PrefixFree(OptionalValues(values).Keys)
  {
    var flat := UpdateOptionalValues(values);
    NullsAreNoObjects(values);
    if IsDump(values) {
      OptionalValuesPrefixFree(values);
    }
    var tree := Load(flat);
    r := if tree.Some? then Ok(tree.value) else Err(Panicked);
  }

  lemma {:induction false} SplitIsPointersOf(json: map<ParamPath, SerializedContent>, config: map<ParamPath, SerializedContent>,
                                             pointers: map<ParamPath, ParamPath>)
    requires config.Keys + pointers.Keys == json.Keys && config.Keys !! pointers.Keys
    requires forall k <- config :: config[k] == json[k] && !json[k].PointerTarget?
    requires forall k <- pointers :: json[k] == PointerTarget(pointers[k])
    ensures pointers == PointersOf(json) && Defaults(config) == Defaults(json) && Types(config) == Types(json)
  {
  }

  lemma NullsAreNoObjects(m: ConfigMap)
    requires NoObjects(m)
    ensures NoObjects(OptionalValues(m))
  {
    forall k <- OptionalValues(m) ensures !OptionalValues(m)[k].Object? {
      OptionalValueAt(m, k);
    }
  }
}
