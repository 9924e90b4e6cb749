/** The value matcher `match(pattern, value)`: `{__or: [...]}` and
    `{__not: p}` operators, object and array patterns, strict equality for
    everything else. */
module ValueMatch {
  import opened JsonValue

  /** A single-key object whose key is `op` with a defined value. */
  predicate IsOperator(pm: map<string, Json>, op: string) {
    |pm| == 1 && op in pm && !pm[op].Undefined?
  }

  function Match(pattern: Json, value: Json): (r: bool)
    decreases pattern, 1
  {
    match pattern
    case Obj(pm) =>
      if IsOperator(pm, "__or") then MatchSome(pm["__or"], value)
      else if IsOperator(pm, "__not") then !Match(pm["__not"], value)
      else value.Obj? && forall k :: k in pm ==> MatchField(pm, k, value.fields)
    case Arr(ps) =>
      value.Arr? && forall i :: 0 <= i < |ps| ==> MatchSomeItem(ps[i], value.items)
    case _ => pattern == value
  }

  /** `value[key] !== undefined && match(subpattern, value[key])`. */
  predicate MatchField(pm: map<string, Json>, k: string, vm: map<string, Json>)
    requires k in pm
    decreases Obj(pm), 0
  {
    !Get(vm, k).Undefined? && Match(pm[k], vm[k])
  }

  /** `some(value, subvalue => match(subpattern, subvalue))`. */
  predicate MatchSomeItem(p: Json, items: seq<Json>)
    decreases p, 2
  {
    exists j :: 0 <= j < |items| && Match(p, items[j])
  }

  /** lodash `some(op, subpattern => match(subpattern, value))`: over the
      elements of an array, the values of an object, the characters of a
      string; nothing else has elements. */
  function MatchSome(op: Json, value: Json): (r: bool)
    decreases op, 0
  {
    match op
    case Arr(ps) => exists i :: 0 <= i < |ps| && Match(ps[i], value)
    case Obj(m) => exists k :: k in m && Match(m[k], value)
    case Str(s) => exists i :: 0 <= i < |s| && value == Str([s[i]])
    case _ => false
  }

  /** `{__or: ps}` matches exactly what some alternative matches. */
  lemma OrIsDisjunction(ps: seq<Json>, v: Json)
    ensures Match(Obj(map["__or" := Arr(ps)]), v) <==> exists i :: 0 <= i < |ps| && Match(ps[i], v)
  {
  }

  /** `{__not: p}` matches exactly what `p` does not; two negations cancel. */
  lemma NotIsNegation(p: Json, v: Json)
    requires !p.Undefined?
    ensures Match(Obj(map["__not" := p]), v) <==> !Match(p, v)
    ensures Match(Obj(map["__not" := Obj(map["__not" := p])]), v) <==> Match(p, v)
  {
    assert IsOperator(map["__not" := p], "__not");
  }

  /** An object pattern that is not an operator. */
  predicate IsObjectPattern(pm: map<string, Json>) {
    !IsOperator(pm, "__or") && !IsOperator(pm, "__not")
  }

  /** Beside another key, `__or` is an ordinary property name. */
  lemma OperatorNameAsProperty(p: Json, q: Json, v: Json)
    ensures Match(Obj(map["__or" := p, "a" := q]), v) ==>
      v.Obj? && "__or" in v.fields && !v.fields["__or"].Undefined? && Match(p, v.fields["__or"])
  {
    var pm := map["__or" := p, "a" := q];
    assert |pm| == 2 by {
      assert pm.Keys == {"__or", "a"};
    }
    if Match(Obj(pm), v) {
      assert MatchField(pm, "__or", v.fields);
    }
  }

  /** The empty object pattern matches every plain object and nothing else. */
  lemma EmptyObjectPattern(v: Json)
    ensures Match(Obj(map[]), v) <==> v.Obj?
  {
  }

  /** An object pattern is the conjunction of its keys: merging two object
      patterns matches exactly what both match. */
  lemma ObjectPatternConjunction(p1: map<string, Json>, p2: map<string, Json>, v: Json)
    requires p1.Keys !! p2.Keys
    requires IsObjectPattern(p1) && IsObjectPattern(p2) && IsObjectPattern(p1 + p2)
    ensures Match(Obj(p1 + p2), v) <==> Match(Obj(p1), v) && Match(Obj(p2), v)
  {
    var pm := p1 + p2;
    ObjectMatch(pm, v);
    ObjectMatch(p1, v);
    ObjectMatch(p2, v);
    if v.Obj? {
      assert forall k :: k in p1 ==> (MatchField(pm, k, v.fields) <==> MatchField(p1, k, v.fields));
      assert forall k :: k in p2 ==> (MatchField(pm, k, v.fields) <==> MatchField(p2, k, v.fields));
      assert forall k :: k in pm ==> k in p1 || k in p2;
    }
  }

  lemma ObjectMatch(pm: map<string, Json>, v: Json)
    requires IsObjectPattern(pm)
    ensures Match(Obj(pm), v) <==> v.Obj? && forall k :: k in pm ==> MatchField(pm, k, v.fields)
  {
  }

  /** Adding keys to the value keeps an object pattern matching. */
  lemma ObjectPatternExtension(pm: map<string, Json>, vm: map<string, Json>, wm: map<string, Json>)
    requires IsObjectPattern(pm) && Match(Obj(pm), Obj(vm))
    requires forall k :: k in vm ==> k in wm && wm[k] == vm[k]
    ensures Match(Obj(pm), Obj(wm))
  {
    forall k | k in pm
      ensures MatchField(pm, k, wm)
    {
      assert MatchField(pm, k, vm);
    }
  }

  /** Adding elements to the value keeps an array pattern matching. */
  lemma ArrayPatternExtension(ps: seq<Json>, vs: seq<Json>, ws: seq<Json>)
    requires Match(Arr(ps), Arr(vs))
    requires forall j :: 0 <= j < |vs| ==> vs[j] in ws
    ensures Match(Arr(ps), Arr(ws))
  {
    forall i | 0 <= i < |ps|
      ensures MatchSomeItem(ps[i], ws)
    {
      assert MatchSomeItem(ps[i], vs);
      var j :| 0 <= j < |vs| && Match(ps[i], vs[j]);
      var j' :| 0 <= j' < |ws| && ws[j'] == vs[j];
    }
  }

  /** Data with no undefined property and no operator-shaped object. */
  predicate PlainData(v: Json) {
    match v
    case Obj(m) => IsObjectPattern(m) && forall k :: k in m ==> !m[k].Undefined? && PlainData(m[k])
    case Arr(xs) => forall i :: 0 <= i < |xs| ==> PlainData(xs[i])
    case _ => true
  }

  /** Plain data matches itself. */
  lemma {:induction false} MatchSelf(v: Json)
    requires PlainData(v)
    ensures Match(v, v)
  {
    match v
    case Obj(m) =>
      forall k | k in m
        ensures MatchField(m, k, m)
      {
        MatchSelf(m[k]);
      }
    case Arr(xs) =>
      forall i | 0 <= i < |xs|
        ensures MatchSomeItem(xs[i], xs)
      {
        MatchSelf(xs[i]);
      }
    case _ =>
  }
}
