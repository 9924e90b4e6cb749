/** The collection and string helpers of the server's utility module.
    Plain objects are maps from keys to values; where the helpers depend
    on the order in which keys are enumerated, the keys are a sequence in
    insertion order. */
module ServerUtils {
  import opened Wrappers
  import opened JsonValue

  // -----------------------------------------------------------------
  // camelToSnakeCase: `replace(/([a-z0-9])([A-Z])/g, '$1_' + lower($2))`

  predicate IsLowerOrDigit(c: char) {
    'a' <= c <= 'z' || '0' <= c <= '9'
  }

  predicate IsUpper(c: char) {
    'A' <= c <= 'Z'
  }

  /** `toLowerCase` on one character, for the ASCII letters the pattern
      captures. */
  function Lower(c: char): (r: char)
    ensures IsUpper(c) ==> 'a' <= r <= 'z' && r as int == c as int + 32
    ensures !IsUpper(c) ==> r == c
  {
    if IsUpper(c) then (c as int + 32) as char else c
  }

  /** The global replacement scans left to right and does not reuse the
      upper-case letter of a match as the first half of the next one. */
  function CamelToSnakeCase(s: string): (r: string)
    ensures |r| >= |s|
    decreases |s|
  {
    if |s| < 2 then s
    else if IsLowerOrDigit(s[0]) && IsUpper(s[1]) then [s[0], '_', Lower(s[1])] + CamelToSnakeCase(s[2..])
    else [s[0]] + CamelToSnakeCase(s[1..])
  }

  /** A string without upper-case letters is left alone. */
  lemma {:induction false} NoUpperUnchanged(s: string)
    requires forall k :: 0 <= k < |s| ==> !IsUpper(s[k])
    ensures CamelToSnakeCase(s) == s
    decreases |s|
  {
    if |s| >= 2 {
      NoUpperUnchanged(s[1..]);
    }
  }

  /** `xY` becomes `x_y`. */
  lemma CamelPair(x: char, y: char)
    requires IsLowerOrDigit(x) && IsUpper(y)
    ensures CamelToSnakeCase([x, y]) == [x, '_', Lower(y)]
  {
    assert [x, y][2..] == [];
  }

  /** A string with its underscores dropped and its letters lowered. */
  function Folded(s: string): string
  {
    if |s| == 0 then []
    else (if s[0] == '_' then [] else [Lower(s[0])]) + Folded(s[1..])
  }

  lemma {:induction false} FoldedAppend(a: string, b: string)
    ensures Folded(a + b) == Folded(a) + Folded(b)
  {
    if |a| > 0 {
      assert (a + b)[0] == a[0];
      assert (a + b)[1..] == a[1..] + b;
      FoldedAppend(a[1..], b);
    } else {
      assert a + b == b;
    }
  }

  lemma FoldedPair(x: char, y: char)
    requires x != '_' && y != '_'
    ensures Folded([x, '_', Lower(y)]) == [Lower(x), Lower(y)]
    ensures Folded([x, y]) == [Lower(x), Lower(y)]
  {
    assert Lower(y) != '_' && Lower(Lower(y)) == Lower(y);
    assert [Lower(y)][1..] == [];
    assert Folded([Lower(y)]) == [Lower(y)];
    assert ['_', Lower(y)][1..] == [Lower(y)];
    assert Folded(['_', Lower(y)]) == [Lower(y)];
    assert [x, '_', Lower(y)][1..] == ['_', Lower(y)];
    assert [y][1..] == [];
    assert Folded([y]) == [Lower(y)];
    assert [x, y][1..] == [y];
  }

  /** The conversion only inserts underscores and lowers letters: the two
      strings agree once both are folded. */
  lemma {:induction false} CamelToSnakeCaseFolds(s: string)
    ensures Folded(CamelToSnakeCase(s)) == Folded(s)
    decreases |s|
  {
    if |s| >= 2 {
      if IsLowerOrDigit(s[0]) && IsUpper(s[1]) {
        CamelToSnakeCaseFolds(s[2..]);
        FoldedAppend([s[0], '_', Lower(s[1])], CamelToSnakeCase(s[2..]));
        FoldedAppend([s[0], s[1]], s[2..]);
        assert s == [s[0], s[1]] + s[2..];
        FoldedPair(s[0], s[1]);
      } else {
        CamelToSnakeCaseFolds(s[1..]);
        FoldedAppend([s[0]], CamelToSnakeCase(s[1..]));
        FoldedAppend([s[0]], s[1..]);
        assert s == [s[0]] + s[1..];
      }
    }
  }

  // -----------------------------------------------------------------
  // Sequences of strings as sets

  predicate Distinct(xs: seq<string>) {
    forall i, j :: 0 <= i < j < |xs| ==> xs[i] != xs[j]
  }

  /** The elements of `xs` not in `ys`, in `xs`'s order. */
  function Without(xs: seq<string>, ys: seq<string>): (r: seq<string>)
    ensures forall x :: x in r <==> x in xs && x !in ys
    ensures Distinct(xs) ==> Distinct(r)
  {
    if |xs| == 0 then []
    else if xs[0] in ys then Without(xs[1..], ys)
    else
      assert forall x :: x in xs[1..] ==> x in xs;
      [xs[0]] + Without(xs[1..], ys)
  }

  /** `Without` depends only on which of `xs`'s elements `ys` holds. */
  lemma {:induction false} WithoutSameMembers(xs: seq<string>, ys: seq<string>, zs: seq<string>)
    requires forall x :: x in xs ==> (x in ys <==> x in zs)
    ensures Without(xs, ys) == Without(xs, zs)
  {
    if |xs| > 0 {
      assert forall x :: x in xs[1..] ==> x in xs;
      WithoutSameMembers(xs[1..], ys, zs);
    }
  }

  lemma {:induction false} WithoutTwice(xs: seq<string>, ys: seq<string>, zs: seq<string>)
    ensures Without(Without(xs, ys), zs) == Without(xs, ys + zs)
  {
    if |xs| > 0 {
      WithoutTwice(xs[1..], ys, zs);
    }
  }

  // -----------------------------------------------------------------
  // diffItems

  /** `removed[value] = true` for each value: the keys in insertion order. */
  function KeysOf(xs: seq<string>): (r: seq<string>)
    ensures Distinct(r)
    ensures forall x :: x in r <==> x in xs
    ensures Distinct(xs) ==> r == xs
  {
    if |xs| == 0 then []
    else
      var front := KeysOf(xs[..|xs| - 1]);
      assert xs == xs[..|xs| - 1] + [xs[|xs| - 1]];
      if xs[|xs| - 1] in front then front else front + [xs[|xs| - 1]]
  }

  /** The loop over `coll1`: a value still in `removed` is struck from it,
      any other value is pushed to `added`. */
  function DiffFrom(a: seq<string>, added: seq<string>, removed: seq<string>): (seq<string>, seq<string>)
  {
    if |a| == 0 then (added, removed)
    else if a[0] in removed then DiffFrom(a[1..], added, Without(removed, [a[0]]))
    else DiffFrom(a[1..], added + [a[0]], removed)
  }

  /** `[added, keys(removed)]`. */
  function DiffItems(a: seq<string>, b: seq<string>): (seq<string>, seq<string>)
  {
    DiffFrom(a, [], KeysOf(b))
  }

  lemma {:induction false} DiffFromSets(a: seq<string>, added: seq<string>, removed: seq<string>)
    requires Distinct(a)
    ensures DiffFrom(a, added, removed) == (added + Without(a, removed), Without(removed, a))
  {
    if |a| == 0 {
      WithoutNothing(removed);
      assert added + [] == added;
    } else {
      var x := a[0];
      var rest := a[1..];
      assert x !in rest;
      assert Distinct(rest);
      assert a == [x] + rest;
      if x in removed {
        DiffFromSets(rest, added, Without(removed, [x]));
        StruckValue(x, rest, removed);
      } else {
        DiffFromSets(rest, added + [x], removed);
        AddedValue(x, rest, removed);
        assert added + ([x] + Without(rest, removed)) == (added + [x]) + Without(rest, removed);
      }
    }
  }

  /** A first value still in `removed` is struck from it and not added. */
  lemma StruckValue(x: string, rest: seq<string>, removed: seq<string>)
    requires x in removed && x !in rest
    ensures Without([x] + rest, removed) == Without(rest, Without(removed, [x]))
    ensures Without(Without(removed, [x]), rest) == Without(removed, [x] + rest)
  {
    assert ([x] + rest)[1..] == rest;
    WithoutSameMembers(rest, Without(removed, [x]), removed);
    WithoutTwice(removed, [x], rest);
  }

  /** A first value not in `removed` is added and leaves `removed` alone. */
  lemma AddedValue(x: string, rest: seq<string>, removed: seq<string>)
    requires x !in removed
    ensures Without([x] + rest, removed) == [x] + Without(rest, removed)
    ensures Without(removed, rest) == Without(removed, [x] + rest)
  {
    assert ([x] + rest)[1..] == rest;
    WithoutSameMembers(removed, rest, [x] + rest);
  }

  lemma {:induction false} WithoutNothing(xs: seq<string>)
    ensures Without(xs, []) == xs
  {
    if |xs| > 0 {
      WithoutNothing(xs[1..]);
      assert xs == [xs[0]] + xs[1..];
    }
  }

  /** For duplicate-free collections, diffItems returns the values only in
      the first, in its order, and the values only in the second. */
  lemma DiffItemsSets(a: seq<string>, b: seq<string>)
    requires Distinct(a) && Distinct(b)
    ensures DiffItems(a, b) == (Without(a, b), Without(b, a))
  {
    var keys := KeysOf(b);
    assert keys == b;
    DiffFromSets(a, [], keys);
    assert [] + Without(a, keys) == Without(a, b);
  }

  /** A value repeated in the first collection and present in the second
      strikes it once and then counts as added. */
  lemma DiffItemsRepeated(x: string)
    ensures DiffItems([x, x], [x]) == ([x], [])
  {
    assert KeysOf([x]) == [x];
    assert Without([x], [x]) == [];
    assert [x, x][1..] == [x];
    assert [x][1..] == [];
    assert DiffFrom([x], [], []) == ([x], []);
    assert DiffFrom([x, x], [], [x]) == DiffFrom([x], [], []);
  }

  // -----------------------------------------------------------------
  // ensureArray, extractProperty, popProperty, firstDefined

  function EnsureArray(v: Json): (r: Json)
    ensures r.Arr?
    ensures v.Undefined? ==> r.items == []
    ensures v.Arr? ==> r == v
    ensures !v.Undefined? && !v.Arr? ==> r.items == [v]
  {
    if v.Undefined? then Arr([])
    else if v.Arr? then v
    else Arr([v])
  }

  /** Wrapping an array again changes nothing. */
  lemma EnsureArrayIdempotent(v: Json)
    ensures EnsureArray(EnsureArray(v)) == EnsureArray(v)
  {
  }

  /** `obj[prop]`, then `delete obj[prop]`: the value and the object left. */
  function ExtractProperty(obj: map<string, Json>, prop: string): (r: (Json, map<string, Json>))
    ensures prop in obj ==> r.0 == obj[prop]
    ensures prop !in obj ==> r.0.Undefined?
    ensures r.1.Keys == obj.Keys - {prop}
    ensures forall k :: k in r.1 ==> r.1[k] == obj[k]
  {
    (Get(obj, prop), obj - {prop})
  }

  /** Putting the extracted value back restores the object. */
  lemma ExtractPropertyRestore(obj: map<string, Json>, prop: string)
    requires prop in obj
    ensures ExtractProperty(obj, prop).1[prop := ExtractProperty(obj, prop).0] == obj
  {
    var r := ExtractProperty(obj, prop);
    assert r.1[prop := r.0].Keys == obj.Keys;
  }

  /** `for (const prop in obj)`: the first own key in enumeration order is
      extracted; an empty object yields undefined. `order` is that order. */
  function PopProperty(order: seq<string>, obj: map<string, Json>): (r: (Json, seq<string>, map<string, Json>))
    requires Distinct(order) && (forall k :: k in order <==> k in obj)
    ensures |order| == 0 ==> r.0.Undefined? && r.2 == obj
    ensures |order| > 0 ==> r.0 == obj[order[0]] && r.2 == obj - {order[0]}
    ensures Distinct(r.1) && (forall k :: k in r.1 <==> k in r.2)
  {
    if |order| == 0 then (Undefined, order, obj)
    else
      var (value, rest) := ExtractProperty(obj, order[0]);
      (value, order[1..], rest)
  }

  /** The first argument that is not undefined. */
  function FirstDefined(args: seq<Json>): (r: Json)
    ensures r.Undefined? <==> forall i :: 0 <= i < |args| ==> args[i].Undefined?
    ensures !r.Undefined? ==> exists i :: 0 <= i < |args| && args[i] == r && forall j :: 0 <= j < i ==> args[j].Undefined?
  {
    if |args| == 0 then Undefined
    else if !args[0].Undefined? then args[0]
    else
      var r := FirstDefined(args[1..]);
      assert forall i :: 1 <= i < |args| ==> args[i] == args[1..][i - 1];
      r
  }

  // -----------------------------------------------------------------
  // lightSet: a set of strings kept as the keys of a plain object

  datatype LightSet = LightSet(data: seq<string>)

  ghost predicate ValidSet(s: LightSet) {
    Distinct(s.data)
  }

  function Add(s: LightSet, x: string): (r: LightSet)
    ensures ValidSet(s) ==> ValidSet(r)
  {
    if x in s.data then s else LightSet(s.data + [x])
  }

  function Delete(s: LightSet, x: string): (r: LightSet)
    ensures ValidSet(s) ==> ValidSet(r)
  {
    LightSet(Without(s.data, [x]))
  }

  function Clear(s: LightSet): (r: LightSet)
    ensures ValidSet(r)
  {
    LightSet([])
  }

  /** `data[value]`: true for a member, undefined (falsy) otherwise. */
  function Has(s: LightSet, x: string): bool {
    x in s.data
  }

  function ToArray(s: LightSet): seq<string> {
    s.data
  }

  /** `lightSet(collection)`: every value added in turn. */
  function NewLightSet(collection: seq<string>): (r: LightSet)
  {
    if |collection| == 0 then LightSet([])
    else Add(NewLightSet(collection[..|collection| - 1]), collection[|collection| - 1])
  }

  lemma {:induction false} NewLightSetMembers(collection: seq<string>)
    ensures ValidSet(NewLightSet(collection))
    ensures forall x :: Has(NewLightSet(collection), x) <==> x in collection
  {
    if |collection| > 0 {
      var front := collection[..|collection| - 1];
      NewLightSetMembers(front);
      assert collection == front + [collection[|collection| - 1]];
    }
  }

  /** After `add(x)`, `x` is a member and membership of every other value
      is unchanged. */
  lemma AddMembers(s: LightSet, x: string)
    ensures forall y :: Has(Add(s, x), y) <==> y == x || Has(s, y)
  {
  }

  /** After `delete(x)`, `x` is not a member and every other value keeps
      its membership. */
  lemma DeleteMembers(s: LightSet, x: string)
    ensures forall y :: Has(Delete(s, x), y) <==> y != x && Has(s, y)
  {
  }

  /** After `clear()`, `toArray()` is empty. */
  lemma ClearEmpty(s: LightSet)
    ensures ToArray(Clear(s)) == [] && forall y :: !Has(Clear(s), y)
  {
  }

  /** Adding a member again changes nothing. */
  lemma AddIdempotent(s: LightSet, x: string)
    ensures Add(Add(s, x), x) == Add(s, x)
  {
  }

  // -----------------------------------------------------------------
  // map (with DONE) and mapFilter over arrays

  /** What the iteratee returns: the `DONE` sentinel or a value. */
  datatype Step<+U> = Done | Value(v: U)

  /** The index of the first item whose iteratee result is `DONE`, or the
      length when there is none. */
  function StopFrom<T, U>(xs: seq<T>, f: (T, nat) -> Step<U>, j: nat): (n: nat)
    requires j <= |xs|
    ensures j <= n <= |xs|
    ensures forall i :: j <= i < n ==> f(xs[i], i).Value?
    ensures n < |xs| ==> f(xs[n], n).Done?
    decreases |xs| - j
  {
    if j == |xs| || f(xs[j], j).Done? then j else StopFrom(xs, f, j + 1)
  }

  /** `map(collection, iteratee, target)` on an array: each item's result
      is written at its index, and the first `DONE` stops the iteration;
      the rest of `target` is left as it was. */
  method MapArray<T, U>(xs: seq<T>, f: (T, nat) -> Step<U>, target: seq<U>) returns (r: seq<U>)
    ensures var n := StopFrom(xs, f, 0);
      && |r| == (if n > |target| then n else |target|)
      && (forall i :: 0 <= i < n ==> r[i] == f(xs[i], i).v)
      && (forall i :: n <= i < |r| ==> r[i] == target[i])
  {
    var n := StopFrom(xs, f, 0);
    r := target;
    var i := 0;
    while i < |xs|
      invariant 0 <= i <= n
      invariant |r| == (if i > |target| then i else |target|)
      invariant forall k :: 0 <= k < i ==> r[k] == f(xs[k], k).v
      invariant forall k :: i <= k < |r| ==> r[k] == target[k]
    {
      var value := f(xs[i], i);
      if value.Done? {
        break;
      }
      if i < |r| {
        r := r[i := value.v];
      } else {
        r := r + [value.v];
      }
      i := i + 1;
    }
  }

  /** Truthiness of a value (`NaN` is not modelled). */
  predicate Truthy(v: Json) {
    match v
    case Undefined => false
    case Null => false
    case Bool(b) => b
    case Num(n) => n != 0
    case Str(s) => |s| > 0
    case _ => true
  }

  /** `mapFilter`: the truthy iteratee results, in order. */
  function MapFilter<T>(xs: seq<T>, f: (T, nat) -> Json): (r: seq<Json>)
    ensures |r| <= |xs|
    ensures forall k :: 0 <= k < |r| ==> Truthy(r[k])
  {
    MapFilterFrom(xs, f, 0)
  }

  function MapFilterFrom<T>(xs: seq<T>, f: (T, nat) -> Json, j: nat): (r: seq<Json>)
    requires j <= |xs|
    ensures |r| <= |xs| - j
    ensures forall k :: 0 <= k < |r| ==> Truthy(r[k])
    decreases |xs| - j
  {
    if j == |xs| then []
    else
      var value := f(xs[j], j);
      if Truthy(value) then [value] + MapFilterFrom(xs, f, j + 1) else MapFilterFrom(xs, f, j + 1)
  }

  /** A value is kept exactly when some item's result is that truthy
      value. */
  lemma {:induction false} MapFilterMembers<T>(xs: seq<T>, f: (T, nat) -> Json, j: nat)
    requires j <= |xs|
    ensures forall v :: v in MapFilterFrom(xs, f, j) <==> Truthy(v) && exists i :: j <= i < |xs| && f(xs[i], i) == v
    decreases |xs| - j
  {
    if j < |xs| {
      MapFilterMembers(xs, f, j + 1);
    }
  }

  /** Every result truthy: nothing is dropped and the order is kept. */
  lemma {:induction false} MapFilterAllTruthy<T>(xs: seq<T>, f: (T, nat) -> Json, j: nat)
    requires j <= |xs|
    requires forall i :: j <= i < |xs| ==> Truthy(f(xs[i], i))
    ensures |MapFilterFrom(xs, f, j)| == |xs| - j
    ensures forall k :: 0 <= k < |xs| - j ==> MapFilterFrom(xs, f, j)[k] == f(xs[j + k], j + k)
    decreases |xs| - j
  {
    if j < |xs| {
      MapFilterAllTruthy(xs, f, j + 1);
    }
  }

  // -----------------------------------------------------------------
  // splitFirst

  predicate OccursAt(s: string, sep: string, i: int) {
    0 <= i && i + |sep| <= |s| && s[i..i + |sep|] == sep
  }

  /** `string.indexOf(separator, from)`. */
  function IndexOfFrom(s: string, sep: string, from: nat): (i: int)
    ensures i == -1 <==> forall j :: from <= j ==> !OccursAt(s, sep, j)
    ensures i != -1 ==> from <= i && OccursAt(s, sep, i) && forall j :: from <= j < i ==> !OccursAt(s, sep, j)
    decreases |s| + 1 - from
  {
    if from + |sep| > |s| then
      assert forall j :: from <= j ==> !OccursAt(s, sep, j);
      -1
    else if s[from..from + |sep|] == sep then
      assert OccursAt(s, sep, from);
      from
    else IndexOfFrom(s, sep, from + 1)
  }

  /** null when the separator does not occur; otherwise the text before
      its first occurrence and the text after it. */
  function SplitFirst(s: string, sep: string): (r: Option<(string, string)>)
    ensures r.None? <==> forall j :: !OccursAt(s, sep, j)
    ensures r.Some? ==> r.value.0 + sep + r.value.1 == s
    ensures r.Some? ==> forall j :: 0 <= j < |r.value.0| ==> !OccursAt(s, sep, j)
  {
    var i := IndexOfFrom(s, sep, 0);
    if i == -1 then None
    else
      assert s == s[..i] + s[i..i + |sep|] + s[i + |sep|..];
      Some((s[..i], s[i + |sep|..]))
  }

  /** Joining two parts with a separator that does not occur before the
      join splits back into the same parts. */
  lemma SplitFirstJoin(p: string, sep: string, q: string)
    requires forall j :: 0 <= j < |p| ==> !OccursAt(p + sep + q, sep, j)
    ensures SplitFirst(p + sep + q, sep) == Some((p, q))
  {
    var s := p + sep + q;
    assert s[|p|..|p| + |sep|] == sep;
    assert OccursAt(s, sep, |p|);
    var r := SplitFirst(s, sep);
    assert |r.value.0| == |p|;
    assert r.value.0 == s[..|p|] == p;
    assert r.value.1 == s[|p| + |sep|..] == q;
  }
}
