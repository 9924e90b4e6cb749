/** `applyPatch(value, patch)`: a plain-object patch edits an array (by
    index, by a removal pattern under `-`, by appending the items under
    `+`) or a plain object (by key); any other patch replaces the value.
    The removal predicate is the value matcher. */
module Patch {
  import opened Wrappers
  import opened Decimal
  import opened JsonValue
  import opened ValueMatch

  /** `push.apply(tmp, toAdd)` on a `toAdd` that is neither nullish nor an
      object: a TypeError. */
  datatype PatchError = NotArrayLike

  /** The key `i in patch` tests for an array index. */
  function IndexKey(i: nat): string {
    ShowDecimal(i)
  }

  /** Whether an element is removed by the `-` pattern (none when absent). */
  predicate Removes(pm: map<string, Json>, v: Json) {
    !Get(pm, "-").Undefined? && Match(pm["-"], v)
  }

  function ApplyPatch(value: Json, patch: Json): (r: Result<Json, PatchError>)
    ensures !patch.Obj? ==> r == Ok(patch)
    ensures patch.Obj? && !value.Arr? && !value.Obj? ==> r == Ok(patch)
    ensures r.Ok? && value.Arr? && patch.Obj? ==> r.value.Arr?
    ensures r.Ok? && value.Obj? && patch.Obj? ==> r.value.Obj?
    decreases patch, 2
  {
    match patch
    case Obj(pm) =>
      (match value
       case Arr(xs) =>
         var kept :- PatchItems(xs, pm, 0);
         AppendItems(kept, Get(pm, "+"))
       case Obj(vm) => PatchFields(vm, pm)
       // the object built here is discarded: the patch itself is returned
       case _ => Ok(patch))
    case _ => Ok(patch)
  }

  /** The loop over the array from index `i`: a patched index is dropped
      (nullish patch) or replaced by its patched value; any other element
      is kept unless the `-` pattern matches it. */
  function PatchItems(xs: seq<Json>, pm: map<string, Json>, i: nat): (r: Result<seq<Json>, PatchError>)
    requires i <= |xs|
    ensures r.Ok? ==> |r.value| <= |xs| - i
    decreases Obj(pm), 1, |xs| - i
  {
    if i == |xs| then Ok([])
    else
      var rest :- PatchItems(xs, pm, i + 1);
      var key := IndexKey(i);
      if key in pm then
        if IsNullish(pm[key]) then Ok(rest)
        else
          var v :- ApplyPatch(xs[i], pm[key]);
          Ok([v] + rest)
      else if Removes(pm, xs[i]) then Ok(rest)
      else Ok([xs[i]] + rest)
  }

  /** `push.apply(tmp, toAdd)` when `toAdd !== undefined`. */
  function AppendItems(kept: seq<Json>, toAdd: Json): (r: Result<Json, PatchError>)
    ensures r.Ok? ==> r.value.Arr? && kept <= r.value.items
    ensures toAdd.Arr? ==> r == Ok(Arr(kept + toAdd.items))
    ensures r.Err? <==> toAdd.Bool? || toAdd.Num? || toAdd.Str?
  {
    match toAdd
    case Arr(ys) => Ok(Arr(kept + ys))
    case Bool(_) => Err(NotArrayLike)
    case Num(_) => Err(NotArrayLike)
    case Str(_) => Err(NotArrayLike)
    case _ => Ok(Arr(kept))
  }

  /** Whether patching key `k` of an object fails. */
  predicate FieldFails(vm: map<string, Json>, pm: map<string, Json>, k: string)
    requires k in pm
    decreases Obj(pm), 0
  {
    !IsNullish(pm[k]) && ApplyPatch(Get(vm, k), pm[k]).Err?
  }

  /** A shallow copy of the object with each patched key deleted (nullish
      patch) or set to its patched value. */
  function PatchFields(vm: map<string, Json>, pm: map<string, Json>): (r: Result<Json, PatchError>)
    ensures r.Err? <==> exists k :: k in pm && FieldFails(vm, pm, k)
    ensures r.Ok? ==> r.value.Obj?
    ensures r.Ok? ==> forall k :: k in pm && IsNullish(pm[k]) ==> k !in r.value.fields
    ensures r.Ok? ==> forall k :: k in vm && k !in pm ==> k in r.value.fields && r.value.fields[k] == vm[k]
    ensures r.Ok? ==> forall k :: k in pm && !IsNullish(pm[k]) ==>
      k in r.value.fields && Ok(r.value.fields[k]) == ApplyPatch(Get(vm, k), pm[k])
    ensures r.Ok? ==> forall k :: k in r.value.fields ==> k in vm || k in pm
    decreases Obj(pm), 1
  {
    if exists k :: k in pm && FieldFails(vm, pm, k) then Err(NotArrayLike)
    else
      Ok(Obj(map k | k in vm.Keys + pm.Keys && !(k in pm && IsNullish(pm[k])) ::
        if k in pm then ApplyPatch(Get(vm, k), pm[k]).value else vm[k]))
  }

  // -----------------------------------------------------------------
  // Arrays

  lemma IndexKeyFacts(i: nat, j: nat)
    ensures IndexKey(i) != "+" && IndexKey(i) != "-"
    ensures IndexKey(i) == IndexKey(j) ==> i == j
  {
    var k := IndexKey(i);
    assert IsDigit(k[0]);
    DecimalRoundTrip(i);
    DecimalRoundTrip(j);
  }

  /** The elements the `-` pattern does not remove, in order. */
  function Unremoved(xs: seq<Json>, pm: map<string, Json>): (r: seq<Json>)
    ensures forall v :: v in r ==> v in xs && !Removes(pm, v)
  {
    if |xs| == 0 then []
    else if Removes(pm, xs[0]) then Unremoved(xs[1..], pm)
    else [xs[0]] + Unremoved(xs[1..], pm)
  }

  /** With no index key from `i` on, the loop keeps exactly the elements
      the `-` pattern does not match. */
  lemma {:induction false} NoIndexKeys(xs: seq<Json>, pm: map<string, Json>, i: nat)
    requires i <= |xs|
    requires forall j :: i <= j < |xs| ==> IndexKey(j) !in pm
    ensures PatchItems(xs, pm, i) == Ok(Unremoved(xs[i..], pm))
    decreases |xs| - i
  {
    if i < |xs| {
      NoIndexKeys(xs, pm, i + 1);
      assert xs[i..][1..] == xs[i + 1..];
    }
  }

  /** `{'+': ys}` appends `ys` after the elements. */
  lemma AppendPatch(xs: seq<Json>, ys: seq<Json>)
    ensures ApplyPatch(Arr(xs), Obj(map["+" := Arr(ys)])) == Ok(Arr(xs + ys))
  {
    var pm := map["+" := Arr(ys)];
    forall j | 0 <= j < |xs|
      ensures IndexKey(j) !in pm
    {
      IndexKeyFacts(j, j);
    }
    NoIndexKeys(xs, pm, 0);
    NothingRemoved(xs, pm);
    assert xs[0..] == xs;
  }

  lemma {:induction false} NothingRemoved(xs: seq<Json>, pm: map<string, Json>)
    requires "-" !in pm
    ensures Unremoved(xs, pm) == xs
  {
    if |xs| > 0 {
      NothingRemoved(xs[1..], pm);
    }
  }

  /** `{'-': pattern}` keeps exactly the elements the pattern does not
      match. */
  lemma RemovePatch(xs: seq<Json>, pattern: Json)
    requires !pattern.Undefined?
    ensures ApplyPatch(Arr(xs), Obj(map["-" := pattern])) == Ok(Arr(Unremoved(xs, map["-" := pattern])))
    ensures forall v :: v in Unremoved(xs, map["-" := pattern]) ==> !Match(pattern, v)
  {
    var pm := map["-" := pattern];
    forall j | 0 <= j < |xs|
      ensures IndexKey(j) !in pm
    {
      IndexKeyFacts(j, j);
    }
    NoIndexKeys(xs, pm, 0);
    assert xs[0..] == xs;
  }

  /** A nullish patch at index `i` drops that element and keeps the rest. */
  lemma DropIndexPatch(xs: seq<Json>, i: nat, p: Json)
    requires i < |xs| && IsNullish(p)
    ensures ApplyPatch(Arr(xs), Obj(map[IndexKey(i) := p])) == Ok(Arr(xs[..i] + xs[i + 1..]))
  {
    var pm := map[IndexKey(i) := p];
    AtIndex(xs, pm, i);
    BeforeIndex(xs, pm, i, 0);
    IndexKeyFacts(i, i);
    assert xs[0..i] == xs[..i];
  }

  /** A non-nullish patch at index `i` replaces that element by its
      patched value and keeps the rest. */
  lemma ReplaceIndexPatch(xs: seq<Json>, i: nat, p: Json)
    requires i < |xs| && !IsNullish(p) && ApplyPatch(xs[i], p).Ok?
    ensures ApplyPatch(Arr(xs), Obj(map[IndexKey(i) := p])) == Ok(Arr(xs[i := ApplyPatch(xs[i], p).value]))
  {
    var pm := map[IndexKey(i) := p];
    AtIndex(xs, pm, i);
    BeforeIndex(xs, pm, i, 0);
    IndexKeyFacts(i, i);
    assert xs[i := ApplyPatch(xs[i], p).value] == xs[0..i] + ([ApplyPatch(xs[i], p).value] + xs[i + 1..]);
  }

  /** Past the one patched index, every element is kept. */
  lemma AfterIndex(xs: seq<Json>, pm: map<string, Json>, i: nat, j: nat)
    requires i < j <= |xs| && pm.Keys == {IndexKey(i)}
    ensures PatchItems(xs, pm, j) == Ok(xs[j..])
  {
    forall k | j <= k < |xs|
      ensures IndexKey(k) !in pm
    {
      IndexKeyFacts(i, k);
    }
    NoIndexKeys(xs, pm, j);
    IndexKeyFacts(i, i);
    NothingRemoved(xs[j..], pm);
  }

  /** At the patched index: dropped or replaced. */
  lemma AtIndex(xs: seq<Json>, pm: map<string, Json>, i: nat)
    requires i < |xs| && pm.Keys == {IndexKey(i)}
    requires IsNullish(pm[IndexKey(i)]) || ApplyPatch(xs[i], pm[IndexKey(i)]).Ok?
    ensures PatchItems(xs, pm, i) == Ok(
      if IsNullish(pm[IndexKey(i)]) then xs[i + 1..]
      else [ApplyPatch(xs[i], pm[IndexKey(i)]).value] + xs[i + 1..])
  {
    AfterIndex(xs, pm, i, i + 1);
  }

  /** Before the patched index, every element is kept. */
  lemma {:induction false} BeforeIndex(xs: seq<Json>, pm: map<string, Json>, i: nat, j: nat)
    requires j <= i < |xs| && pm.Keys == {IndexKey(i)}
    requires PatchItems(xs, pm, i).Ok?
    ensures PatchItems(xs, pm, j) == Ok(xs[j..i] + PatchItems(xs, pm, i).value)
    decreases i - j
  {
    if j < i {
      BeforeIndex(xs, pm, i, j + 1);
      IndexKeyFacts(i, j);
      IndexKeyFacts(i, i);
      assert IndexKey(j) !in pm && !Removes(pm, xs[j]);
      var tail := PatchItems(xs, pm, i).value;
      var rest := PatchItems(xs, pm, j + 1).value;
      assert PatchItems(xs, pm, j) == Ok([xs[j]] + rest);
      assert xs[j..i] == [xs[j]] + xs[j + 1..i];
      assert [xs[j]] + (xs[j + 1..i] + tail) == xs[j..i] + tail;
    } else {
      assert xs[j..i] + PatchItems(xs, pm, i).value == PatchItems(xs, pm, i).value;
    }
  }

  // -----------------------------------------------------------------
  // Objects and identities

  /** The empty patch leaves arrays and objects as they are. */
  lemma EmptyPatch(value: Json)
    requires value.Arr? || value.Obj?
    ensures ApplyPatch(value, Obj(map[])) == Ok(value)
  {
    if value.Arr? {
      NoIndexKeys(value.items, map[], 0);
      NothingRemoved(value.items, map[]);
      assert value.items[0..] == value.items;
    } else {
      var r := PatchFields(value.fields, map[]);
      assert r.Ok?;
      assert r.value.fields == value.fields;
    }
  }

  /** A patch whose values are all replacements or deletions (no nested
      plain object). */
  predicate SetsOnly(pm: map<string, Json>) {
    forall k :: k in pm ==> !pm[k].Obj?
  }

  /** Such a patch sets and deletes keys: applying it twice is applying it
      once. */
  lemma SetPatchIdempotent(vm: map<string, Json>, pm: map<string, Json>)
    requires SetsOnly(pm)
    ensures ApplyPatch(Obj(vm), Obj(pm)).Ok?
    ensures ApplyPatch(ApplyPatch(Obj(vm), Obj(pm)).value, Obj(pm)) == ApplyPatch(Obj(vm), Obj(pm))
  {
    var r := PatchFields(vm, pm);
    assert forall k :: k in pm ==> !FieldFails(vm, pm, k);
    var wm := r.value.fields;
    assert forall k :: k in pm ==> !FieldFails(wm, pm, k);
    var r2 := PatchFields(wm, pm);
    assert r2.value.fields == wm;
  }
}
