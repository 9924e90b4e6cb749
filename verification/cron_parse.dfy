/** The cron-pattern parser (`createParser` and the default parser built
    from the minute/hour/dayOfMonth/month/dayOfWeek table). The parser is a
    cursor over the pattern; each step returns the value it read and the
    index after it, or the error the source throws. */
module CronParse {
  import opened Wrappers
  import opened Decimal

  /** A field's optional transform of each parsed value (`post`). */
  datatype Post = Identity | ZeroIsSeven

  /** How a field table entry lists its aliases: an array (the i-th alias
      names `range[0] + i`) or an object (explicit values, keys in order). */
  datatype AliasSpec = NoAliases | ArrayAliases(symbols: seq<string>) | ObjectAliases(pairs: seq<(string, int)>)

  datatype FieldSpec = FieldSpec(name: string, lo: int, hi: int, aliases: AliasSpec, post: Post)

  /** A field once `createParser` has compiled its aliases: the symbols in
      the order the sticky alternation tries them, and their values. */
  datatype Field = Field(name: string, lo: int, hi: int, symbols: Option<seq<string>>,
                         aliasValues: map<string, int>, post: Post)

  type Schedule = map<string, seq<int>>

  /** A preset is its pattern until first parsed, then the cached schedule. */
  datatype Preset = Pending(pattern: string) | Cached(schedule: Schedule)

  datatype Parser = Parser(fields: seq<Field>, presets: map<string, Preset>)

  datatype CronError =
    | MissingDigit(field: string, at: nat)
    | MissingAlias(field: string, at: nat)
    | OutOfRange(field: string, value: int, lo: int, hi: int)
      // `aliasesRegExp.lastIndex = i` on a field without aliases: TypeError
    | NoAliasTable(field: string)
      // `for (i = start; i <= end; i += 0)` never ends
    | Hangs
      // a preset whose expansion leads back to itself recurses without end
    | PresetCycle

  /** A value read at the cursor, and the index after it. */
  datatype Parsed<+T> = Parsed(value: T, next: nat)

  // -----------------------------------------------------------------
  // createParser: compiling the field table

  /** `aliases[alias] = start + i` for each alias in order (a repeated alias
      keeps its last index). */
  function ArrayAliasMap(symbols: seq<string>, start: int): (m: map<string, int>)
    ensures m.Keys == set s | s in symbols
  {
    if |symbols| == 0 then map[]
    else ArrayAliasMap(symbols[..|symbols| - 1], start)[symbols[|symbols| - 1] := start + |symbols| - 1]
  }

  predicate Distinct<T(==)>(s: seq<T>) {
    forall i, j :: 0 <= i < j < |s| ==> s[i] != s[j]
  }

  /** With distinct aliases, the i-th alias names `start + i`. */
  lemma {:induction false} ArrayAliasValue(symbols: seq<string>, start: int, i: nat)
    requires Distinct(symbols) && i < |symbols|
    ensures ArrayAliasMap(symbols, start)[symbols[i]] == start + i
  {
    var n := |symbols| - 1;
    if i < n {
      ArrayAliasValue(symbols[..n], start, i);
    }
  }

  function PairKeys(pairs: seq<(string, int)>): (r: seq<string>)
    ensures |r| == |pairs| && forall i :: 0 <= i < |pairs| ==> r[i] == pairs[i].0
  {
    seq(|pairs|, i requires 0 <= i < |pairs| => pairs[i].0)
  }

  /** Object aliases: each key names its value (a repeated key, its last). */
  function PairMap(pairs: seq<(string, int)>): (m: map<string, int>)
    ensures m.Keys == set s | s in PairKeys(pairs)
  {
    if |pairs| == 0 then map[]
    else
      var last := pairs[|pairs| - 1];
      assert PairKeys(pairs) == PairKeys(pairs[..|pairs| - 1]) + [last.0];
      PairMap(pairs[..|pairs| - 1])[last.0 := last.1]
  }

  lemma {:induction false} PairMapValue(pairs: seq<(string, int)>, i: nat)
    requires Distinct(PairKeys(pairs)) && i < |pairs|
    ensures PairMap(pairs)[pairs[i].0] == pairs[i].1
  {
    var n := |pairs| - 1;
    if i < n {
      assert PairKeys(pairs[..n]) == PairKeys(pairs)[..n];
      PairMapValue(pairs[..n], i);
    }
  }

  /** Every symbol the alternation can match has a value. */
  ghost predicate ValidField(f: Field) {
    f.symbols.Some? ==> forall s :: s in f.symbols.value ==> s in f.aliasValues
  }

  /** One entry of `createParser`'s loop over the fields. */
  function CompileField(spec: FieldSpec): (f: Field)
    ensures ValidField(f)
    ensures f.name == spec.name && f.lo == spec.lo && f.hi == spec.hi && f.post == spec.post
    ensures spec.aliases.NoAliases? <==> f.symbols.None?
  {
    match spec.aliases
    case NoAliases => Field(spec.name, spec.lo, spec.hi, None, map[], spec.post)
    case ArrayAliases(symbols) =>
      Field(spec.name, spec.lo, spec.hi, Some(symbols), ArrayAliasMap(symbols, spec.lo), spec.post)
    case ObjectAliases(pairs) =>
      Field(spec.name, spec.lo, spec.hi, Some(PairKeys(pairs)), PairMap(pairs), spec.post)
  }

  function CompileFields(specs: seq<FieldSpec>): (fs: seq<Field>)
    ensures |fs| == |specs|
    ensures forall j :: 0 <= j < |specs| ==> fs[j] == CompileField(specs[j])
  {
    seq(|specs|, j requires 0 <= j < |specs| => CompileField(specs[j]))
  }

  /** Compiled fields, and cached presets that are schedules of them. */
  ghost predicate ValidParser(p: Parser) {
    && (forall j :: 0 <= j < |p.fields| ==> ValidField(p.fields[j]))
    && (forall k :: k in p.presets && p.presets[k].Cached? ==> ScheduleFor(p.fields, p.presets[k].schedule))
  }

  /** `createParser({fields, presets})`. */
  function CreateParser(specs: seq<FieldSpec>, presets: map<string, string>): (p: Parser)
    ensures ValidParser(p)
    ensures |p.fields| == |specs|
    ensures p.presets.Keys == presets.Keys
    ensures forall k :: k in presets ==> p.presets[k] == Pending(presets[k])
  {
    Parser(CompileFields(specs), map k | k in presets :: Pending(presets[k]))
  }

  // -----------------------------------------------------------------
  // Integers

  predicate DigitAt(s: string, i: nat) {
    i < |s| && IsDigit(s[i])
  }

  /** The end of the run of digits starting at `i`. */
  function DigitRunEnd(s: string, i: nat): (e: nat)
    requires i <= |s|
    ensures i <= e <= |s| && !DigitAt(s, e)
    ensures forall k :: i <= k < e ==> IsDigit(s[k])
    decreases |s| - i
  {
    if DigitAt(s, i) then DigitRunEnd(s, i + 1) else i
  }

  /** `parseInteger`: the maximal run of digits at the cursor, or a
      SyntaxError naming the field and the index when there is none. */
  function ParseInteger(f: Field, s: string, i: nat): (r: Result<Parsed<nat>, CronError>)
    requires i <= |s|
    ensures r.Err? <==> !DigitAt(s, i)
    ensures r.Err? ==> r.error == MissingDigit(f.name, i)
    ensures r.Ok? ==> i < r.value.next <= |s| && !DigitAt(s, r.value.next)
    ensures r.Ok? ==> forall k :: i <= k < r.value.next ==> IsDigit(s[k])
    ensures r.Ok? ==> r.value.value == DecimalValue(s[i..r.value.next])
  {
    var e := DigitRunEnd(s, i);
    if e == i then Err(MissingDigit(f.name, i)) else Ok(Parsed(DecimalValue(s[i..e]), e))
  }

  // -----------------------------------------------------------------
  // Values

  predicate PrefixAt(a: string, s: string, i: nat) {
    i + |a| <= |s| && s[i..i + |a|] == a
  }

  /** No symbol before the k-th occurs at `i`. */
  predicate FirstMatch(symbols: seq<string>, s: string, i: nat, k: nat) {
    forall m :: 0 <= m < k && m < |symbols| ==> !PrefixAt(symbols[m], s, i)
  }

  /** The sticky alternation `new RegExp(symbols.join('|'), 'y')` at index
      `i`: the first symbol, in order, that occurs at `i`. */
  function MatchAlias(symbols: seq<string>, s: string, i: nat): (r: Option<string>)
    ensures r.Some? ==> r.value in symbols && PrefixAt(r.value, s, i)
    ensures r.None? <==> forall a :: a in symbols ==> !PrefixAt(a, s, i)
    ensures r.Some? ==> exists k :: 0 <= k < |symbols| && symbols[k] == r.value && FirstMatch(symbols, s, i, k)
  {
    if |symbols| == 0 then None
    else if PrefixAt(symbols[0], s, i) then Some(symbols[0])
    else
      var r := MatchAlias(symbols[1..], s, i);
      assert forall a :: a in symbols ==> a == symbols[0] || a in symbols[1..];
      if r.Some? then
        var k :| 0 <= k < |symbols[1..]| && symbols[1..][k] == r.value && FirstMatch(symbols[1..], s, i, k);
        assert symbols[k + 1] == r.value && FirstMatch(symbols, s, i, k + 1);
        r
      else r
  }

  function ApplyPost(post: Post, v: int): int {
    match post
    case Identity => v
    case ZeroIsSeven => if v == 0 then 7 else v
  }

  /** `parseValue`: an integer, or an alias when the cursor is not on a
      digit; then `post`, then the range check. */
  function ParseValue(f: Field, s: string, i: nat): (r: Result<Parsed<int>, CronError>)
    requires ValidField(f) && i <= |s|
    ensures r.Ok? ==> f.lo <= r.value.value <= f.hi && i < r.value.next <= |s|
    ensures !DigitAt(s, i) && f.symbols.None? ==> r == Err(NoAliasTable(f.name))
    ensures DigitAt(s, i) ==> var n := ParseInteger(f, s, i).value;
      var v := ApplyPost(f.post, n.value);
      r == if f.lo <= v <= f.hi then Ok(Parsed(v, n.next)) else Err(OutOfRange(f.name, v, f.lo, f.hi))
  {
    var raw :- ReadValue(f, s, i);
    var v := ApplyPost(f.post, raw.value);
    if v < f.lo || v > f.hi then Err(OutOfRange(f.name, v, f.lo, f.hi)) else Ok(Parsed(v, raw.next))
  }

  /** The value before `post` and the range check. */
  function ReadValue(f: Field, s: string, i: nat): (r: Result<Parsed<int>, CronError>)
    requires ValidField(f) && i <= |s|
    ensures r.Ok? ==> i < r.value.next <= |s|
    ensures DigitAt(s, i) ==> r.Ok? && r.value == Parsed(ParseInteger(f, s, i).value.value as int, ParseInteger(f, s, i).value.next)
    ensures !DigitAt(s, i) && f.symbols.Some? ==> match MatchAlias(f.symbols.value, s, i)
      case None => r == Err(MissingAlias(f.name, i))
      case Some(a) => |a| > 0 ==> r == Ok(Parsed(f.aliasValues[a], i + |a|))
  {
    if DigitAt(s, i) then
      var n := ParseInteger(f, s, i).value;
      Ok(Parsed(n.value, n.next))
    else if f.symbols.None? then
      Err(NoAliasTable(f.name))
    else
      match MatchAlias(f.symbols.value, s, i)
      case None => Err(MissingAlias(f.name, i))
      case Some(a) =>
        if |a| == 0 then Err(MissingAlias(f.name, i))
        else Ok(Parsed(f.aliasValues[a], i + |a|))
  }

  // -----------------------------------------------------------------
  // Ranges and sequences

  /** `values.add(x)` on an insertion-ordered set. */
  function Add(values: seq<int>, x: int): (r: seq<int>)
    ensures Distinct(values) ==> Distinct(r)
    ensures forall y :: y in r <==> y in values || y == x
    ensures values <= r
  {
    if x in values then values else values + [x]
  }

  /** The loop `for (i = start; i <= end; i += step) values.add(i)`. */
  function AddSteps(values: seq<int>, start: int, end: int, step: nat): (r: seq<int>)
    requires step > 0
    ensures Distinct(values) ==> Distinct(r)
    ensures values <= r
    decreases end - start + 1
  {
    if start > end then values else AddSteps(Add(values, start), start + step, end, step)
  }

  /** What the loop adds: exactly `start, start + step, ...` up to `end`. */
  lemma {:induction false} AddStepsMembers(values: seq<int>, start: int, end: int, step: nat, x: int)
    requires step > 0
    ensures x in AddSteps(values, start, end, step) <==>
      x in values || (start <= x <= end && (x - start) % step == 0)
    decreases end - start + 1
  {
    if start <= end {
      AddStepsMembers(Add(values, start), start + step, end, step, x);
      assert x in AddSteps(values, start, end, step) <==>
        x in values || x == start || (start + step <= x <= end && (x - (start + step)) % step == 0);
      OnStep(x - start, step);
    }
  }

  /** Offsets from the first value that the loop reaches. */
  lemma OnStep(d: int, step: nat)
    requires step > 0
    ensures d == 0 ==> d % step == 0
    ensures 0 < d < step ==> d % step != 0
    ensures d >= step ==> (d - step) % step == d % step
  {
    if d >= step {
      StepShift(d, step);
    }
  }

  lemma StepShift(d: int, step: nat)
    requires step > 0 && d >= step
    ensures (d - step) % step == d % step
  {
    var e := d - step;
    var q, r := e / step, e % step;
    assert e == q * step + r;
    assert d == (q + 1) * step + r by {
      assert (q + 1) * step == q * step + step;
    }
    var q', r' := d / step, d % step;
    assert d == q' * step + r';
    if q' > q + 1 {
      assert (q' - (q + 1)) * step == q' * step - (q + 1) * step;
      MulAtLeast(q' - (q + 1), step);
    } else if q' < q + 1 {
      assert ((q + 1) - q') * step == (q + 1) * step - q' * step;
      MulAtLeast((q + 1) - q', step);
    }
  }

  lemma MulAtLeast(a: int, step: nat)
    requires a >= 1
    ensures a * step >= step
  {
  }

  /** The loop with a step of zero makes no progress. */
  function Enumerate(values: seq<int>, start: int, end: int, step: nat): (r: Result<seq<int>, CronError>)
    ensures r.Err? <==> step == 0 && start <= end
    ensures r.Ok? ==> values <= r.value
  {
    if step == 0 then (if start <= end then Err(Hangs) else Ok(values))
    else Ok(AddSteps(values, start, end, step))
  }

  predicate CharAt(s: string, i: nat, c: char) {
    i < |s| && s[i] == c
  }

  /** Values within the field's range. */
  ghost predicate InRange(f: Field, values: seq<int>) {
    forall x :: x in values ==> f.lo <= x <= f.hi
  }

  // `parseRange`: `*` (no values), `*` then `/s`, `a`, `a-b` or `a-b/s`.
  function ParseRange(f: Field, s: string, i: nat, values: seq<int>): (r: Result<Parsed<seq<int>>, CronError>)
    requires ValidField(f) && i <= |s|
    ensures r.Ok? ==> i < r.value.next <= |s| && values <= r.value.value
    ensures r.Ok? && Distinct(values) ==> Distinct(r.value.value)
    ensures r.Ok? && InRange(f, values) ==> InRange(f, r.value.value)
    ensures CharAt(s, i, '*') && !CharAt(s, i + 1, '/') ==> r == Ok(Parsed(values, i + 1))
  {
    if CharAt(s, i, '*') then
      if !CharAt(s, i + 1, '/') then Ok(Parsed(values, i + 1))
      else ParseStarStep(f, s, i + 2, values)
    else
      var start :- ParseValue(f, s, i);
      if !CharAt(s, start.next, '-') then
        Ok(Parsed(Add(values, start.value), start.next))
      else
        ParseSpan(f, s, start, values)
  }

  /** The step after `*` and `/`, read at `i`, over the whole range. */
  function ParseStarStep(f: Field, s: string, i: nat, values: seq<int>): (r: Result<Parsed<seq<int>>, CronError>)
    requires i <= |s|
    ensures r.Ok? ==> i < r.value.next <= |s| && values <= r.value.value
    ensures r.Ok? && Distinct(values) ==> Distinct(r.value.value)
    ensures r.Ok? && InRange(f, values) ==> InRange(f, r.value.value)
  {
    var step :- ParseInteger(f, s, i);
    var vs :- Enumerate(values, f.lo, f.hi, step.value);
    StepsInRange(f, values, f.lo, f.hi, step.value);
    Ok(Parsed(vs, step.next))
  }

  /** The rest of `a-b[/s]` once `a` is read: `-` is at `start.next`. */
  function ParseSpan(f: Field, s: string, start: Parsed<int>, values: seq<int>): (r: Result<Parsed<seq<int>>, CronError>)
    requires ValidField(f) && start.next < |s| && f.lo <= start.value
    ensures r.Ok? ==> start.next < r.value.next <= |s| && values <= r.value.value
    ensures r.Ok? && Distinct(values) ==> Distinct(r.value.value)
    ensures r.Ok? && InRange(f, values) ==> InRange(f, r.value.value)
  {
    var end :- ParseValue(f, s, start.next + 1);
    var step :- SpanStep(f, s, end.next);
    var vs :- Enumerate(values, start.value, end.value, step.value);
    StepsInRange(f, values, start.value, end.value, step.value);
    Ok(Parsed(vs, step.next))
  }

  /** `match('/') ? parseInteger() : 1`. */
  function SpanStep(f: Field, s: string, i: nat): (r: Result<Parsed<nat>, CronError>)
    requires i <= |s|
    ensures r.Ok? ==> i <= r.value.next <= |s|
    ensures !CharAt(s, i, '/') ==> r == Ok(Parsed(1, i))
  {
    if CharAt(s, i, '/') then ParseInteger(f, s, i + 1) else Ok(Parsed(1, i))
  }

  lemma StepsInRange(f: Field, values: seq<int>, start: int, end: int, step: nat)
    requires f.lo <= start && end <= f.hi
    ensures Enumerate(values, start, end, step).Ok? && InRange(f, values) ==>
      InRange(f, Enumerate(values, start, end, step).value)
  {
    if step > 0 && InRange(f, values) {
      forall x | x in AddSteps(values, start, end, step)
        ensures f.lo <= x <= f.hi
      {
        AddStepsMembers(values, start, end, step, x);
      }
    }
  }

  /** `*` then `/n`: the field's range from its low end in steps of `n`;
      a step of 0 never leaves the loop. */
  lemma StarStepValues(f: Field, s: string, i: nat, n: Parsed<nat>, x: int)
    requires ValidField(f) && i <= |s| && CharAt(s, i, '*') && CharAt(s, i + 1, '/')
    requires ParseInteger(f, s, i + 2) == Ok(n)
    ensures ParseRange(f, s, i, []).Err? <==> n.value == 0 && f.lo <= f.hi
    ensures ParseRange(f, s, i, []).Err? ==> ParseRange(f, s, i, []).error == Hangs
    ensures n.value > 0 ==> ParseRange(f, s, i, []) == Ok(Parsed(ParseRange(f, s, i, []).value.value, n.next))
    ensures n.value > 0 ==>
      (x in ParseRange(f, s, i, []).value.value <==> f.lo <= x <= f.hi && (x - f.lo) % n.value == 0)
  {
    var r := ParseRange(f, s, i, []);
    assert r == ParseStarStep(f, s, i + 2, []);
    StarStep(f, s, i + 2, n);
    if n.value > 0 {
      assert r == Ok(Parsed(AddSteps([], f.lo, f.hi, n.value), n.next));
      AddStepsMembers([], f.lo, f.hi, n.value, x);
    }
  }

  lemma StarStep(f: Field, s: string, i: nat, n: Parsed<nat>)
    requires i <= |s| && ParseInteger(f, s, i) == Ok(n)
    ensures ParseStarStep(f, s, i, []) == (if n.value == 0 && f.lo <= f.hi then Err(Hangs)
      else Ok(Parsed(if n.value == 0 then [] else AddSteps([], f.lo, f.hi, n.value), n.next)))
  {
  }

  /** `a-b` without a step: every value from `a` to `b`. */
  lemma SpanValues(f: Field, s: string, i: nat, a: Parsed<int>, b: Parsed<int>, x: int)
    requires ValidField(f) && i <= |s| && !CharAt(s, i, '*')
    requires ParseValue(f, s, i) == Ok(a) && CharAt(s, a.next, '-')
    requires ParseValue(f, s, a.next + 1) == Ok(b) && !CharAt(s, b.next, '/')
    ensures ParseRange(f, s, i, []).Ok? && ParseRange(f, s, i, []).value.next == b.next
    ensures x in ParseRange(f, s, i, []).value.value <==> a.value <= x <= b.value
  {
    assert ParseRange(f, s, i, []) == ParseSpan(f, s, a, []);
    UnitSpan(f, s, a, b);
    AddStepsMembers([], a.value, b.value, 1, x);
  }

  lemma UnitSpan(f: Field, s: string, a: Parsed<int>, b: Parsed<int>)
    requires ValidField(f) && a.next < |s| && f.lo <= a.value
    requires ParseValue(f, s, a.next + 1) == Ok(b) && !CharAt(s, b.next, '/')
    ensures ParseSpan(f, s, a, []) == Ok(Parsed(AddSteps([], a.value, b.value, 1), b.next))
  {
    var step := SpanStep(f, s, b.next);
    assert step == Ok(Parsed(1, b.next));
    var vs := Enumerate([], a.value, b.value, 1);
    assert vs == Ok(AddSteps([], a.value, b.value, 1));
  }

  /** The `do { parseRange() } while (match(','))` loop. */
  function ParseRanges(f: Field, s: string, i: nat, values: seq<int>): (r: Result<Parsed<seq<int>>, CronError>)
    requires ValidField(f) && i <= |s|
    ensures r.Ok? ==> i < r.value.next <= |s| && values <= r.value.value
    ensures r.Ok? && Distinct(values) ==> Distinct(r.value.value)
    ensures r.Ok? && InRange(f, values) ==> InRange(f, r.value.value)
    decreases |s| - i
  {
    var one :- ParseRange(f, s, i, values);
    if CharAt(s, one.next, ',') then ParseRanges(f, s, one.next + 1, one.value) else Ok(one)
  }

  /** Index of the first character at or after `i` that is not a space or
      a tab. */
  function SkipBlanks(s: string, i: nat): (e: nat)
    requires i <= |s|
    ensures i <= e <= |s| && !CharAt(s, e, ' ') && !CharAt(s, e, '\t')
    decreases |s| - i
  {
    if CharAt(s, i, ' ') || CharAt(s, i, '\t') then SkipBlanks(s, i + 1) else i
  }

  /** `parseSequence`: leading blanks, then comma-separated ranges. */
  function ParseSequence(f: Field, s: string, i: nat): (r: Result<Parsed<seq<int>>, CronError>)
    requires ValidField(f) && i <= |s|
    ensures r.Ok? ==> i < r.value.next <= |s| && Distinct(r.value.value) && InRange(f, r.value.value)
  {
    ParseRanges(f, s, SkipBlanks(s, i), [])
  }

  // -----------------------------------------------------------------
  // Sorting and the field loop

  predicate StrictlyAscending(s: seq<int>) {
    forall i, j :: 0 <= i < j < |s| ==> s[i] < s[j]
  }

  function Insert(x: int, s: seq<int>): (r: seq<int>)
    requires StrictlyAscending(s) && x !in s
    ensures StrictlyAscending(r)
    ensures forall y :: y in r <==> y in s || y == x
  {
    if |s| == 0 then [x]
    else if x < s[0] then [x] + s
    else
      var rest := Insert(x, s[1..]);
      assert forall y :: y in s[1..] ==> s[0] < y;
      ConsAscending(s[0], rest);
      [s[0]] + rest
  }

  lemma ConsAscending(h: int, t: seq<int>)
    requires StrictlyAscending(t) && forall y :: y in t ==> h < y
    ensures StrictlyAscending([h] + t)
  {
    var r := [h] + t;
    forall i, j | 0 <= i < j < |r|
      ensures r[i] < r[j]
    {
      assert r[j] == t[j - 1] && t[j - 1] in t;
      if i > 0 {
        assert r[i] == t[i - 1];
      }
    }
  }

  /** `Array.from(values).sort(compareNumbers)` on distinct values. */
  function SortNumbers(s: seq<int>): (r: seq<int>)
    requires Distinct(s)
    ensures StrictlyAscending(r)
    ensures forall y :: y in r <==> y in s
    ensures |r| == |s|
  {
    if |s| == 0 then []
    else
      var init := s[..|s| - 1];
      assert forall y :: y in s <==> y in init || y == s[|s| - 1];
      assert s[|s| - 1] !in init;
      var sorted := SortNumbers(init);
      InsertLength(s[|s| - 1], sorted);
      Insert(s[|s| - 1], sorted)
  }

  lemma {:induction false} InsertLength(x: int, s: seq<int>)
    requires StrictlyAscending(s) && x !in s
    ensures |Insert(x, s)| == |s| + 1
  {
    if |s| > 0 && x >= s[0] {
      InsertLength(x, s[1..]);
    }
  }

  /** What the parser promises of each field of a schedule: a non-empty,
      strictly ascending list of values within the field's range. */
  ghost predicate ScheduleFor(fields: seq<Field>, sched: Schedule)
  {
    forall name :: name in sched ==>
      |sched[name]| > 0 && StrictlyAscending(sched[name])
      && exists j :: 0 <= j < |fields| && fields[j].name == name && InRange(fields[j], sched[name])
  }

  /** The loop over the fields: stops at the end of the pattern or of the
      table; a field that parses to no value is left out. */
  function ParseFields(fields: seq<Field>, j: nat, s: string, i: nat, sched: Schedule): (r: Result<Schedule, CronError>)
    requires forall k :: 0 <= k < |fields| ==> ValidField(fields[k])
    requires i <= |s| && j <= |fields|
    requires ScheduleFor(fields, sched)
    ensures r.Ok? ==> ScheduleFor(fields, r.value)
    ensures r.Ok? ==> sched.Keys <= r.value.Keys
    ensures r.Ok? ==> forall name :: name in r.value && name !in sched ==>
      exists k :: j <= k < |fields| && fields[k].name == name
    decreases |fields| - j
  {
    if i >= |s| || j >= |fields| then Ok(sched)
    else
      var f := fields[j];
      var vs :- ParseSequence(f, s, i);
      var sched' := if |vs.value| != 0 then sched[f.name := SortNumbers(vs.value)] else sched;
      assert ScheduleFor(fields, sched') by {
        if |vs.value| != 0 {
          var sorted := SortNumbers(vs.value);
          assert InRange(f, sorted);
        }
      }
      ParseFields(fields, j + 1, s, vs.next, sched')
  }

  /** Parsing a pattern that is not a preset. */
  function ParsePattern(fields: seq<Field>, s: string): (r: Result<Schedule, CronError>)
    requires forall k :: 0 <= k < |fields| ==> ValidField(fields[k])
    ensures r.Ok? ==> ScheduleFor(fields, r.value)
    ensures r.Ok? ==> forall name :: name in r.value ==> exists k :: 0 <= k < |fields| && fields[k].name == name
  {
    ParseFields(fields, 0, s, 0, map[])
  }

  /** The parse function `createParser` returns: a preset is replaced by the
      parse of its expansion, which is cached back into the presets; a
      cached preset is returned as is. `visiting` holds the presets whose
      expansion is being parsed. */
  function Parse(p: Parser, s: string, visiting: set<string>): (r: (Result<Schedule, CronError>, Parser))
    requires ValidParser(p)
    ensures ValidParser(r.1) && r.1.fields == p.fields
    ensures r.1.presets.Keys == p.presets.Keys
    ensures r.0.Ok? ==> ScheduleFor(p.fields, r.0.value)
    decreases p.presets.Keys - visiting
  {
    if s !in p.presets then (ParsePattern(p.fields, s), p)
    else
      match p.presets[s]
      case Cached(sched) => (Ok(sched), p)
      case Pending(expansion) =>
        if s in visiting then (Err(PresetCycle), p)
        else
          var (r, p') := Parse(p, expansion, visiting + {s});
          match r
          case Err(e) => (Err(e), p')
          case Ok(sched) => (Ok(sched), p'.(presets := p'.presets[s := Cached(sched)]))
  }

  /** The first parse of a preset whose expansion is a plain pattern caches
      the schedule of that pattern; the next parse returns it unchanged. */
  lemma PresetCaching(p: Parser, key: string)
    requires ValidParser(p) && key in p.presets && p.presets[key].Pending?
    requires p.presets[key].pattern !in p.presets
    requires ParsePattern(p.fields, p.presets[key].pattern).Ok?
    ensures var (first, p') := Parse(p, key, {});
      && first == ParsePattern(p.fields, p.presets[key].pattern)
      && p'.presets == p.presets[key := Cached(first.value)]
      && Parse(p', key, {}) == (first, p')
  {
  }

  // -----------------------------------------------------------------
  // The default parser

  const MonthAliases: seq<string> := ["jan", "feb", "mar", "apr", "may", "jun", "jul", "aug", "sep", "oct", "nov", "dec"]
  const DayAliases: seq<string> := ["sun", "mon", "tue", "wen", "thu", "fri", "sat"]

  const MinuteSpec := FieldSpec("minute", 0, 59, NoAliases, Identity)
  const HourSpec := FieldSpec("hour", 0, 23, NoAliases, Identity)
  const DayOfMonthSpec := FieldSpec("dayOfMonth", 1, 31, NoAliases, Identity)
  const MonthSpec := FieldSpec("month", 1, 12, ArrayAliases(MonthAliases), Identity)

  /** The dayOfWeek entry as written: array aliases, so `sun` names
      `range[0] + 0 = 1`, which the schedule reads as Monday. */
  const DayOfWeekSpecAsWritten := FieldSpec("dayOfWeek", 1, 7, ArrayAliases(DayAliases), ZeroIsSeven)

  /** The dayOfWeek entry as intended: `sun` is day 0 like the digit 0, and
      both become 7 through `post`; `mon` to `sat` are 1 to 6. */
  const DayPairs: seq<(string, int)> := [("sun", 0), ("mon", 1), ("tue", 2), ("wen", 3), ("thu", 4), ("fri", 5), ("sat", 6)]
  const DayOfWeekSpec := FieldSpec("dayOfWeek", 1, 7, ObjectAliases(DayPairs), ZeroIsSeven)

  const DefaultPresets: map<string, string> := map[
    "@annually" := "0 0 1 1",
    "@daily" := "0 0",
    "@hourly" := "0",
    "@monthly" := "0 0 1",
    "@weekly" := "0 0 * * 0",
    "@yearly" := "0 0 1 1"]

  /** The five fields of a cron pattern, in order, and their ranges. */
  predicate StandardFields(fields: seq<Field>) {
    && |fields| == 5
    && fields[0].name == "minute" && fields[0].lo == 0 && fields[0].hi == 59 && fields[0].symbols.None?
    && fields[1].name == "hour" && fields[1].lo == 0 && fields[1].hi == 23 && fields[1].symbols.None?
    && fields[2].name == "dayOfMonth" && fields[2].lo == 1 && fields[2].hi == 31 && fields[2].symbols.None?
    && fields[3].name == "month" && fields[3].lo == 1 && fields[3].hi == 12 && fields[3].symbols == Some(MonthAliases)
    && fields[4].name == "dayOfWeek" && fields[4].lo == 1 && fields[4].hi == 7 && fields[4].post == ZeroIsSeven
  }

  /** The parser the module exports, with the dayOfWeek aliases as written. */
  function DefaultParser(): (p: Parser)
    ensures ValidParser(p) && StandardFields(p.fields)
    ensures p.fields[4] == DayOfWeekAsWritten()
    ensures p.presets.Keys == DefaultPresets.Keys
  {
    CreateParser([MinuteSpec, HourSpec, DayOfMonthSpec, MonthSpec, DayOfWeekSpecAsWritten], DefaultPresets)
  }

  /** The default parser with the dayOfWeek aliases as intended. */
  function CorrectedDefaultParser(): (p: Parser)
    ensures ValidParser(p) && StandardFields(p.fields)
    ensures p.fields[4] == DayOfWeek()
    ensures p.presets.Keys == DefaultPresets.Keys
  {
    CreateParser([MinuteSpec, HourSpec, DayOfMonthSpec, MonthSpec, DayOfWeekSpec], DefaultPresets)
  }

  /** The correction touches the dayOfWeek field only. */
  lemma CorrectionOnlyDays()
    ensures |CorrectedDefaultParser().fields| == |DefaultParser().fields|
    ensures forall j :: 0 <= j < 4 ==> CorrectedDefaultParser().fields[j] == DefaultParser().fields[j]
    ensures CorrectedDefaultParser().presets == DefaultParser().presets
  {
    var specs := [MinuteSpec, HourSpec, DayOfMonthSpec, MonthSpec, DayOfWeekSpecAsWritten];
    var corrected := [MinuteSpec, HourSpec, DayOfMonthSpec, MonthSpec, DayOfWeekSpec];
    assert forall j :: 0 <= j < 4 ==> specs[j] == corrected[j];
  }

  function DayOfWeekAsWritten(): (f: Field)
    ensures ValidField(f)
  {
    CompileField(DayOfWeekSpecAsWritten)
  }

  function DayOfWeek(): (f: Field)
    ensures ValidField(f)
  {
    CompileField(DayOfWeekSpec)
  }

  /** The first symbol that occurs at the cursor is the one matched. */
  lemma {:induction false} MatchFirst(symbols: seq<string>, s: string, i: nat, k: nat)
    requires k < |symbols| && PrefixAt(symbols[k], s, i) && FirstMatch(symbols, s, i, k)
    ensures MatchAlias(symbols, s, i) == Some(symbols[k])
  {
    if k > 0 {
      assert !PrefixAt(symbols[0], s, i);
      assert FirstMatch(symbols[1..], s, i, k - 1) by {
        forall m | 0 <= m < k - 1
          ensures !PrefixAt(symbols[1..][m], s, i)
        {
          assert symbols[1..][m] == symbols[m + 1];
        }
      }
      MatchFirst(symbols[1..], s, i, k - 1);
    }
  }

  /** A field reads the k-th alias's value when the k-th alias is the
      first that occurs at the cursor. */
  lemma AliasRead(f: Field, s: string, i: nat, k: nat)
    requires ValidField(f) && i <= |s| && !DigitAt(s, i) && f.symbols.Some?
    requires k < |f.symbols.value| && |f.symbols.value[k]| > 0
    requires PrefixAt(f.symbols.value[k], s, i) && FirstMatch(f.symbols.value, s, i, k)
    ensures ReadValue(f, s, i) == Ok(Parsed(f.aliasValues[f.symbols.value[k]], i + |f.symbols.value[k]|))
  {
    MatchFirst(f.symbols.value, s, i, k);
  }

  /** A digit not followed by another reads as its value. */
  lemma DigitValue(f: Field, s: string, i: nat)
    requires DigitAt(s, i) && !DigitAt(s, i + 1)
    ensures ParseInteger(f, s, i) == Ok(Parsed(s[i] as int - '0' as int, i + 1))
  {
    assert DigitRunEnd(s, i + 1) == i + 1;
    var d := s[i..i + 1];
    assert d[..0] == [] && d[0] == s[i] && |d| == 1;
    assert DecimalValue(d) == s[i] as int - '0' as int;
  }

  /** A lone digit reads as its value. */
  lemma OneDigit(f: Field, s: string)
    requires ValidField(f) && |s| == 1 && IsDigit(s[0])
    ensures ReadValue(f, s, 0) == Ok(Parsed(s[0] as int - '0' as int, 1))
  {
    DigitValue(f, s, 0);
  }

  /** Aliases of one length, none a digit: each alias is the first symbol
      that occurs in its own text, so it reads as its own value. */
  lemma UniformAliasRead(f: Field, k: nat)
    requires ValidField(f) && f.symbols.Some? && Distinct(f.symbols.value) && k < |f.symbols.value|
    requires forall m :: 0 <= m < |f.symbols.value| ==> |f.symbols.value[m]| == |f.symbols.value[k]|
    requires |f.symbols.value[k]| > 0 && !IsDigit(f.symbols.value[k][0])
    ensures ReadValue(f, f.symbols.value[k], 0) == Ok(Parsed(f.aliasValues[f.symbols.value[k]], |f.symbols.value[k]|))
  {
    var syms := f.symbols.value;
    var s := syms[k];
    assert s[0..|s|] == s;
    forall m | 0 <= m < k
      ensures !PrefixAt(syms[m], s, 0)
    {
      assert syms[m] != s;
    }
    AliasRead(f, s, 0, k);
  }

  /** Array aliases of one length, none starting with a digit: the k-th
      alias reads as the range's low end plus `k`. */
  lemma ArrayAliasRead(spec: FieldSpec, k: nat)
    requires spec.aliases.ArrayAliases? && Distinct(spec.aliases.symbols) && k < |spec.aliases.symbols|
    requires forall m :: 0 <= m < |spec.aliases.symbols| ==> |spec.aliases.symbols[m]| == |spec.aliases.symbols[k]|
    requires |spec.aliases.symbols[k]| > 0 && !IsDigit(spec.aliases.symbols[k][0])
    ensures ReadValue(CompileField(spec), spec.aliases.symbols[k], 0)
      == Ok(Parsed(spec.lo + k, |spec.aliases.symbols[k]|))
  {
    CompiledArrayAlias(spec, k);
    UniformAliasRead(CompileField(spec), k);
  }

  /** The alternation and the value map of a field with aliases. */
  lemma CompiledAliases(spec: FieldSpec)
    requires !spec.aliases.NoAliases?
    ensures spec.aliases.ArrayAliases? ==>
      CompileField(spec).symbols == Some(spec.aliases.symbols)
      && CompileField(spec).aliasValues == ArrayAliasMap(spec.aliases.symbols, spec.lo)
    ensures spec.aliases.ObjectAliases? ==>
      CompileField(spec).symbols == Some(PairKeys(spec.aliases.pairs))
      && CompileField(spec).aliasValues == PairMap(spec.aliases.pairs)
  {
  }

  /** The k-th of distinct array aliases is compiled to `lo + k`. */
  lemma CompiledArrayAlias(spec: FieldSpec, k: nat)
    requires spec.aliases.ArrayAliases? && Distinct(spec.aliases.symbols) && k < |spec.aliases.symbols|
    ensures CompileField(spec).symbols == Some(spec.aliases.symbols)
    ensures CompileField(spec).aliasValues[spec.aliases.symbols[k]] == spec.lo + k
  {
    ArrayAliasValue(spec.aliases.symbols, spec.lo, k);
  }

  /** Object aliases of one length, none starting with a digit: the k-th
      key reads as its own value. */
  lemma ObjectAliasRead(spec: FieldSpec, k: nat)
    requires spec.aliases.ObjectAliases? && k < |spec.aliases.pairs|
    requires Distinct(PairKeys(spec.aliases.pairs))
    requires forall m :: 0 <= m < |spec.aliases.pairs| ==> |spec.aliases.pairs[m].0| == |spec.aliases.pairs[k].0|
    requires |spec.aliases.pairs[k].0| > 0 && !IsDigit(spec.aliases.pairs[k].0[0])
    ensures ReadValue(CompileField(spec), spec.aliases.pairs[k].0, 0)
      == Ok(Parsed(spec.aliases.pairs[k].1, |spec.aliases.pairs[k].0|))
  {
    var pairs := spec.aliases.pairs;
    var f := CompileField(spec);
    CompiledAliases(spec);
    PairMapValue(pairs, k);
    assert f.aliasValues[PairKeys(pairs)[k]] == pairs[k].1;
    UniformAliasRead(f, k);
  }

  /** The facts about the day alias table the proofs below use. */
  lemma DayAliasFacts()
    ensures Distinct(DayAliases) && |DayAliases| == 7
    ensures forall k :: 0 <= k < |DayAliases| ==> |DayAliases[k]| == 3 && !IsDigit(DayAliases[k][0])
    ensures PairKeys(DayPairs) == DayAliases && Distinct(PairKeys(DayPairs))
    ensures forall k :: 0 <= k < |DayPairs| ==> DayPairs[k].1 == k
  {
  }

  /** The digit `k` is day `k`, except 0 which `post` makes 7. */
  lemma DayDigit(f: Field, k: nat)
    requires ValidField(f) && f.lo == 1 && f.hi == 7 && f.post == ZeroIsSeven && k < 8
    ensures ParseValue(f, ShowDecimal(k), 0) == Ok(Parsed(if k == 0 then 7 else k, 1))
  {
    OneDigit(f, ShowDecimal(k));
  }

  /** As written, the k-th alias (`sun` first) reads as `k + 1`. */
  lemma DayAliasAsWritten(k: nat)
    requires k < 7
    ensures ParseValue(DayOfWeekAsWritten(), DayAliases[k], 0) == Ok(Parsed(k + 1, 3))
  {
    DayAliasFacts();
    ArrayAliasRead(DayOfWeekSpecAsWritten, k);
  }

  /** As written, no day alias reads as the day its digit reads as: `sun`
      is 1 (Monday) where 0 is 7 (Sunday), and `mon` is 2 where 1 is 1. */
  lemma DayAliasesOffByOne(k: nat)
    requires k < 7
    ensures ParseValue(DayOfWeekAsWritten(), DayAliases[k], 0).Ok?
    ensures ParseValue(DayOfWeekAsWritten(), ShowDecimal(k), 0).Ok?
    ensures ParseValue(DayOfWeekAsWritten(), DayAliases[k], 0).value.value
      != ParseValue(DayOfWeekAsWritten(), ShowDecimal(k), 0).value.value
  {
    DayAliasAsWritten(k);
    DayDigit(DayOfWeekAsWritten(), k);
  }

  /** Corrected: the k-th day alias reads as the same day as the digit `k`
      (0 and 7 both being Sunday). */
  lemma DayAliasMatchesDigit(k: nat)
    requires k < 7
    ensures ParseValue(DayOfWeek(), DayAliases[k], 0) == Ok(Parsed(if k == 0 then 7 else k, 3))
    ensures ParseValue(DayOfWeek(), ShowDecimal(k), 0) == Ok(Parsed(if k == 0 then 7 else k, 1))
  {
    DayAliasFacts();
    assert DayPairs[k].0 == DayAliases[k];
    ObjectAliasRead(DayOfWeekSpec, k);
    DayDigit(DayOfWeek(), k);
  }

  /** The exported parser reads `sun` as 1 and `sat` as 7: a day name
      means the day after the one its digit means. */
  lemma DefaultParserDayAliases(k: nat)
    requires k < 7
    ensures ParseValue(DefaultParser().fields[4], DayAliases[k], 0) == Ok(Parsed(k + 1, 3))
    ensures ParseValue(DefaultParser().fields[4], ShowDecimal(k), 0) == Ok(Parsed(if k == 0 then 7 else k, 1))
  {
    DayAliasAsWritten(k);
    DayDigit(DayOfWeekAsWritten(), k);
  }

  /** With the corrected table each day name reads as its digit. */
  lemma CorrectedParserDayAliases(k: nat)
    requires k < 7
    ensures ParseValue(CorrectedDefaultParser().fields[4], DayAliases[k], 0) == Ok(Parsed(if k == 0 then 7 else k, 3))
    ensures ParseValue(CorrectedDefaultParser().fields[4], ShowDecimal(k), 0) == Ok(Parsed(if k == 0 then 7 else k, 1))
  {
    DayAliasMatchesDigit(k);
  }

  /** A bare `*` constrains no field. */
  lemma BareStar(fields: seq<Field>)
    requires |fields| > 0 && forall k :: 0 <= k < |fields| ==> ValidField(fields[k])
    ensures ParsePattern(fields, "*") == Ok(map[])
  {
    assert SkipBlanks("*", 0) == 0;
    assert ParseRange(fields[0], "*", 0, []) == Ok(Parsed([], 1));
    assert !CharAt("*", 1, ',');
    assert ParseSequence(fields[0], "*", 0) == Ok(Parsed([], 1));
    assert ParseFields(fields, 1, "*", 1, map[]) == Ok(map[]);
  }

  /** The field of `"0 0"` starting at `i`, for a field that admits 0. */
  lemma ZeroField(f: Field, i: nat)
    requires ValidField(f) && f.lo <= 0 <= f.hi && f.post == Identity && (i == 0 || i == 1)
    ensures ParseSequence(f, "0 0", i) == Ok(Parsed([0], if i == 0 then 1 else 3))
  {
    var s := "0 0";
    var at := if i == 0 then 0 else 2;
    DigitValue(f, s, at);
    assert SkipBlanks(s, i) == at;
    assert ParseValue(f, s, at) == Ok(Parsed(0, at + 1));
    assert !CharAt(s, at, '*') && !CharAt(s, at + 1, '-') && !CharAt(s, at + 1, ',');
    assert Add([], 0) == [0];
  }

  /** `"0 0"` is minute 0 of hour 0. */
  lemma DailyPattern()
    ensures ParsePattern(DefaultParser().fields, "0 0") == Ok(map["minute" := [0], "hour" := [0]])
  {
    var p := DefaultParser();
    ZeroField(p.fields[0], 0);
    ZeroField(p.fields[1], 1);
    assert SortNumbers([0]) == [0];
  }

  /** The default presets start out unparsed. */
  lemma DefaultPresetsPending(key: string)
    requires key in DefaultPresets
    ensures DefaultParser().presets[key] == Pending(DefaultPresets[key])
    ensures DefaultPresets[key] !in DefaultParser().presets
  {
    var p := DefaultParser();
    PresetShapes();
    assert DefaultPresets[key][0] == '0';
    assert DefaultPresets[key] !in DefaultPresets;
  }

  /** Preset names start with `@`; the patterns they stand for start with
      a digit, so no pattern is itself a preset name. */
  lemma PresetShapes()
    ensures forall k :: k in DefaultPresets ==> |k| > 0 && k[0] == '@'
    ensures forall k :: k in DefaultPresets ==> |DefaultPresets[k]| > 0 && DefaultPresets[k][0] == '0'
  {
  }

  /** `@daily` runs at minute 0 of hour 0, and is cached once parsed. */
  lemma DailyPreset()
    ensures Parse(DefaultParser(), "@daily", {}).0 == Ok(map["minute" := [0], "hour" := [0]])
    ensures Parse(DefaultParser(), "@daily", {}).1.presets["@daily"] == Cached(map["minute" := [0], "hour" := [0]])
  {
    DailyPattern();
    DefaultPresetsPending("@daily");
    PresetCaching(DefaultParser(), "@daily");
  }
}
