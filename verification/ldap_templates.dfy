/** The templates of the LDAP authentication provider: the search filter,
    whose `{{name}}` placeholders are filled with escaped variables, and
    the optional user-name format, whose placeholders are filled from the
    entry the user bound as. The LDAP client, and `escape` itself, are
    outside the model: `escape` is a parameter. */
module LdapTemplates {
  import opened Wrappers
  import opened Strings

  datatype LdapError = InvalidVariable(name: string) | InvalidEntry(name: string)

  // -----------------------------------------------------------------
  // `replace(/\{\{([^}]+)\}\}/g, callback)`

  /** A placeholder at the start of `s`: its name and its length. The
      name runs up to the first `}`, so it is never empty and holds no
      `}`. */
  function PlaceholderAt(s: string): (r: Option<(string, nat)>)
    ensures r.Some? ==> 4 < r.value.1 <= |s| && r.value.0 == s[2..r.value.1 - 2]
    ensures r.Some? ==> |r.value.0| > 0 && Lacks(r.value.0, '}')
    ensures r.Some? ==> s[..2] == "{{" && s[r.value.1 - 2..r.value.1] == "}}"
    ensures |s| == 0 || s[0] != '{' ==> r.None?
  {
    if |s| < 2 || s[0] != '{' || s[1] != '{' then None
    else
      var j := FindFrom(s, '}', 2);
      if j <= 2 || j + 1 >= |s| || s[j + 1] != '}' then None
      else Some((s[2..j], j + 2))
  }

  /** The text with each placeholder, scanned left to right, replaced by
      what `fill` gives for its name; the first failure is the result. */
  function Replace(s: string, fill: string -> Result<string, LdapError>): Result<string, LdapError>
    decreases |s|
  {
    if |s| == 0 then Ok("")
    else match PlaceholderAt(s)
      case Some((name, length)) =>
        var value :- fill(name);
        var rest :- Replace(s[length..], fill);
        Ok(value + rest)
      case None =>
        var rest :- Replace(s[1..], fill);
        Ok([s[0]] + rest)
  }

  /** A template as written: literal text and placeholders. */
  datatype Piece = Text(text: string) | Var(name: string)

  predicate WellFormed(pieces: seq<Piece>) {
    forall k :: 0 <= k < |pieces| ==>
      match pieces[k]
      case Text(t) => Lacks(t, '{')
      case Var(n) => |n| > 0 && Lacks(n, '}')
  }

  function Join(pieces: seq<Piece>): string {
    if |pieces| == 0 then ""
    else
      (match pieces[0]
       case Text(t) => t
       case Var(n) => "{{" + n + "}}") + Join(pieces[1..])
  }

  /** The intended result: the text pieces, and each placeholder's value. */
  function Render(pieces: seq<Piece>, fill: string -> Result<string, LdapError>): Result<string, LdapError> {
    if |pieces| == 0 then Ok("")
    else
      var head :- match pieces[0]
        case Text(t) => Ok(t)
        case Var(n) => fill(n);
      var rest :- Render(pieces[1..], fill);
      Ok(head + rest)
  }

  lemma {:induction false} TextPrefix(t: string, u: string, fill: string -> Result<string, LdapError>)
    requires Lacks(t, '{')
    ensures Replace(t + u, fill) == (if Replace(u, fill).Ok? then Ok(t + Replace(u, fill).value) else Replace(u, fill))
    decreases |t|
  {
    if |t| == 0 {
      assert t + u == u;
      if Replace(u, fill).Ok? {
        assert t + Replace(u, fill).value == Replace(u, fill).value;
      }
    } else {
      assert (t + u)[0] == t[0];
      assert (t + u)[1..] == t[1..] + u;
      assert PlaceholderAt(t + u).None?;
      TextPrefix(t[1..], u, fill);
      if Replace(u, fill).Ok? {
        var v := Replace(u, fill).value;
        assert [t[0]] + (t[1..] + v) == t + v by {
          assert t == [t[0]] + t[1..];
        }
      }
    }
  }

  /** Every `{{name}}` with a non-empty, `}`-free name is a placeholder,
      whatever follows it. */
  lemma VarPrefix(n: string, u: string)
    requires |n| > 0 && Lacks(n, '}')
    ensures PlaceholderAt("{{" + n + "}}" + u) == Some((n, |n| + 4))
    ensures ("{{" + n + "}}" + u)[|n| + 4..] == u
  {
    var s := "{{" + n + "}}" + u;
    assert s[0] == '{' && s[1] == '{';
    assert forall k :: 2 <= k < |n| + 2 ==> s[k] == n[k - 2];
    FindFromIs(s, '}', 2, |n| + 2);
    assert s[2..|n| + 2] == n;
  }

  /** Every placeholder of a well-formed template is replaced by its value
      and the text around them is kept. */
  lemma {:induction false} ReplaceRenders(pieces: seq<Piece>, fill: string -> Result<string, LdapError>)
    requires WellFormed(pieces)
    ensures Replace(Join(pieces), fill) == Render(pieces, fill)
  {
    if |pieces| > 0 {
      assert WellFormed(pieces[1..]) by {
        forall k | 0 <= k < |pieces[1..]|
          ensures pieces[1..][k] == pieces[k + 1]
        {
        }
      }
      ReplaceRenders(pieces[1..], fill);
      var u := Join(pieces[1..]);
      match pieces[0]
      case Text(t) =>
        assert Join(pieces) == t + u;
        TextPrefix(t, u, fill);
      case Var(n) =>
        assert Join(pieces) == "{{" + n + "}}" + u;
        VarPrefix(n, u);
    }
  }

  /** A text without `{` is left as it is. */
  lemma PlainText(t: string, fill: string -> Result<string, LdapError>)
    requires Lacks(t, '{')
    ensures Replace(t, fill) == Ok(t)
  {
    TextPrefix(t, "", fill);
    assert t + "" == t;
  }

  // -----------------------------------------------------------------
  // evalFilter

  /** `vars[name]`, escaped; an undefined variable is an error. */
  function FilterValue(vars: map<string, string>, escape: string -> string, name: string): (r: Result<string, LdapError>)
    ensures name in vars ==> r == Ok(escape(vars[name]))
    ensures name !in vars ==> r == Err(InvalidVariable(name))
  {
    if name !in vars then Err(InvalidVariable(name)) else Ok(escape(vars[name]))
  }

  function EvalFilter(filter: string, vars: map<string, string>, escape: string -> string): Result<string, LdapError> {
    Replace(filter, name => FilterValue(vars, escape, name))
  }

  /** The names of a template's placeholders, in order. */
  function Names(pieces: seq<Piece>): seq<string> {
    if |pieces| == 0 then []
    else (if pieces[0].Var? then [pieces[0].name] else []) + Names(pieces[1..])
  }

  /** With every variable defined, the filter is its text with each
      placeholder replaced by the escaped variable. */
  lemma {:induction false} EvalFilterDefined(pieces: seq<Piece>, vars: map<string, string>, escape: string -> string)
    requires WellFormed(pieces)
    requires forall n :: n in Names(pieces) ==> n in vars
    ensures EvalFilter(Join(pieces), vars, escape) == Ok(Filled(pieces, vars, escape))
  {
    ReplaceRenders(pieces, name => FilterValue(vars, escape, name));
    RenderDefined(pieces, vars, escape);
  }

  /** The template with each placeholder replaced by its escaped variable
      (the empty string for an undefined one, which never occurs). */
  function Filled(pieces: seq<Piece>, vars: map<string, string>, escape: string -> string): string {
    if |pieces| == 0 then ""
    else
      (match pieces[0]
       case Text(t) => t
       case Var(n) => if n in vars then escape(vars[n]) else "") + Filled(pieces[1..], vars, escape)
  }

  lemma {:induction false} RenderDefined(pieces: seq<Piece>, vars: map<string, string>, escape: string -> string)
    requires forall n :: n in Names(pieces) ==> n in vars
    ensures Render(pieces, name => FilterValue(vars, escape, name)) == Ok(Filled(pieces, vars, escape))
  {
    if |pieces| > 0 {
      assert forall n :: n in Names(pieces[1..]) ==> n in Names(pieces);
      RenderDefined(pieces[1..], vars, escape);
      if pieces[0].Var? {
        assert pieces[0].name in Names(pieces);
      }
    }
  }

  /** The first undefined variable of the filter is the error. */
  lemma {:induction false} EvalFilterUndefined(pieces: seq<Piece>, vars: map<string, string>, escape: string -> string, k: nat)
    requires WellFormed(pieces)
    requires k < |Names(pieces)| && Names(pieces)[k] !in vars
    requires forall j :: 0 <= j < k ==> Names(pieces)[j] in vars
    ensures EvalFilter(Join(pieces), vars, escape) == Err(InvalidVariable(Names(pieces)[k]))
  {
    ReplaceRenders(pieces, name => FilterValue(vars, escape, name));
    RenderUndefined(pieces, vars, escape, k);
  }

  lemma {:induction false} RenderUndefined(pieces: seq<Piece>, vars: map<string, string>, escape: string -> string, k: nat)
    requires k < |Names(pieces)| && Names(pieces)[k] !in vars
    requires forall j :: 0 <= j < k ==> Names(pieces)[j] in vars
    ensures Render(pieces, name => FilterValue(vars, escape, name)) == Err(InvalidVariable(Names(pieces)[k]))
  {
    var fill := name => FilterValue(vars, escape, name);
    var names := Names(pieces);
    var tail := Names(pieces[1..]);
    if pieces[0].Var? {
      assert names == [pieces[0].name] + tail;
      if k > 0 {
        assert pieces[0].name == names[0] && names[0] in vars;
        assert forall j :: 0 <= j < k - 1 ==> tail[j] == names[j + 1];
        RenderUndefined(pieces[1..], vars, escape, k - 1);
      }
    } else {
      assert names == tail;
      RenderUndefined(pieces[1..], vars, escape, k);
    }
  }

  // -----------------------------------------------------------------
  // makeEvalFormat

  datatype Attribute = Attribute(attrType: string, vals: seq<string>)

  /** The JSON form of an LDAP entry: its attributes. */
  datatype Entry = Entry(attributes: seq<Attribute>)

  /** `find(record.attributes, _ => _.type === name)`: the index of the
      first attribute of that type, or -1. */
  function FindAttribute(attributes: seq<Attribute>, name: string): (i: int)
    ensures i == -1 ==> forall k :: 0 <= k < |attributes| ==> attributes[k].attrType != name
    ensures i != -1 ==> 0 <= i < |attributes| && attributes[i].attrType == name
    ensures i != -1 ==> forall k :: 0 <= k < i ==> attributes[k].attrType != name
  {
    if |attributes| == 0 then -1
    else if attributes[0].attrType == name then 0
    else
      var i := FindAttribute(attributes[1..], name);
      assert forall k :: 1 <= k < |attributes| ==> attributes[k] == attributes[1..][k - 1];
      if i == -1 then -1 else i + 1
  }

  /** `{{input}}` is the raw input; any other name is the first value of
      the first attribute of that type, which must exist and have one. */
  function FormatValue(input: string, record: Entry, name: string): (r: Result<string, LdapError>)
    ensures name == "input" ==> r == Ok(input)
    ensures name != "input" ==>
              (r.Ok? <==>
                 exists i :: 0 <= i < |record.attributes| && record.attributes[i].attrType == name
                             && |record.attributes[i].vals| > 0
                             && forall k :: 0 <= k < i ==> record.attributes[k].attrType != name)
    ensures name != "input" && r.Ok? ==>
              exists i :: 0 <= i < |record.attributes| && record.attributes[i].attrType == name
                          && |record.attributes[i].vals| > 0 && r.value == record.attributes[i].vals[0]
    ensures r.Err? ==> r.error == InvalidEntry(name)
  {
    if name == "input" then Ok(input)
    else
      var i := FindAttribute(record.attributes, name);
      if i != -1 && |record.attributes[i].vals| != 0 then Ok(record.attributes[i].vals[0])
      else Err(InvalidEntry(name))
  }

  /** `makeEvalFormat(format)(input, record)`; without a format the input
      is returned as it is. */
  function EvalFormat(format: Option<string>, input: string, record: Entry): (r: Result<string, LdapError>)
    ensures format.None? ==> r == Ok(input)
  {
    match format
    case None => Ok(input)
    case Some(f) => Replace(f, name => FormatValue(input, record, name))
  }

  /** A format of just `{{input}}` gives back the raw, unescaped input. */
  lemma InputFormat(input: string, record: Entry)
    ensures EvalFormat(Some("{{input}}"), input, record) == Ok(input)
  {
    var pieces := [Var("input")];
    assert Join(pieces) == "{{input}}" by {
      assert Join(pieces[1..]) == "";
    }
    ReplaceRenders(pieces, name => FormatValue(input, record, name));
    assert Render(pieces[1..], name => FormatValue(input, record, name)) == Ok("");
    assert input + "" == input;
  }
}
