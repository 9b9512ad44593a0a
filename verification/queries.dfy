/** Query handling (src/queries.rs): the binding environment `Scope`, the
    `name` / `name(column)` specifier protocol, row iteration for loops, the
    per-node attribute patch table, and the binding side of `do_query`. */
module Queries {
  import opened Wrappers
  import opened Strings
  import opened Errors
  import opened Values
  import Dom

  /** One result row: column name to value. */
  type Row = map<string, Value>

  /** The rows of a query, in the order the database returned them. */
  type QueryResult = seq<Row>

  /** Stable identity of a node of the source tree. */
  type NodeId = nat

  datatype Attribute = Attribute(name: string, value: string)

  /** Data local to one scope: the query results in view, and the attribute
      patches registered so far, per target node. */
  datatype Scope = Scope(bindings: map<string, QueryResult>, attrs: map<NodeId, seq<Attribute>>)

  /** The order in which a `HashMap` row yields its column names. It depends on
      the map's random hash seed, so the model takes it from outside; it only
      shapes the column listing in diagnostics. */
  type ColumnOrder = Row -> seq<string>

  /** A prepared statement: its text and the names of its named parameters. */
  datatype Prepared = Prepared(sql: string, parameterNames: seq<string>)

  /** The read-only database, reduced to preparing a statement and running
      it with named parameters bound to values. */
  datatype Database = Database(
    prepare: string -> Result<Prepared, SqlError>,
    execute: (Prepared, seq<(string, Value)>) -> Result<QueryResult, SqlError>)

  // ----- Scope::new, Scope::push -----

  /** `Scope::new`: no bindings and no patches. */
  function NewScope(): (s: Scope)
    ensures s.bindings == map[]
    ensures forall node: NodeId :: GetAttrs(s, node) == []
  {
    Scope(map[], map[])
  }

  /** `Scope::push`: a child scope is a copy of its parent. */
  function Push(s: Scope): (r: Scope)
    ensures r.bindings == s.bindings
    ensures r.attrs == s.attrs
  {
    s
  }

  // ----- attribute patches -----

  /** `Scope::add_attr`: appends `a` to the patches of `node`. */
  function AddAttr(s: Scope, node: NodeId, a: Attribute): (r: Scope)
    ensures GetAttrs(r, node) == GetAttrs(s, node) + [a]
    ensures forall other: NodeId | other != node :: GetAttrs(r, other) == GetAttrs(s, other)
    ensures r.bindings == s.bindings
  {
    s.(attrs := s.attrs[node := GetAttrs(s, node) + [a]])
  }

  /** `Scope::get_attrs`: the patches of `node`, empty if it has none. */
  function GetAttrs(s: Scope, node: NodeId): (r: seq<Attribute>)
    ensures node !in s.attrs ==> r == []
    ensures node in s.attrs ==> r == s.attrs[node]
  {
    if node in s.attrs then s.attrs[node] else []
  }

  /** Applies a log of `add_attr` calls in order. */
  function AddAll(s: Scope, log: seq<(NodeId, Attribute)>): Scope
    decreases |log|
  {
    if |log| == 0 then s else AddAttr(AddAll(s, log[..|log| - 1]), log[|log| - 1].0, log[|log| - 1].1)
  }

  /** The attributes a log registers for `node`, in registration order. */
  function PatchesFor(log: seq<(NodeId, Attribute)>, node: NodeId): seq<Attribute>
    decreases |log|
  {
    if |log| == 0 then []
    else PatchesFor(log[..|log| - 1], node) + (if log[|log| - 1].0 == node then [log[|log| - 1].1] else [])
  }

  /** Starting from a fresh scope, every node's patches are exactly the ones the
      log registered for it, in the order they were registered. */
  lemma {:induction false} PatchesAreLogged(log: seq<(NodeId, Attribute)>, node: NodeId)
    ensures GetAttrs(AddAll(NewScope(), log), node) == PatchesFor(log, node)
    ensures AddAll(NewScope(), log).bindings == map[]
    decreases |log|
  {
    if |log| > 0 {
      PatchesAreLogged(log[..|log| - 1], node);
    }
  }

  // ----- specifiers -----

  /** Whether `name(column)` is a specifier that names a column. */
  predicate ValidColumnSpecifier(name: string, column: string) {
    name != [] && column != [] && '(' !in name && ')' !in column
  }

  /** The specifier text that names `column` of the query `name`. */
  function ColumnSpecifier(name: string, column: string): string {
    name + "(" + column + ")"
  }

  /** `parse_specifier`: splits `name` or `name(column)` at the first `(` and
      then at the first `)` after it. */
  function ParseSpecifier(s: string): (r: Result<(string, Option<string>), Error>)
    ensures '(' !in s ==> r == Ok((s, None))
    ensures r.Ok? && r.value.1.Some? ==>
      ValidColumnSpecifier(r.value.0, r.value.1.value) && s == ColumnSpecifier(r.value.0, r.value.1.value)
    ensures r.Err? ==> r.error == InvalidParameter("", s)
  {
    match IndexOf(s, '(')
    case None => Ok((s, None))
    case Some(i) =>
      var name := s[..i];
      var tail := s[i + 1..];
      match IndexOf(tail, ')')
      case None => Err(InvalidParameter("", s))
      case Some(j) =>
        var column := tail[..j];
        var rest := tail[j + 1..];
        if name == [] || column == [] || rest != [] then Err(InvalidParameter("", s))
        else
          assert s == name + "(" + column + ")";
          Ok((name, Some(column)))
  }

  /** Every well-formed column specifier parses back to its parts. */
  lemma SpecifierRoundTrip(name: string, column: string)
    requires ValidColumnSpecifier(name, column)
    ensures ParseSpecifier(ColumnSpecifier(name, column)) == Ok((name, Some(column)))
  {
    var s := ColumnSpecifier(name, column);
    assert s == name + ['('] + (column + ")");
    IndexOfSplit(name, '(', column + ")");
    assert s[..|name|] == name;
    var tail := s[|name| + 1..];
    assert tail == column + [')'] + [];
    IndexOfSplit(column, ')', []);
    assert tail[..|column|] == column;
    assert tail[|column| + 1..] == [];
  }

  /** A specifier whose first `(` is never closed is rejected. */
  lemma SpecifierUnclosed(name: string, tail: string)
    requires '(' !in name && ')' !in tail
    ensures ParseSpecifier(name + "(" + tail) == Err(InvalidParameter("", name + "(" + tail))
  {
  }

  /** A specifier `name(column)rest` is rejected when the name or the column is
      empty or anything follows the first `)`. */
  lemma SpecifierMalformed(name: string, column: string, rest: string)
    requires '(' !in name && ')' !in column
    requires name == [] || column == [] || rest != []
    ensures var s := name + "(" + column + ")" + rest;
      ParseSpecifier(s) == Err(InvalidParameter("", s))
  {
    var s := name + "(" + column + ")" + rest;
    IndexOfSplit(name, '(', column + ")" + rest);
    assert s == name + ['('] + (column + ")" + rest);
    var tail := s[|name| + 1..];
    assert tail == column + ")" + rest;
    IndexOfSplit(column, ')', rest);
    assert tail == column + [')'] + rest;
    assert tail[|column| + 1..] == rest;
  }

  // ----- lookups -----

  /** `Scope::get`: the rows bound to `name`. */
  function Get(s: Scope, name: string): (r: Result<QueryResult, Error>)
    ensures r.Ok? <==> name in s.bindings
    ensures r.Ok? ==> r.value == s.bindings[name]
    ensures r.Err? ==> r.error == MissingQuery("", name)
  {
    if name in s.bindings then Ok(s.bindings[name]) else Err(MissingQuery("", name))
  }

  /** The value of a one-column row. */
  function SoleValue(row: Row): (v: Value)
    requires |row| == 1
    ensures row.Values == {v}
  {
    var k :| k in row;
    var others := row.Keys - {k};
    assert row.Keys == others + {k};
    assert others == {};
    row[k]
  }

  /** The diagnostic listing of a row's column names: quoted, comma-joined,
      in the row's iteration order. */
  function FmtColumns(order: ColumnOrder, row: Row): string {
    "\"" + JoinWith(order(row), ",") + "\""
  }

  /** The value `get_single` selects once the specifier is split: the query
      must be bound and have exactly one row, whether or not a column is
      named; then the named column, or else the row's only column, is taken. */
  function Select(s: Scope, order: ColumnOrder, name: string, column: Option<string>): (r: Result<Value, Error>)
    ensures name !in s.bindings ==> r == Err(MissingQuery("", name))
    ensures name in s.bindings && |s.bindings[name]| != 1 ==>
      r == Err(Cardinality("", name, |s.bindings[name]|, 1))
    ensures name in s.bindings && |s.bindings[name]| == 1 && column.Some? ==>
      var row := s.bindings[name][0];
      && (column.value in row ==> r == Ok(row[column.value]))
      && (column.value !in row ==> r == Err(MissingColumn("", name, FmtColumns(order, row), column.value)))
    ensures name in s.bindings && |s.bindings[name]| == 1 && column.None? ==>
      var row := s.bindings[name][0];
      && (r.Ok? <==> |row| == 1)
      && (r.Ok? ==> row.Values == {r.value})
      && (r.Err? ==> r.error == NoDefaultColumn("", name, FmtColumns(order, row)))
    ensures r.Err? ==> HasElement(r.error) && r.error.element == ""
  {
    var q :- Get(s, name);
    if |q| != 1 then Err(Cardinality("", name, |q|, 1))
    else
      var row := q[0];
      match column
      case Some(c) =>
        if c in row then Ok(row[c]) else Err(MissingColumn("", name, FmtColumns(order, row), c))
      case None =>
        if |row| == 1 then Ok(SoleValue(row)) else Err(NoDefaultColumn("", name, FmtColumns(order, row)))
  }

  /** `Scope::get_single`: parses a specifier and selects the value it names. */
  function GetSingle(s: Scope, order: ColumnOrder, specifier: string): (r: Result<Value, Error>)
    ensures ParseSpecifier(specifier).Err? ==> r == Err(InvalidParameter("", specifier))
    ensures ParseSpecifier(specifier).Ok? ==>
      r == Select(s, order, ParseSpecifier(specifier).value.0, ParseSpecifier(specifier).value.1)
    ensures r.Err? ==> HasElement(r.error) && r.error.element == ""
  {
    var (name, column) :- ParseSpecifier(specifier);
    Select(s, order, name, column)
  }

  /** A binding whose row count is not one is rejected the same way whether the
      specifier names a column or not. */
  lemma CardinalityLaw(s: Scope, order: ColumnOrder, name: string, column: string)
    requires ValidColumnSpecifier(name, column)
    requires name in s.bindings && |s.bindings[name]| != 1
    ensures GetSingle(s, order, name) == Err(Cardinality("", name, |s.bindings[name]|, 1))
    ensures GetSingle(s, order, ColumnSpecifier(name, column)) == GetSingle(s, order, name)
  {
    SpecifierRoundTrip(name, column);
  }

  // ----- row iteration -----

  /** `RowIterator`: walks the rows of `query`, producing for each a copy of
      `parent` in which `queryName` is narrowed to that one row. */
  datatype RowIterator = RowIterator(queryName: string, query: QueryResult, i: nat, parent: Scope)

  /** `Scope::for_each_row`: an iterator over the rows bound to `name`, or
      nothing when `name` is unbound. */
  function ForEachRow(s: Scope, name: string): (r: Option<RowIterator>)
    ensures r.None? <==> name !in s.bindings
    ensures r.Some? ==>
      r.value.i == 0 && r.value.parent == s && r.value.queryName == name && r.value.query == s.bindings[name]
  {
    if name in s.bindings then Some(RowIterator(name, s.bindings[name], 0, s)) else None
  }

  /** The scope in which `name` is narrowed to row `k` of its result. */
  function Narrowed(s: Scope, name: string, rows: QueryResult, k: nat): Scope
    requires k < |rows|
  {
    s.(bindings := s.bindings[name := [rows[k]]])
  }

  /** `RowIterator::next`. */
  function Next(it: RowIterator): (r: Option<(Scope, RowIterator)>)
    ensures r.Some? <==> it.i < |it.query|
    ensures r.Some? ==>
      r.value.0 == Narrowed(it.parent, it.queryName, it.query, it.i) && r.value.1 == it.(i := it.i + 1)
  {
    if it.i < |it.query| then
      var next := it.parent.(bindings := it.parent.bindings[it.queryName := [it.query[it.i]]]);
      Some((next, it.(i := it.i + 1)))
    else None
  }

  /** Every scope an iterator still yields, in order: what a `for` loop over
      it sees. */
  function Drain(it: RowIterator): (r: seq<Scope>)
    decreases |it.query| - it.i
    ensures |r| == (if it.i <= |it.query| then |it.query| - it.i else 0)
    ensures forall k :: 0 <= k < |r| ==> r[k] == Narrowed(it.parent, it.queryName, it.query, it.i + k)
  {
    match Next(it)
    case None => []
    case Some((scope, rest)) => [scope] + Drain(rest)
  }

  /** Iterating `for_each_row(name)` yields one scope per row, in row order,
      each equal to the parent except that `name` holds just that row. */
  lemma ForEachRowYieldsEveryRow(s: Scope, name: string)
    requires name in s.bindings
    ensures var scopes := Drain(ForEachRow(s, name).value);
      && |scopes| == |s.bindings[name]|
      && forall k :: 0 <= k < |scopes| ==>
           && scopes[k] == s.(bindings := s.bindings[name := [s.bindings[name][k]]])
           && scopes[k].attrs == s.attrs
           && scopes[k].bindings[name] == [s.bindings[name][k]]
           && forall other | other in s.bindings && other != name ::
                other in scopes[k].bindings && scopes[k].bindings[other] == s.bindings[other]
  {
    var scopes := Drain(ForEachRow(s, name).value);
    forall k | 0 <= k < |scopes|
      ensures scopes[k] == s.(bindings := s.bindings[name := [s.bindings[name][k]]])
    {
    }
  }

  // ----- do_query -----

  /** The query text of an `htmpl-query` element: its descendant text joined
      with spaces, trimmed. */
  function QueryText(element: Dom.Node): (r: string)
    ensures var joined := JoinWith(Dom.TextContent(element), " ");
      var k := LeadingSpace(joined);
      && k + |r| <= |joined| && r == joined[k..k + |r|]
      && (forall i :: 0 <= i < k ==> IsWhitespace(joined[i]))
      && (forall i :: k + |r| <= i < |joined| ==> IsWhitespace(joined[i]))
      && (|r| > 0 ==> !IsWhitespace(r[0]) && !IsWhitespace(r[|r| - 1]))
  {
    Trim(JoinWith(Dom.TextContent(element), " "))
  }

  /** The value bound to one named parameter: the same-named attribute of
      the element holds a specifier, resolved in `s`. */
  function ParamValue(s: Scope, order: ColumnOrder, attrs: map<string, string>, name: string): (r: Result<Value, Error>)
    ensures name !in attrs ==> r == Err(MissingParameter("", name))
    ensures name in attrs ==> r == GetSingle(s, order, attrs[name])
  {
    if name !in attrs then Err(MissingParameter("", name)) else GetSingle(s, order, attrs[name])
  }

  /** The position of the first parameter whose value cannot be found, or the
      number of parameters when every one can. */
  function FirstFailing(s: Scope, order: ColumnOrder, attrs: map<string, string>, names: seq<string>): (i: nat)
    ensures i <= |names|
    ensures forall j :: 0 <= j < i ==> ParamValue(s, order, attrs, names[j]).Ok?
    ensures i < |names| ==> ParamValue(s, order, attrs, names[i]).Err?
  {
    var lookup := name => ParamValue(s, order, attrs, name);
    FirstErrIsFirst(lookup, names);
    FirstErr(lookup, names)
  }

  /** Collecting per-name lookups into one `Result`, as `collect` does for an
      iterator of `Result`s: the pairs in order, or the first error. */
  function Collect(lookup: string -> Result<Value, Error>, names: seq<string>): Result<seq<(string, Value)>, Error> {
    if |names| == 0 then Ok([])
    else
      var first := lookup(names[0]);
      if first.Err? then Err(first.error)
      else
        var rest := Collect(lookup, names[1..]);
        if rest.Err? then Err(rest.error) else Ok([(names[0], first.value)] + rest.value)
  }

  /** The position of the first name whose lookup fails, or the number of names. */
  function FirstErr(lookup: string -> Result<Value, Error>, names: seq<string>): nat {
    if |names| == 0 then 0
    else if lookup(names[0]).Err? then 0
    else 1 + FirstErr(lookup, names[1..])
  }

  lemma {:induction false} FirstErrIsFirst(lookup: string -> Result<Value, Error>, names: seq<string>)
    ensures FirstErr(lookup, names) <= |names|
    ensures forall j :: 0 <= j < FirstErr(lookup, names) ==> lookup(names[j]).Ok?
    ensures FirstErr(lookup, names) < |names| ==> lookup(names[FirstErr(lookup, names)]).Err?
  {
    if |names| > 0 && lookup(names[0]).Ok? {
      FirstErrIsFirst(lookup, names[1..]);
      assert forall j :: 0 < j < |names| ==> names[1..][j - 1] == names[j];
    }
  }

  /** `collect` succeeds exactly when no lookup fails, pairing every name with
      its value, and otherwise returns the error of the first failing lookup. */
  lemma {:induction false} CollectFacts(lookup: string -> Result<Value, Error>, names: seq<string>)
    ensures var r := Collect(lookup, names);
      var i := FirstErr(lookup, names);
      && (r.Ok? <==> i == |names|)
      && (r.Ok? ==> |r.value| == |names|)
      && (r.Ok? ==> forall k :: 0 <= k < |names| ==>
            lookup(names[k]).Ok? && r.value[k] == (names[k], lookup(names[k]).value))
      && (r.Err? ==> i < |names| && lookup(names[i]).Err? && r.error == lookup(names[i]).error)
  {
    if |names| > 0 && lookup(names[0]).Ok? {
      CollectFacts(lookup, names[1..]);
      var rest := Collect(lookup, names[1..]);
      if rest.Ok? {
        var pairs := [(names[0], lookup(names[0]).value)] + rest.value;
        assert forall k :: 0 < k < |names| ==> names[1..][k - 1] == names[k] && pairs[k] == rest.value[k - 1];
      } else {
        var i := FirstErr(lookup, names[1..]);
        assert names[1..][i] == names[i + 1];
      }
    }
  }

  /** The `collect` of the parameter list into a `Result`: the pairs in order,
      or the error of the first parameter that fails. */
  function ResolveParameters(s: Scope, order: ColumnOrder, attrs: map<string, string>, names: seq<string>): (r: Result<seq<(string, Value)>, Error>)
    ensures r.Ok? <==> forall i :: 0 <= i < |names| ==> ParamValue(s, order, attrs, names[i]).Ok?
    ensures r.Ok? ==> |r.value| == |names|
    ensures r.Ok? ==> forall i :: 0 <= i < |names| ==>
      r.value[i] == (names[i], ParamValue(s, order, attrs, names[i]).value)
    ensures r.Err? ==>
      var i := FirstFailing(s, order, attrs, names);
      i < |names| && r.error == ParamValue(s, order, attrs, names[i]).error
    ensures r.Err? ==> HasElement(r.error) && r.error.element == ""
  {
    var lookup := name => ParamValue(s, order, attrs, name);
    FirstErrIsFirst(lookup, names);
    CollectFacts(lookup, names);
    var i := FirstErr(lookup, names);
    var j := FirstFailing(s, order, attrs, names);
    assert i < |names| ==> ParamValue(s, order, attrs, names[i]).Err?;
    assert j < |names| ==> lookup(names[j]).Err?;
    assert i == j;
    Collect(lookup, names)
  }

  /** `Scope::do_query`: runs the query an `htmpl-query` element holds and binds
      its rows to the element's `name` attribute. Parameters are resolved in
      the scope as it was before this binding; only that binding changes. */
  function DoQuery(s: Scope, order: ColumnOrder, db: Database, element: Dom.Node): (r: Result<Scope, Error>)
    requires element.Element?
    ensures "name" !in element.attrs ==> r == Err(MissingAttr("htmpl-query", "name"))
    ensures "name" in element.attrs ==>
      var name := element.attrs["name"];
      var prepared := db.prepare(QueryText(element));
      if prepared.Err? then r == Err(Sql(name, prepared.error))
      else
        var params := ResolveParameters(s, order, element.attrs, prepared.value.parameterNames);
        if params.Err? then
          r == Err(params.error.(element := "htmpl-query"))
        else
          var rows := db.execute(prepared.value, params.value);
          if rows.Err? then r == Err(Sql(name, rows.error))
          else r.Ok? && r.value.bindings == s.bindings[name := rows.value] && r.value.attrs == s.attrs
  {
    if "name" !in element.attrs then Err(MissingAttr("htmpl-query", "name"))
    else
      var name := element.attrs["name"];
      var prepared := db.prepare(QueryText(element));
      if prepared.Err? then Err(Sql(name, prepared.error))
      else
        var params := ResolveParameters(s, order, element.attrs, prepared.value.parameterNames);
        if params.Err? then Err(SetElement(params.error, "htmpl-query"))
        else
          var rows := db.execute(prepared.value, params.value);
          if rows.Err? then Err(Sql(name, rows.error))
          else Ok(s.(bindings := s.bindings[name := rows.value]))
  }
}
