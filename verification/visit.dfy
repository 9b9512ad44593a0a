/** The tree visitor (src/visit.rs): walks the source tree in document order,
    copying ordinary nodes, evaluating `htmpl-query` and `htmpl-insert`
    elements, and opening a scope for the children of every ordinary element. */
module Visitor {
  import opened Wrappers
  import opened Errors
  import Values
  import opened Queries
  import opened Dom

  const InsertTag := "htmpl-insert"
  const QueryTag := "htmpl-query"

  /** What the evaluator is given from outside: the database, the iteration
      order of result rows (used only in diagnostics) and the rendering of
      floating-point numbers. */
  datatype Host = Host(db: Database, columnOrder: ColumnOrder, showReal: Values.Float -> string)

  /** The evaluation context (`Queries`): the scope in force and, beneath it,
      the scopes saved by enclosing elements, innermost last. */
  datatype ScopeStack = ScopeStack(top: Scope, saved: seq<Scope>)

  /** `Queries::new`: a single fresh scope. */
  function NewStack(): (c: ScopeStack)
    ensures c.top.bindings == map[] && c.saved == []
  {
    ScopeStack(NewScope(), [])
  }

  /** `push_scope`: saves the current scope and continues in a copy of it. */
  function PushScope(c: ScopeStack): (r: ScopeStack)
    ensures r.top == c.top
    ensures |r.saved| == |c.saved| + 1
    ensures PopScope(r) == c
  {
    ScopeStack(Queries.Push(c.top), c.saved + [c.top])
  }

  /** `pop_scope`: discards the current scope and restores the saved one. */
  function PopScope(c: ScopeStack): (r: ScopeStack)
    requires |c.saved| > 0
    ensures r.top == c.saved[|c.saved| - 1]
    ensures |r.saved| == |c.saved| - 1
    ensures forall k :: 0 <= k < |r.saved| ==> r.saved[k] == c.saved[k]
  {
    ScopeStack(c.saved[|c.saved| - 1], c.saved[..|c.saved| - 1])
  }

  /** `Queries::get`: the rows bound to `name` in the current scope. */
  function Lookup(c: ScopeStack, name: string): (r: Option<QueryResult>)
    ensures r.Some? <==> name in c.top.bindings
    ensures r.Some? ==> r.value == c.top.bindings[name]
  {
    if name in c.top.bindings then Some(c.top.bindings[name]) else None
  }

  /** `visit_insert`: the text an `htmpl-insert` element stands for. The
      `query` attribute names a query with exactly one row; the `column`
      attribute, or else the row's only column, selects the value. */
  function VisitInsert(host: Host, c: ScopeStack, attrs: map<string, string>): (r: Result<string, Error>)
    ensures "query" !in attrs ==> r == Err(MissingAttr(InsertTag, "query"))
    ensures "query" in attrs && attrs["query"] !in c.top.bindings ==>
      r == Err(MissingQuery(InsertTag, attrs["query"]))
    ensures "query" in attrs && attrs["query"] in c.top.bindings && |c.top.bindings[attrs["query"]]| != 1 ==>
      r == Err(Cardinality(InsertTag, attrs["query"], |c.top.bindings[attrs["query"]]|, 1))
    ensures "query" in attrs && attrs["query"] in c.top.bindings && |c.top.bindings[attrs["query"]]| == 1 ==>
      var name := attrs["query"];
      var row := c.top.bindings[name][0];
      && ("column" in attrs && attrs["column"] in row ==>
            r == Ok(Values.FormatValue(host.showReal, row[attrs["column"]])))
      && ("column" in attrs && attrs["column"] !in row ==>
            r == Err(MissingColumn(InsertTag, name, FmtColumns(host.columnOrder, row), attrs["column"])))
      && ("column" !in attrs ==> (r.Ok? <==> |row| == 1))
      && ("column" !in attrs && |row| == 1 ==> r == Ok(Values.FormatValue(host.showReal, SoleValue(row))))
      && ("column" !in attrs && |row| != 1 ==>
            r == Err(NoDefaultColumn(InsertTag, name, FmtColumns(host.columnOrder, row))))
  {
    if "query" !in attrs then Err(MissingAttr(InsertTag, "query"))
    else
      var query := attrs["query"];
      match Lookup(c, query)
      case None => Err(MissingQuery(InsertTag, query))
      case Some(result) =>
        if |result| != 1 then Err(Cardinality(InsertTag, query, |result|, 1))
        else
          var row := result[0];
          if "column" in attrs then
            var column := attrs["column"];
            if column in row then Ok(Values.FormatValue(host.showReal, row[column]))
            else Err(MissingColumn(InsertTag, query, FmtColumns(host.columnOrder, row), column))
          else if |row| == 1 then Ok(Values.FormatValue(host.showReal, SoleValue(row)))
          else Err(NoDefaultColumn(InsertTag, query, FmtColumns(host.columnOrder, row)))
  }

  /** The result of visiting: the context afterwards and the nodes appended
      to the output parent. */
  datatype Step = Step(ctx: ScopeStack, out: seq<Node>)

  /** `visit_recurse` and `visit_element`: evaluates `node` in `c`. Only the
      current scope can change: every scope an element opens is closed again,
      so an ordinary element leaves the context exactly as it found it. The
      document root is the exception to scoping: its children are visited in
      the context itself, with no scope pushed, so a top-level query stays
      visible to every later top-level node. */
  function Visit(host: Host, c: ScopeStack, node: Node): (r: Result<Step, Error>)
    decreases node
    ensures r.Ok? ==> r.value.ctx.saved == c.saved
    ensures r.Ok? && node.Element? && node.tag != InsertTag && node.tag != QueryTag ==>
      && r.value.ctx == c
      && |r.value.out| == 1 && r.value.out[0].Element?
      && r.value.out[0].tag == node.tag && r.value.out[0].attrs == node.attrs
    ensures r.Ok? && node.Element? && node.tag == InsertTag ==>
      r.value.ctx == c && |r.value.out| == 1 && r.value.out[0].Text?
    ensures r.Ok? && node.Element? && node.tag == QueryTag ==> r.value.out == []
    ensures node.Element? && node.tag == InsertTag ==>
      var text := VisitInsert(host, c, node.attrs);
      if text.Ok? then r == Ok(Step(c, [Text(text.value)])) else r == Err(text.error)
    ensures node.Element? && node.tag == QueryTag ==>
      var scope := DoQuery(c.top, host.columnOrder, host.db, node);
      if scope.Ok? then r == Ok(Step(c.(top := scope.value), [])) else r == Err(scope.error)
    ensures r.Ok? && !node.Element? ==> |r.value.out| == 1
    ensures node.Text? || node.Comment? ==> r == Ok(Step(c, [node]))
    ensures node.Document? ==>
      var inner := VisitSeq(host, c, node.children);
      if inner.Err? then r == Err(inner.error) else r == Ok(Step(inner.value.ctx, [Document(inner.value.out)]))
  {
    match node
    case Element(tag, attrs, children) =>
      if tag == InsertTag then
        var text :- VisitInsert(host, c, attrs);
        Ok(Step(c, [Text(text)]))
      else if tag == QueryTag then
        var scope :- DoQuery(c.top, host.columnOrder, host.db, node);
        Ok(Step(c.(top := scope), []))
      else
        var inner :- VisitSeq(host, PushScope(c), children);
        Ok(Step(PopScope(inner.ctx), [Element(tag, attrs, inner.out)]))
    case Document(children) =>
      var inner :- VisitSeq(host, c, children);
      Ok(Step(inner.ctx, [Document(inner.out)]))
    case Text(_) => Ok(Step(c, [node]))
    case Comment(_) => Ok(Step(c, [node]))
  }

  /** The children loop: visits `nodes` left to right, threading the context,
      and stops at the first error. */
  function VisitSeq(host: Host, c: ScopeStack, nodes: seq<Node>): (r: Result<Step, Error>)
    decreases nodes
    ensures r.Ok? ==> r.value.ctx.saved == c.saved
  {
    if nodes == [] then Ok(Step(c, []))
    else
      var first :- Visit(host, c, nodes[0]);
      var rest :- VisitSeq(host, first.ctx, nodes[1..]);
      Ok(Step(rest.ctx, first.out + rest.out))
  }
}
