/** Laws of the tree visitor: evaluation of a template free of htmpl elements
    is the identity, children are evaluated left to right and stop at the
    first error, an element's bindings end with the element, and an insert
    selects exactly what a specifier selects. */
module VisitLaws {
  import opened Wrappers
  import opened Errors
  import Values
  import opened Queries
  import opened Dom
  import opened Visitor

  /** `n` contains no `htmpl-insert` or `htmpl-query` element. */
  predicate Plain(n: Node)
    decreases n
  {
    match n
    case Element(tag, _, children) => tag != InsertTag && tag != QueryTag && PlainSeq(children)
    case Document(children) => PlainSeq(children)
    case Text(_) => true
    case Comment(_) => true
  }

  predicate PlainSeq(ns: seq<Node>)
    decreases ns
  {
    forall i :: 0 <= i < |ns| ==> Plain(ns[i])
  }

  /** A tree with no htmpl element is reproduced node for node, and the
      context is left as it was. */
  lemma {:induction false} IdentityLaw(host: Host, c: ScopeStack, n: Node)
    requires Plain(n)
    ensures Visit(host, c, n) == Ok(Step(c, [n]))
    decreases n
  {
    match n
    case Element(_, _, children) => IdentityLawSeq(host, PushScope(c), children);
    case Document(children) => IdentityLawSeq(host, c, children);
    case Text(_) =>
    case Comment(_) =>
  }

  lemma {:induction false} IdentityLawSeq(host: Host, c: ScopeStack, ns: seq<Node>)
    requires PlainSeq(ns)
    ensures VisitSeq(host, c, ns) == Ok(Step(c, ns))
    decreases ns
  {
    if ns != [] {
      IdentityLaw(host, c, ns[0]);
      IdentityLawSeq(host, c, ns[1..]);
      assert [ns[0]] + ns[1..] == ns;
    }
  }

  /** An ordinary element is copied with its tag and attributes, its children
      are evaluated in a pushed scope, and the context is restored after it. */
  lemma OrdinaryElement(host: Host, c: ScopeStack, tag: string, attrs: map<string, string>, kids: seq<Node>)
    requires tag != InsertTag && tag != QueryTag
    ensures var inner := VisitSeq(host, PushScope(c), kids);
      Visit(host, c, Element(tag, attrs, kids)) ==
        if inner.Err? then Err(inner.error) else Ok(Step(c, [Element(tag, attrs, inner.value.out)]))
  {
  }

  /** Evaluating `[n] + rest` when `n` succeeds: `rest` continues in the
      context `n` left, after `n`'s output. */
  lemma VisitSeqCons(host: Host, c: ScopeStack, n: Node, rest: seq<Node>)
    requires Visit(host, c, n).Ok?
    ensures var first := Visit(host, c, n).value;
      var after := VisitSeq(host, first.ctx, rest);
      VisitSeq(host, c, [n] + rest) ==
        if after.Err? then Err(after.error) else Ok(Step(after.value.ctx, first.out + after.value.out))
  {
    assert ([n] + rest)[0] == n;
    assert ([n] + rest)[1..] == rest;
  }

  /** Evaluating `a + b` is evaluating `a`, then `b` in the context `a` left,
      with the outputs concatenated; an error in `a` aborts before `b` is
      looked at. */
  lemma {:induction false} VisitSeqAppend(host: Host, c: ScopeStack, a: seq<Node>, b: seq<Node>)
    ensures var first := VisitSeq(host, c, a);
      VisitSeq(host, c, a + b) ==
        if first.Err? then Err(first.error)
        else (var rest := VisitSeq(host, first.value.ctx, b);
              if rest.Err? then Err(rest.error) else Ok(Step(rest.value.ctx, first.value.out + rest.value.out)))
    decreases a
  {
    if a == [] {
      assert a + b == b;
      var rest := VisitSeq(host, c, b);
      if rest.Ok? {
        assert [] + rest.value.out == rest.value.out;
      }
    } else {
      assert (a + b)[0] == a[0];
      assert (a + b)[1..] == a[1..] + b;
      var head := Visit(host, c, a[0]);
      if head.Ok? {
        VisitSeqAppend(host, head.value.ctx, a[1..], b);
        var mid := VisitSeq(host, head.value.ctx, a[1..]);
        if mid.Ok? {
          var rest := VisitSeq(host, mid.value.ctx, b);
          if rest.Ok? {
            assert head.value.out + (mid.value.out + rest.value.out) == (head.value.out + mid.value.out) + rest.value.out;
          }
        }
      }
    }
  }

  /** Shadow and restore: whatever an ordinary element binds inside itself,
      the siblings after it are evaluated in the context it was entered with. */
  lemma SiblingsSeeEnclosingScope(host: Host, c: ScopeStack, e: Node, rest: seq<Node>)
    requires e.Element? && e.tag != InsertTag && e.tag != QueryTag
    requires Visit(host, c, e).Ok?
    ensures var after := VisitSeq(host, c, rest);
      VisitSeq(host, c, [e] + rest) ==
        if after.Err? then Err(after.error) else Ok(Step(after.value.ctx, Visit(host, c, e).value.out + after.value.out))
  {
    VisitSeqAppend(host, c, [e], rest);
    assert [e][1..] == [];
  }

  /** An insert's children are never looked at. */
  lemma InsertIgnoresChildren(host: Host, c: ScopeStack, attrs: map<string, string>, kids: seq<Node>)
    ensures Visit(host, c, Element(InsertTag, attrs, kids)) == Visit(host, c, Element(InsertTag, attrs, []))
  {
  }

  /** `htmpl-insert query="q" column="col"` selects what the specifier
      `q(col)` selects (and `query="q"` alone what `q` selects), formatted,
      with errors tagged by the insert element. */
  lemma InsertAgreesWithGetSingle(host: Host, c: ScopeStack, attrs: map<string, string>)
    requires "query" in attrs && '(' !in attrs["query"]
    requires "column" in attrs ==> ValidColumnSpecifier(attrs["query"], attrs["column"])
    ensures var specifier :=
        if "column" in attrs then ColumnSpecifier(attrs["query"], attrs["column"]) else attrs["query"];
      var got := GetSingle(c.top, host.columnOrder, specifier);
      VisitInsert(host, c, attrs) ==
        if got.Ok? then Ok(Values.FormatValue(host.showReal, got.value)) else Err(SetElement(got.error, InsertTag))
  {
    var column := if "column" in attrs then Some(attrs["column"]) else None;
    var specifier :=
      if "column" in attrs then ColumnSpecifier(attrs["query"], attrs["column"]) else attrs["query"];
    if "column" in attrs {
      SpecifierRoundTrip(attrs["query"], attrs["column"]);
    }
    assert ParseSpecifier(specifier) == Ok((attrs["query"], column));
    assert GetSingle(c.top, host.columnOrder, specifier) == Select(c.top, host.columnOrder, attrs["query"], column);
    InsertAgreesWithSelect(host, c, attrs);
  }

  /** The insert element's value is what `Select` picks for its `query` and
      optional `column` attributes, formatted, with errors tagged by the
      insert element. */
  lemma InsertAgreesWithSelect(host: Host, c: ScopeStack, attrs: map<string, string>)
    requires "query" in attrs
    ensures var column := if "column" in attrs then Some(attrs["column"]) else None;
      var got := Select(c.top, host.columnOrder, attrs["query"], column);
      VisitInsert(host, c, attrs) ==
        if got.Ok? then Ok(Values.FormatValue(host.showReal, got.value)) else Err(SetElement(got.error, InsertTag))
  {
    var name := attrs["query"];
    if name in c.top.bindings && |c.top.bindings[name]| == 1 && "column" !in attrs {
      var row := c.top.bindings[name][0];
      if |row| == 1 {
        var v := Select(c.top, host.columnOrder, name, None).value;
        assert row.Values == {v} && SoleValue(row) in row.Values;
      }
    }
  }
}
