/** Concrete evaluations mirroring the scenarios of src/tests.rs, over a
    two-user database stand-in that answers each query text with fixed rows. */
module Scenarios {
  import opened Wrappers
  import opened Strings
  import opened Errors
  import opened Values
  import opened Queries
  import Dom
  import opened Visitor
  import opened VisitLaws

  const UuidA := "18adfb4d-6a38-4c81-b2e8-4d59e6467c9f"
  const UuidB := "6de21789-6279-416c-9025-d090d407bc8c"

  /** Answers the query text "inner" with user A's uuid and any other text
      with user B's; no query has parameters. */
  function UsersDb(): Database {
    Database(
      sql => Ok(Prepared(sql, [])),
      (st: Prepared, params: seq<(string, Value)>) =>
        if st.sql == "inner" then Ok([map["uuid" := Value.Text(UuidA)]])
        else Ok([map["uuid" := Value.Text(UuidB)]]))
  }

  function UsersHost(): Host {
    Host(UsersDb(), row => [], f => "")
  }

  function QueryElement(name: string, sql: string): Dom.Node {
    Dom.Element(QueryTag, map["name" := name], [Dom.Text(sql)])
  }

  function InsertElement(query: string): Dom.Node {
    Dom.Element(InsertTag, map["query" := query], [])
  }

  function UserRow(uuid: string): Row {
    map["uuid" := Value.Text(uuid)]
  }

  /** `c` with `q` bound to the single row holding `uuid`. */
  function BindQ(c: ScopeStack, uuid: string): ScopeStack {
    c.(top := c.top.(bindings := c.top.bindings["q" := [UserRow(uuid)]]))
  }

  /** The query text of a declaration is its one text child, already trimmed. */
  lemma DeclarationText(sql: string)
    requires sql == "inner" || sql == "outer"
    ensures QueryText(QueryElement("q", sql)) == sql
  {
    var e := QueryElement("q", sql);
    assert Dom.TextContent(e) == [sql];
    assert JoinWith([sql], " ") == sql;
    TrimUnpadded(sql);
  }

  /** The declaration of `q` as `sql` binds `q` to the stand-in's answer. */
  lemma DeclareQuery(s: Scope, sql: string)
    requires sql == "inner" || sql == "outer"
    ensures DoQuery(s, UsersHost().columnOrder, UsersDb(), QueryElement("q", sql)) ==
      Ok(s.(bindings := s.bindings["q" := [UserRow(if sql == "inner" then UuidA else UuidB)]]))
  {
    DeclarationText(sql);
  }

  lemma DeclareStep(c: ScopeStack, sql: string)
    requires sql == "inner" || sql == "outer"
    ensures Visit(UsersHost(), c, QueryElement("q", sql)) ==
      Ok(Step(BindQ(c, if sql == "inner" then UuidA else UuidB), []))
  {
    var node := QueryElement("q", sql);
    assert node.Element? && node.tag == QueryTag;
    DeclareQuery(c.top, sql);
    assert BindQ(c, if sql == "inner" then UuidA else UuidB) ==
      c.(top := c.top.(bindings := c.top.bindings["q" := [UserRow(if sql == "inner" then UuidA else UuidB)]]));
  }

  lemma InsertStep(c: ScopeStack, uuid: string)
    requires "q" in c.top.bindings && c.top.bindings["q"] == [UserRow(uuid)]
    ensures Visit(UsersHost(), c, InsertElement("q")) == Ok(Step(c, [Dom.Text(uuid)]))
  {
    var row := UserRow(uuid);
    assert "uuid" in row.Keys;
    assert row["uuid"] in row.Values;
    assert SoleValue(row) == Value.Text(uuid);
  }

  function InnerDiv(): Dom.Node {
    Dom.Element("div", map[], [QueryElement("q", "inner"), InsertElement("q")])
  }

  /* The chaining lemmas below take the visited nodes as parameters and only
     the facts about their visits as preconditions, so that each proof looks
     at one level of the tree at a time. */

  lemma ChainOne(host: Host, c: ScopeStack, a: Dom.Node, c1: ScopeStack, o1: seq<Dom.Node>)
    requires Visit(host, c, a) == Ok(Step(c1, o1))
    ensures VisitSeq(host, c, [a]) == Ok(Step(c1, o1))
  {
    VisitSeqCons(host, c, a, []);
    assert [a] + [] == [a];
    assert o1 + [] == o1;
  }

  lemma ChainPair(host: Host, c: ScopeStack, a: Dom.Node, b: Dom.Node,
                  c1: ScopeStack, o1: seq<Dom.Node>, c2: ScopeStack, o2: seq<Dom.Node>)
    requires Visit(host, c, a) == Ok(Step(c1, o1))
    requires VisitSeq(host, c1, [b]) == Ok(Step(c2, o2))
    ensures VisitSeq(host, c, [a, b]) == Ok(Step(c2, o1 + o2))
  {
    VisitSeqCons(host, c, a, [b]);
    assert [a] + [b] == [a, b];
  }

  lemma ChainTriple(host: Host, c: ScopeStack, a: Dom.Node, b: Dom.Node, d: Dom.Node,
                    c1: ScopeStack, o1: seq<Dom.Node>, c2: ScopeStack, o2: seq<Dom.Node>)
    requires Visit(host, c, a) == Ok(Step(c1, o1))
    requires VisitSeq(host, c1, [b, d]) == Ok(Step(c2, o2))
    ensures VisitSeq(host, c, [a, b, d]) == Ok(Step(c2, o1 + o2))
  {
    VisitSeqCons(host, c, a, [b, d]);
    assert [a] + [b, d] == [a, b, d];
  }

  /** A `div` whose children visit to `kidsOut` is copied with those
      children, and leaves the context as it found it. */
  lemma DivStep(host: Host, c: ScopeStack, kids: seq<Dom.Node>, c1: ScopeStack, kidsOut: seq<Dom.Node>)
    requires VisitSeq(host, PushScope(c), kids) == Ok(Step(c1, kidsOut))
    ensures Visit(host, c, Dom.Element("div", map[], kids)) == Ok(Step(c, [Dom.Element("div", map[], kidsOut)]))
  {
    OrdinaryElement(host, c, "div", map[], kids);
  }

  /** A `div` holding a declaration and then an insert: the insert is
      evaluated in the scope the declaration produced, and the `div` leaves
      the context as it found it. */
  lemma InnerDivStep(host: Host, c: ScopeStack, decl: Dom.Node, ins: Dom.Node, cA: ScopeStack, t: string)
    requires Visit(host, PushScope(c), decl) == Ok(Step(cA, []))
    requires Visit(host, cA, ins) == Ok(Step(cA, [Dom.Text(t)]))
    ensures Visit(host, c, Dom.Element("div", map[], [decl, ins])) ==
      Ok(Step(c, [Dom.Element("div", map[], [Dom.Text(t)])]))
  {
    ChainOne(host, cA, ins, cA, [Dom.Text(t)]);
    ChainPair(host, PushScope(c), decl, ins, cA, [], cA, [Dom.Text(t)]);
    assert [] + [Dom.Text(t)] == [Dom.Text(t)];
    DivStep(host, c, [decl, ins], cA, [Dom.Text(t)]);
  }

  /** A sibling that leaves the context alone, then an insert: the insert is
      evaluated in the same context. */
  lemma SiblingThenInsertStep(host: Host, cB: ScopeStack, div: Dom.Node, ins: Dom.Node, divOut: Dom.Node, t: string)
    requires Visit(host, cB, div) == Ok(Step(cB, [divOut]))
    requires Visit(host, cB, ins) == Ok(Step(cB, [Dom.Text(t)]))
    ensures VisitSeq(host, cB, [div, ins]) == Ok(Step(cB, [divOut, Dom.Text(t)]))
  {
    ChainOne(host, cB, ins, cB, [Dom.Text(t)]);
    ChainPair(host, cB, div, ins, cB, [divOut], cB, [Dom.Text(t)]);
    assert [divOut] + [Dom.Text(t)] == [divOut, Dom.Text(t)];
  }

  /** A declaration followed by siblings that see what it bound. */
  lemma OuterChildrenStep(host: Host, c: ScopeStack, decl: Dom.Node, div: Dom.Node, ins: Dom.Node,
                          cB: ScopeStack, divOut: Dom.Node, t: string)
    requires Visit(host, c, decl) == Ok(Step(cB, []))
    requires VisitSeq(host, cB, [div, ins]) == Ok(Step(cB, [divOut, Dom.Text(t)]))
    ensures VisitSeq(host, c, [decl, div, ins]) == Ok(Step(cB, [divOut, Dom.Text(t)]))
  {
    ChainTriple(host, c, decl, div, ins, cB, [], cB, [divOut, Dom.Text(t)]);
    assert [] + [divOut, Dom.Text(t)] == [divOut, Dom.Text(t)];
  }

  /** Two nested declarations of `q`: the insert inside the inner `div` sees
      the inner result, the insert after it sees the outer one again. */
  lemma ShadowInnerScope()
    ensures
      var outer := Dom.Element("div", map[], [QueryElement("q", "outer"), InnerDiv(), InsertElement("q")]);
      Visit(UsersHost(), NewStack(), outer) ==
        Ok(Step(NewStack(), [Dom.Element("div", map[], [
          Dom.Element("div", map[], [Dom.Text(UuidA)]), Dom.Text(UuidB)])]))
  {
    var c := PushScope(NewStack());
    var cB := BindQ(c, UuidB);
    var divA := Dom.Element("div", map[], [Dom.Text(UuidA)]);
    DeclareStep(PushScope(cB), "inner");
    InsertStep(BindQ(PushScope(cB), UuidA), UuidA);
    InnerDivStep(UsersHost(), cB, QueryElement("q", "inner"), InsertElement("q"), BindQ(PushScope(cB), UuidA), UuidA);
    DeclareStep(c, "outer");
    InsertStep(cB, UuidB);
    SiblingThenInsertStep(UsersHost(), cB, InnerDiv(), InsertElement("q"), divA, UuidB);
    OuterChildrenStep(UsersHost(), c, QueryElement("q", "outer"), InnerDiv(), InsertElement("q"), cB, divA, UuidB);
    DivStep(UsersHost(), NewStack(), [QueryElement("q", "outer"), InnerDiv(), InsertElement("q")],
            cB, [divA, Dom.Text(UuidB)]);
  }

  /** An insert of a query that was never declared fails, tagged with the
      insert element. */
  lemma MissingQueryScenario()
    ensures Visit(UsersHost(), NewStack(), InsertElement("q")) == Err(MissingQuery("htmpl-insert", "q"))
    ensures MissingQuery("htmpl-insert", "q") != MissingQuery("", "q")
  {
  }
}
